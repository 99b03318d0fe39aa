/** The text form of a machine's plugin settings: "name value;name value". */
module CfgText {
  import opened Basics

  datatype Setting = Setting(name: string, value: string)

  // ---------- helpers of the scanner ----------

  predicate Blank(c: char) {
    c == ' ' || c == '\t' || c == '\n' || c == '\r'
  }

  function DropLeft(s: string, out: char -> bool): (t: string)
    ensures |t| <= |s|
  {
    if s != [] && out(s[0]) then DropLeft(s[1..], out) else s
  }

  function DropRight(s: string, out: char -> bool): (t: string)
    ensures |t| <= |s|
  {
    if s != [] && out(s[|s| - 1]) then DropRight(s[..|s| - 1], out) else s
  }

  function Strip(s: string, out: char -> bool): string {
    DropRight(DropLeft(s, out), out)
  }

  /** Str_Trim and Str_Trim_Char. */
  function Trim(s: string): string {
    Strip(s, Blank)
  }

  function TrimSemicolons(s: string): string {
    Strip(s, c => c == ';')
  }

  /** ReplaceAllChar. */
  function Replaced(s: string): (t: string)
    ensures |t| == |s|
  {
    seq(|s|, i requires 0 <= i < |s| => if s[i] == ';' then '%' else s[i])
  }

  /** What becomes of one name and value: nothing when either is empty. */
  function Taken(name: string, value: string): seq<Setting> {
    var n, v := TrimSemicolons(Trim(name)), TrimSemicolons(Trim(value));
    if n == "" || v == "" then [] else [Setting(Replaced(n), Replaced(v))]
  }

  /** The scanner between two settings. */
  function Scan(s: string): seq<Setting>
    decreases |s|, 1
  {
    var i := IndexOf(s, ' ');
    if i == |s| then [] else ScanValue(s[..i], s[i + 1..])
  }

  /** The scanner behind a name; a text that ends here leaves the name behind. */
  function ScanValue(name: string, s: string): seq<Setting>
    decreases |s|, 0
  {
    if s == "" then []
    else
      var i := IndexOf(s, ';');
      Taken(name, s[..i]) + if i < |s| then Scan(s[i + 1..]) else []
  }

  // ---------- the printer ----------

  function Text(x: Setting): string {
    x.name + " " + x.value
  }

  function Print(l: seq<Setting>): string {
    if l == [] then ""
    else
      var s := Print(l[..|l| - 1]);
      if |s| > 0 then s + ";" + Text(l[|l| - 1]) else Text(l[|l| - 1])
  }

  lemma {:induction false} PrintSnoc(l: seq<Setting>, x: Setting)
    ensures Print(l + [x]) == if l == [] then Text(x) else Print(l) + ";" + Text(x)
    ensures Print(l + [x]) != ""
  {
    assert (l + [x])[..|l|] == l;
    if l != [] { NotEmpty(l); }
  }

  lemma {:induction false} NotEmpty(l: seq<Setting>)
    requires l != []
    ensures Print(l) != ""
  {
  }

  lemma {:induction false} PrintCons(x: Setting, l: seq<Setting>)
    ensures Print([x] + l) == Text(x) + if l == [] then "" else ";" + Print(l)
  {
    hide Print, Text;
    if l == [] {
      PrintSnoc([], x);
      assert [x] + l == [] + [x];
    } else {
      var k, y := l[..|l| - 1], l[|l| - 1];
      assert l == k + [y] && [x] + l == ([x] + k) + [y];
      PrintCons(x, k);
      PrintSnoc([x] + k, y);
      PrintSnoc(k, y);
      if k != [] {
        assert Text(x) + (";" + Print(k)) + ";" + Text(y) == Text(x) + (";" + (Print(k) + ";" + Text(y)));
      }
    }
  }

  // ---------- round trip ----------

  /** Values the printer accepts. */
  predicate Clean(s: string) {
    ' ' !in s && ';' !in s
  }

  /** What the scanner can yield: the text cannot hold a space or a semicolon in a name, or a semicolon in a value. */
  predicate Settled(x: Setting) {
    ' ' !in x.name && ';' !in x.name && ';' !in x.value
  }

  predicate AllSettled(l: seq<Setting>) {
    forall i :: 0 <= i < |l| ==> Settled(l[i])
  }

  /** The settings that keep something after trimming. */
  function Trimmed(l: seq<Setting>): (r: seq<Setting>)
    ensures |r| <= |l|
  {
    if l == [] then []
    else
      var n, v := Trim(l[0].name), Trim(l[0].value);
      (if n == "" || v == "" then [] else [Setting(n, v)]) + Trimmed(l[1..])
  }

  lemma {:induction false} DropLeftIs(s: string, out: char -> bool)
    ensures forall c :: c in DropLeft(s, out) ==> c in s
    ensures s != [] && !out(s[0]) ==> DropLeft(s, out) == s
    ensures DropLeft(s, out) != [] ==> !out(DropLeft(s, out)[0])
  {
    if s != [] && out(s[0]) { DropLeftIs(s[1..], out); }
  }

  lemma {:induction false} DropRightIs(s: string, out: char -> bool)
    ensures forall c :: c in DropRight(s, out) ==> c in s
    ensures DropRight(s, out) <= s
    ensures s != [] && !out(s[|s| - 1]) ==> DropRight(s, out) == s
  {
    if s != [] && out(s[|s| - 1]) { DropRightIs(s[..|s| - 1], out); }
  }

  lemma {:induction false} StripIs(s: string, out: char -> bool)
    ensures forall c :: c in Strip(s, out) ==> c in s
    ensures (forall c :: c in s ==> !out(c)) ==> Strip(s, out) == s
  {
    DropLeftIs(s, out);
    DropRightIs(DropLeft(s, out), out);
    if s != [] { assert s[0] in s && s[|s| - 1] in s; }
  }

  /** Only characters that are dropped. */
  ghost predicate Only(s: string, out: char -> bool) {
    forall c :: c in s ==> out(c)
  }

  lemma {:induction false} DropLeftSplits(s: string, out: char -> bool)
    ensures exists l :: Only(l, out) && s == l + DropLeft(s, out)
  {
    if s != [] && out(s[0]) {
      DropLeftSplits(s[1..], out);
      var l :| Only(l, out) && s[1..] == l + DropLeft(s[1..], out);
      assert s == [s[0]] + s[1..] == ([s[0]] + l) + DropLeft(s, out) && Only([s[0]] + l, out);
    } else {
      assert s == "" + s && Only("", out);
    }
  }

  lemma {:induction false} DropRightSplits(s: string, out: char -> bool)
    ensures exists r :: Only(r, out) && s == DropRight(s, out) + r
    ensures DropRight(s, out) != [] ==> !out(DropRight(s, out)[|DropRight(s, out)| - 1])
  {
    if s != [] && out(s[|s| - 1]) {
      var g := s[..|s| - 1];
      DropRightSplits(g, out);
      var r :| Only(r, out) && g == DropRight(g, out) + r;
      assert s == g + [s[|s| - 1]] == DropRight(s, out) + (r + [s[|s| - 1]]) && Only(r + [s[|s| - 1]], out);
    } else {
      assert s == s + "" && Only("", out);
    }
  }

  /** Stripping removes dropped characters from both ends, and nothing but. */
  lemma {:induction false} StripSplits(s: string, out: char -> bool)
    ensures exists l, r :: Only(l, out) && Only(r, out) && s == l + Strip(s, out) + r
    ensures Strip(s, out) != [] ==> !out(Strip(s, out)[0]) && !out(Strip(s, out)[|Strip(s, out)| - 1])
  {
    hide DropLeft, DropRight;
    var t := DropLeft(s, out);
    DropLeftSplits(s, out);
    var l :| Only(l, out) && s == l + t;
    DropRightSplits(t, out);
    var r :| Only(r, out) && t == DropRight(t, out) + r;
    assert s == l + Strip(s, out) + r;
    DropLeftIs(s, out);
    DropRightIs(t, out);
  }

  lemma {:induction false} DropLeftOver(l: string, x: string, out: char -> bool)
    requires Only(l, out)
    ensures DropLeft(l + x, out) == DropLeft(x, out)
  {
    if l == "" {
      assert l + x == x;
    } else {
      assert l[0] in l && (l + x)[1..] == l[1..] + x;
      DropLeftOver(l[1..], x, out);
    }
  }

  lemma {:induction false} DropRightOver(x: string, r: string, out: char -> bool)
    requires Only(r, out)
    ensures DropRight(x + r, out) == DropRight(x, out)
  {
    if r == "" {
      assert x + r == x;
    } else {
      var n := |r| - 1;
      assert r[n] in r && (x + r)[..|x + r| - 1] == x + r[..n];
      DropRightOver(x, r[..n], out);
    }
  }

  lemma {:induction false} StripOnly(l: string, t: string, r: string, out: char -> bool)
    requires Only(l, out) && Only(r, out) && (t == "" || (!out(t[0]) && !out(t[|t| - 1])))
    ensures Strip(l + t + r, out) == t
  {
    hide DropLeft, DropRight, Only;
    assert l + t + r == l + (t + r);
    DropLeftOver(l, t + r, out);
    if t == "" {
      assert t + r == r + "";
      DropLeftOver(r, "", out);
      NothingToDrop(out);
    } else {
      DropLeftIs(t + r, out);
      DropRightOver(t, r, out);
      DropRightIs(t, out);
    }
  }

  lemma {:induction false} NothingToDrop(out: char -> bool)
    ensures DropLeft("", out) == "" && DropRight("", out) == ""
  {
  }

  const WHITE := " \t\n\r"

  ghost predicate AllWhite(s: string) {
    forall c :: c in s ==> c in WHITE
  }

  /** A trimmed text is what stands between runs of spaces, tabs and line ends, with neither at its own ends. */
  lemma {:induction false} TrimExactly(s: string, t: string)
    ensures t == Trim(s) <==>
      && (exists l, r :: AllWhite(l) && AllWhite(r) && s == l + t + r)
      && (t == "" || (t[0] !in WHITE && t[|t| - 1] !in WHITE))
  {
    hide Strip;
    WhiteIsBlank();
    StripSplits(s, Blank);
    if t == Trim(s) {
      var l, r :| Only(l, Blank) && Only(r, Blank) && s == l + Strip(s, Blank) + r;
      assert AllWhite(l) && AllWhite(r);
    }
    if l, r :| AllWhite(l) && AllWhite(r) && s == l + t + r {
      if t == "" || (t[0] !in WHITE && t[|t| - 1] !in WHITE) { StripOnly(l, t, r, Blank); }
    }
  }

  ghost predicate AllSemicolons(s: string) {
    forall c :: c in s ==> c == ';'
  }

  /** The same for semicolons. */
  lemma {:induction false} SemicolonsExactly(s: string, t: string)
    ensures t == TrimSemicolons(s) <==>
      && (exists l, r :: AllSemicolons(l) && AllSemicolons(r) && s == l + t + r)
      && (t == "" || (t[0] != ';' && t[|t| - 1] != ';'))
  {
    hide Strip;
    StripSplits(s, c => c == ';');
    if t == TrimSemicolons(s) {
      var l, r :| Only(l, c => c == ';') && Only(r, c => c == ';') && s == l + Strip(s, c => c == ';') + r;
      assert AllSemicolons(l) && AllSemicolons(r);
    }
    if l, r :| AllSemicolons(l) && AllSemicolons(r) && s == l + t + r {
      if t == "" || (t[0] != ';' && t[|t| - 1] != ';') { StripOnly(l, t, r, c => c == ';'); }
    }
  }

  /** Exactly the semicolons become percent signs. */
  lemma {:induction false} ReplacedExactly(s: string, t: string)
    ensures t == Replaced(s) <==> |t| == |s| && forall i :: 0 <= i < |s| ==> t[i] == if s[i] == ';' then '%' else s[i]
  {
  }

  lemma {:induction false} WhiteIsBlank()
    ensures forall c :: c in WHITE <==> Blank(c)
  {
  }

  lemma {:induction false} TakenSettled(x: Setting)
    requires Settled(x)
    ensures Taken(x.name, x.value) ==
      if Trim(x.name) == "" || Trim(x.value) == "" then [] else [Setting(Trim(x.name), Trim(x.value))]
  {
    hide Strip;
    var n, v := Trim(x.name), Trim(x.value);
    StripIs(x.name, Blank);
    StripIs(x.value, Blank);
    StripIs(n, c => c == ';');
    StripIs(v, c => c == ';');
    NothingReplaced(n);
    NothingReplaced(v);
  }

  lemma {:induction false} NothingReplaced(s: string)
    requires ';' !in s
    ensures Replaced(s) == s
  {
    forall i | 0 <= i < |s|
      ensures Replaced(s)[i] == s[i]
    {
      assert s[i] in s;
    }
  }

  lemma {:induction false} FirstAt(s: string, c: char, rest: string)
    requires c !in s
    ensures IndexOf(s, c) == |s|
    ensures IndexOf(s + [c] + rest, c) == |s|
  {
    hide IndexOf;
    var t := s + [c] + rest;
    assert t[|s|] == c;
    forall j | 0 <= j < |s|
      ensures t[j] != c && s[j] != c
    {
      assert s[j] in s;
    }
  }

  lemma {:induction false} ScanName(name: string, s: string)
    requires ' ' !in name
    ensures Scan(name + [' '] + s) == ScanValue(name, s)
  {
    hide ScanValue, IndexOf;
    var t := name + [' '] + s;
    FirstAt(name, ' ', s);
    assert t[..|name|] == name && t[|name| + 1..] == s;
  }

  lemma {:induction false} ScanLast(name: string, value: string)
    requires ';' !in value
    ensures ScanValue(name, value) == if value == "" then [] else Taken(name, value)
  {
    hide Taken, IndexOf;
    FirstAt(value, ';', "");
    assert value[..|value|] == value;
  }

  lemma {:induction false} ScanNext(name: string, value: string, rest: string)
    requires ';' !in value
    ensures ScanValue(name, value + [';'] + rest) == Taken(name, value) + Scan(rest)
  {
    hide Taken, IndexOf, Scan;
    var t := value + [';'] + rest;
    FirstAt(value, ';', rest);
    assert t[..|value|] == value && t[|value| + 1..] == rest;
  }

  /** Scanning the printed text gives the settings back, trimmed, without the empty ones. */
  lemma {:induction false} ScanPrint(l: seq<Setting>)
    requires AllSettled(l)
    ensures Scan(Print(l)) == Trimmed(l)
  {
    hide Taken, IndexOf, Trim, Scan, ScanValue, Print;
    if l == [] {
      ScanNothing();
    } else {
      var x, r := l[0], l[1..];
      ScanPrint(r);
      PrintCons(x, r);
      assert l == [x] + r;
      TakenSettled(x);
      EmptyValue(x);
      if r == [] {
        assert Print(l) == x.name + [' '] + x.value;
        ScanName(x.name, x.value);
        ScanLast(x.name, x.value);
      } else {
        assert Print(l) == x.name + [' '] + (x.value + [';'] + Print(r));
        ScanName(x.name, x.value + [';'] + Print(r));
        ScanNext(x.name, x.value, Print(r));
      }
    }
  }

  lemma {:induction false} ScanNothing()
    ensures Scan(Print([])) == []
  {
  }

  lemma {:induction false} EmptyValue(x: Setting)
    ensures x.value == "" ==> Trim(x.value) == ""
  {
  }

  /** Names and values are not empty and have no blank ends. */
  predicate Sturdy(l: seq<Setting>) {
    forall i :: 0 <= i < |l| ==> SturdyOne(l[i])
  }

  predicate SturdyOne(x: Setting) {
    x.name != "" && Trim(x.name) == x.name && x.value != "" && Trim(x.value) == x.value
  }

  lemma {:induction false} TrimmedExactly(l: seq<Setting>)
    ensures Trimmed(l) == l <==> Sturdy(l)
  {
    hide Trim;
    if l != [] {
      TrimmedExactly(l[1..]);
      assert l == [l[0]] + l[1..];
      var n, v := Trim(l[0].name), Trim(l[0].value);
      if n != "" && v != "" {
        assert Trimmed(l)[0] == Setting(n, v) && Trimmed(l)[1..] == Trimmed(l[1..]);
      } else {
        assert |Trimmed(l)| < |l|;
      }
      SturdyCons(l);
    }
  }

  lemma {:induction false} SturdyCons(l: seq<Setting>)
    requires l != []
    ensures Sturdy(l) <==> SturdyOne(l[0]) && Sturdy(l[1..])
  {
    hide SturdyOne;
    forall i | 1 <= i < |l|
      ensures l[i] == l[1..][i - 1]
    {
    }
  }

  lemma {:induction false} TakenIsSettled(name: string, value: string)
    requires ' ' !in name
    ensures AllSettled(Taken(name, value))
  {
    hide Strip;
    StripIs(name, Blank);
    StripIs(Trim(name), c => c == ';');
    NoSemicolons(TrimSemicolons(Trim(name)));
    NoSemicolons(TrimSemicolons(Trim(value)));
  }

  lemma {:induction false} NoSemicolons(s: string)
    ensures ';' !in Replaced(s) && (' ' !in s ==> ' ' !in Replaced(s))
  {
    forall i | 0 <= i < |s|
      ensures Replaced(s)[i] != ';' && (Replaced(s)[i] == ' ' ==> s[i] == ' ')
    {
    }
  }

  lemma {:induction false} ScanIsSettled(s: string)
    ensures AllSettled(Scan(s))
    decreases |s|, 1
  {
    hide IndexOf;
    var i := IndexOf(s, ' ');
    if i < |s| { ScanValueIsSettled(s[..i], s[i + 1..]); }
  }

  lemma {:induction false} ScanValueIsSettled(name: string, s: string)
    requires ' ' !in name
    ensures AllSettled(ScanValue(name, s))
    decreases |s|, 0
  {
    hide IndexOf, Taken;
    if s != "" {
      var i := IndexOf(s, ';');
      TakenIsSettled(name, s[..i]);
      if i < |s| { ScanIsSettled(s[i + 1..]); }
    }
  }

  /**
   Of all lists, the same pairs come back exactly for the sturdy ones whose names hold no
   space or semicolon and whose values hold no semicolon.
   */
  lemma {:induction false} RoundTripExactly(l: seq<Setting>)
    ensures Scan(Print(l)) == l <==> Sturdy(l) && AllSettled(l)
  {
    hide Scan, Print, Sturdy, Settled, Trimmed;
    ScanIsSettled(Print(l));
    if AllSettled(l) {
      ScanPrint(l);
      TrimmedExactly(l);
    }
  }

  // ---------- any text ----------

  /** A name as the scanner cuts it, up to a space, and a value, up to a semicolon. */
  predicate Cut(x: Setting) {
    ' ' !in x.name && ';' !in x.value
  }

  ghost predicate AllCut(ps: seq<Setting>) {
    forall i :: 0 <= i < |ps| ==> Cut(ps[i])
  }

  function Pieces(ps: seq<Setting>): string {
    if ps == [] then "" else ps[0].name + " " + ps[0].value + ";" + Pieces(ps[1..])
  }

  /** What becomes of the pieces. */
  function TakenFrom(ps: seq<Setting>): seq<Setting> {
    if ps == [] then [] else Taken(ps[0].name, ps[0].value) + TakenFrom(ps[1..])
  }

  /** What is behind the last complete piece: at most a name, or a last name and value. */
  ghost predicate Tail(t: string, x: Setting) {
    Cut(x) && (t == x.name + " " + x.value || (' ' !in t && x == Setting("", "")))
  }

  lemma {:induction false} ScanPieces(ps: seq<Setting>, t: string)
    requires AllCut(ps)
    ensures Scan(Pieces(ps) + t) == TakenFrom(ps) + Scan(t)
  {
    hide Scan, ScanValue, Taken;
    if ps == [] {
      assert Pieces(ps) + t == t;
    } else {
      var x, rest := ps[0], Pieces(ps[1..]) + t;
      ScanPieces(ps[1..], t);
      assert Pieces(ps) + t == x.name + [' '] + (x.value + [';'] + rest);
      ScanName(x.name, x.value + [';'] + rest);
      ScanNext(x.name, x.value, rest);
    }
  }

  lemma {:induction false} ScanTail(t: string, x: Setting)
    requires Tail(t, x)
    ensures Scan(t) == Taken(x.name, x.value)
  {
    hide ScanValue, Taken, IndexOf;
    NothingTaken(x.name);
    if t == x.name + " " + x.value {
      ScanName(x.name, x.value);
      ScanLast(x.name, x.value);
    } else {
      FirstAt(t, ' ', "");
    }
  }

  lemma {:induction false} NothingTaken(name: string)
    ensures Taken(name, "") == []
  {
    StripIs("", Blank);
  }

  lemma {:induction false} PieceInFront(x: Setting, ps: seq<Setting>, t: string)
    requires Cut(x) && AllCut(ps)
    ensures AllCut([x] + ps) && Pieces([x] + ps) + t == x.name + " " + x.value + ";" + (Pieces(ps) + t)
  {
    hide Cut;
    assert ([x] + ps)[1..] == ps;
  }

  lemma {:induction false} NoPieces(s: string)
    ensures AllCut([]) && Pieces([]) + s == s
  {
  }

  lemma {:induction false} SplitAt(s: string, c: char)
    ensures var i := IndexOf(s, c);
      c !in s[..i] && if i < |s| then s == s[..i] + [c] + s[i + 1..] else s[..i] == s
  {
    hide IndexOf;
  }

  ghost predicate CutsInto(s: string, ps: seq<Setting>, t: string, x: Setting) {
    AllCut(ps) && Tail(t, x) && s == Pieces(ps) + t
  }

  lemma {:induction false} OnlyTail(s: string, x: Setting)
    requires Tail(s, x)
    ensures CutsInto(s, [], s, x)
  {
    hide Tail;
    NoPieces(s);
  }

  lemma {:induction false} PieceBefore(x: Setting, rest: string, ps: seq<Setting>, t: string, y: Setting)
    requires Cut(x) && CutsInto(rest, ps, t, y)
    ensures CutsInto(x.name + " " + x.value + ";" + rest, [x] + ps, t, y)
  {
    hide Tail, Cut, AllCut, Pieces;
    PieceInFront(x, ps, t);
  }

  lemma {:induction false} EveryTextCuts(s: string)
    ensures exists ps, t, x :: CutsInto(s, ps, t, x)
    decreases |s|
  {
    hide CutsInto, IndexOf;
    SplitAt(s, ' ');
    var i := IndexOf(s, ' ');
    if i == |s| {
      OnlyTail(s, Setting("", ""));
    } else {
      var v := s[i + 1..];
      SplitAt(v, ';');
      var j := IndexOf(v, ';');
      var x := Setting(s[..i], v[..j]);
      if j == |v| {
        OnlyTail(s, x);
      } else {
        EveryTextCuts(v[j + 1..]);
        var ps, t, y :| CutsInto(v[j + 1..], ps, t, y);
        PieceBefore(x, v[j + 1..], ps, t, y);
        assert s == x.name + " " + x.value + ";" + v[j + 1..];
      }
    }
  }

  /** Any text is cut into pieces in just one way of reading, and gives what its pieces give. */
  lemma {:induction false} ScanExactly(s: string)
    ensures exists ps, t, x :: CutsInto(s, ps, t, x)
    ensures forall ps, t, x :: CutsInto(s, ps, t, x) ==> Scan(s) == TakenFrom(ps) + Taken(x.name, x.value)
  {
    hide Scan, Taken, Tail, AllCut, Pieces;
    EveryTextCuts(s);
    forall ps, t, x | CutsInto(s, ps, t, x)
      ensures Scan(s) == TakenFrom(ps) + Taken(x.name, x.value)
    {
      ScanPieces(ps, t);
      ScanTail(t, x);
    }
  }
}
