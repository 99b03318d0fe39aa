/** The scanner of the settings text, which cuts up its own buffer, and the printer. */
module CfgScan {
  import opened Basics
  import opened CfgText

  // ---------- C strings in a buffer ----------

  /** A C string from s on, with its NUL at e. */
  ghost predicate CStr(a: seq<char>, s: int, e: int) {
    0 <= s <= e < |a| && a[e] == '\0' && forall k :: s <= k < e ==> a[k] != '\0'
  }

  lemma {:induction false} LeftStep(a: seq<char>, s: nat, e: nat, out: char -> bool)
    requires s < e <= |a|
    ensures DropLeft(a[s..e], out) == if out(a[s]) then DropLeft(a[s + 1..e], out) else a[s..e]
  {
    assert a[s..e][1..] == a[s + 1..e];
  }

  lemma {:induction false} RightStep(a: seq<char>, s: nat, e: nat, out: char -> bool)
    requires s < e <= |a|
    ensures DropRight(a[s..e], out) == if out(a[e - 1]) then DropRight(a[s..e - 1], out) else a[s..e]
  {
    assert a[s..e][..e - s - 1] == a[s..e - 1];
  }

  /** First and one behind the last kept character; what the four moving ends of Str_Trim find. */
  method FindEnds(a: array<char>, s: nat, ghost e: nat, out: char -> bool) returns (pb: int, pe: int)
    requires CStr(a[..], s, e) && s < e && !out('\0')
    ensures s <= pb <= e && s - 1 <= pe < e
    ensures if pb <= pe then a[pb..pe + 1] == Strip(a[s..e], out) else Strip(a[s..e], out) == ""
  {
    hide DropLeft, DropRight;
    pb := s;
    while out(a[pb])
      invariant s <= pb <= e && DropLeft(a[s..e], out) == DropLeft(a[pb..e], out)
      decreases e - pb
    {
      LeftStep(a[..], pb, e, out);
      pb := pb + 1;
    }
    assert DropLeft(a[pb..e], out) == a[pb..e] by { if pb < e { LeftStep(a[..], pb, e, out); } else { Nothing(out); } }
    pe := s;
    while a[pe] != '\0'
      invariant s <= pe <= e
      decreases e - pe
    {
      pe := pe + 1;
    }
    pe := pe - 1;
    while pe >= s && out(a[pe])
      invariant s - 1 <= pe < e && (pb < e ==> pb <= pe)
      invariant pb < e ==> DropRight(a[pb..e], out) == DropRight(a[pb..pe + 1], out)
    {
      if pb < e { RightStep(a[..], pb, pe + 1, out); }
      pe := pe - 1;
    }
    if pb < e { RightStep(a[..], pb, pe + 1, out); } else { Nothing(out); }
  }

  lemma {:induction false} Nothing(out: char -> bool)
    ensures DropLeft("", out) == "" && DropRight("", out) == ""
  {
  }

  /** Str_Trim and Str_Trim_Char: what is kept moves to the front, in place. */
  method StripInPlace(a: array<char>, s: nat, ghost e: nat, out: char -> bool) returns (ghost f: nat)
    requires CStr(a[..], s, e) && !out('\0')
    modifies a
    ensures s <= f <= e && CStr(a[..], s, f) && a[s..f] == Strip(old(a[s..e]), out)
    ensures a[..s] == old(a[..s]) && a[e..] == old(a[e..])
  {
    hide Strip;
    if a[s] == '\0' {
      assert s == e;
      NothingToStrip(out);
      return s;
    }
    var pb, pe := FindEnds(a, s, e, out);
    f := MoveDown(a, s, pb, pe);
  }

  /** Copies the characters pb to pe down to s and ends them with a NUL. */
  method MoveDown(a: array<char>, s: nat, pb: nat, pe: int) returns (f: nat)
    requires s <= pb < a.Length && s - 1 <= pe < a.Length - 1
    requires forall k :: pb <= k <= pe ==> a[k] != '\0'
    modifies a
    ensures f == s + (if pb <= pe then pe + 1 - pb else 0) && CStr(a[..], s, f)
    ensures a[s..f] == if pb <= pe then old(a[pb..pe + 1]) else ""
    ensures forall k :: 0 <= k < s || f < k < a.Length ==> a[k] == old(a[k])
  {
    ghost var was := a[..];
    var ps, pd := pb, s;
    while ps <= pe
      invariant pb <= ps && pd == s + (ps - pb) && (pb <= pe ==> ps <= pe + 1) && (pb > pe ==> ps == pb)
      invariant forall k :: 0 <= k < s || pd <= k < a.Length ==> a[k] == was[k]
      invariant forall k :: s <= k < pd ==> a[k] == was[k - s + pb]
    {
      a[pd] := a[ps];
      ps := ps + 1;
      pd := pd + 1;
    }
    a[pd] := '\0';
    f := pd;
    assert a[s..f] == was[pb..ps];
  }

  lemma {:induction false} NothingToStrip(out: char -> bool)
    ensures Strip("", out) == ""
  {
  }

  /** ReplaceAllChar of ';' by '%'. */
  method ReplaceInPlace(a: array<char>, s: nat, ghost e: nat)
    requires CStr(a[..], s, e)
    modifies a
    ensures CStr(a[..], s, e) && a[s..e] == Replaced(old(a[s..e]))
    ensures a[..s] == old(a[..s]) && a[e..] == old(a[e..])
  {
    ghost var was := a[..];
    assert forall k :: s <= k < e ==> was[s..e][k - s] == was[k];
    var i := s;
    while a[i] != '\0'
      invariant s <= i <= e
      invariant forall k :: 0 <= k < a.Length ==>
        a[k] == if s <= k < i && was[k] == ';' then '%' else was[k]
      decreases e - i
    {
      if a[i] == ';' {
        a[i] := '%';
      }
      i := i + 1;
    }
    assert i == e;
  }

  method ReadC(a: array<char>, s: nat, ghost e: nat) returns (t: string)
    requires CStr(a[..], s, e)
    ensures t == a[s..e]
  {
    t := "";
    var i := s;
    while a[i] != '\0'
      invariant s <= i <= e && t == a[s..i]
      decreases e - i
    {
      t := t + [a[i]];
      i := i + 1;
    }
    assert i == e;
  }

  /** Trims a C string in place both ways. */
  method TrimInPlace(a: array<char>, s: nat, ghost e: nat) returns (ghost f: nat)
    requires CStr(a[..], s, e)
    modifies a
    ensures s <= f <= e && CStr(a[..], s, f) && a[s..f] == TrimSemicolons(Trim(old(a[s..e])))
    ensures a[..s] == old(a[..s]) && a[e..] == old(a[e..])
  {
    hide Strip;
    f := StripInPlace(a, s, e, Blank);
    ghost var mid, was := f, a[..];
    assert a[mid..] == was[mid..];
    f := StripInPlace(a, s, mid, c => c == ';');
    assert a[e..] == a[mid..][e - mid..] == was[mid..][e - mid..] == was[e..];
  }

  lemma {:induction false} TailKept(a: seq<char>, b: seq<char>, e: nat, v: nat, w: nat)
    requires |a| == |b| && e <= v && e <= |a| && a[e..] == b[e..] && CStr(b, v, w)
    ensures CStr(a, v, w) && a[v..w] == b[v..w] && a[w..] == b[w..]
  {
    assert forall k :: e <= k < |a| ==> a[k] == a[e..][k - e] == b[e..][k - e] == b[k];
  }

  lemma {:induction false} HeadKept(a: seq<char>, b: seq<char>, v: nat, s: nat, f: nat)
    requires |a| == |b| && f < v <= |a| && a[..v] == b[..v] && CStr(b, s, f)
    ensures CStr(a, s, f) && a[s..f] == b[s..f]
  {
    assert forall k :: 0 <= k < v ==> a[k] == a[..v][k] == b[..v][k] == b[k];
  }

  /** One name and value cut out of the buffer: both are trimmed, and kept unless one is empty. */
  method Take(a: array<char>, s: nat, ghost e: nat, v: nat, ghost w: nat) returns (taken: seq<Setting>)
    requires CStr(a[..], s, e) && CStr(a[..], v, w) && e < v
    modifies a
    ensures taken == Taken(old(a[s..e]), old(a[v..w]))
    ensures a[w..] == old(a[w..])
  {
    hide Trim, TrimSemicolons, Replaced, CStr;
    CStrBounds(a[..], s, e);
    CStrBounds(a[..], v, w);
    ghost var a0 := a[..];
    ghost var f := TrimInPlace(a, s, e);
    TailKept(a[..], a0, e, v, w);
    ghost var a1 := a[..];
    ghost var x := TrimInPlace(a, v, w);
    HeadKept(a[..], a1, v, s, f);
    CStrBounds(a[..], s, f);
    CStrBounds(a[..], v, x);
    if a[s] == '\0' || a[v] == '\0' {
      return [];
    }
    ghost var a2 := a[..];
    ReplaceInPlace(a, s, f);
    TailKept(a[..], a2, f, v, x);
    SameTail(a2, a[..], f, w);
    var n := ReadC(a, s, f);
    ghost var a3 := a[..];
    ReplaceInPlace(a, v, x);
    SameTail(a3, a[..], x, w);
    var t := ReadC(a, v, x);
    return [Setting(n, t)];
  }

  lemma {:induction false} CStrBounds(a: seq<char>, s: int, e: int)
    requires CStr(a, s, e)
    ensures 0 <= s <= e < |a| && (a[s] == '\0' <==> s == e)
  {
  }

  lemma {:induction false} SameTail(a: seq<char>, b: seq<char>, e: nat, v: nat)
    requires e <= v <= |a| == |b| && a[e..] == b[e..]
    ensures a[v..] == b[v..]
  {
    assert a[v..] == a[e..][v - e..] && b[v..] == b[e..][v - e..];
  }

  /** strchr from an index; -1 for null. */
  method Find(a: array<char>, s: nat, ghost e: nat, c: char) returns (at: int)
    requires CStr(a[..], s, e) && c != '\0'
    ensures var i := IndexOf(a[s..e], c); at == if i < e - s then s + i else -1
  {
    hide IndexOf;
    at := s;
    while a[at] != '\0' && a[at] != c
      invariant s <= at <= e && c !in a[s..at]
      decreases e - at
    {
      at := at + 1;
    }
    assert a[s..e][..at - s] == a[s..at];
    if a[at] == '\0' {
      assert at == e && a[s..e] == a[s..at];
      return -1;
    }
    assert a[s..e][at - s] == c;
  }

  /** Where the scanner stands: between settings, behind a name, or at the end. */
  datatype Mode = AtName | AtValue | AtEnd

  /** What the rest of the buffer still yields. */
  ghost function Rest(mode: Mode, a: seq<char>, nameAt: int, nameEnd: int, ptmp: int, n: int): seq<Setting>
    requires 0 <= ptmp <= n < |a| && 0 <= nameAt <= nameEnd < |a|
  {
    match mode
    case AtName => Scan(a[ptmp..n])
    case AtValue => ScanValue(a[nameAt..nameEnd], a[ptmp..n])
    case AtEnd => []
  }

  lemma {:induction false} CutName(a: seq<char>, ptmp: nat, n: nat, at: nat)
    requires CStr(a, ptmp, n) && at == IndexOf(a[ptmp..n], ' ')
    ensures Scan(a[ptmp..n]) ==
      if at < n - ptmp then ScanValue(a[ptmp..ptmp + at], a[ptmp + at + 1..n]) else []
  {
    hide ScanValue, IndexOf;
    var t := a[ptmp..n];
    if at < n - ptmp { assert t[..at] == a[ptmp..ptmp + at] && t[at + 1..] == a[ptmp + at + 1..n]; }
  }

  lemma {:induction false} CutValue(name: string, a: seq<char>, ptmp: nat, n: nat, at: nat)
    requires CStr(a, ptmp, n) && ptmp < n && at == IndexOf(a[ptmp..n], ';')
    ensures ScanValue(name, a[ptmp..n]) ==
      Taken(name, a[ptmp..ptmp + at]) + if at < n - ptmp then Scan(a[ptmp + at + 1..n]) else []
  {
    hide Scan, IndexOf, Taken;
    var t := a[ptmp..n];
    assert t[..at] == a[ptmp..ptmp + at];
    if at < n - ptmp { assert t[at + 1..] == a[ptmp + at + 1..n]; }
  }

  lemma {:induction false} NothingLeft(name: string)
    ensures Scan("") == [] && ScanValue(name, "") == []
  {
  }

  /** The name stage: the space becomes a NUL; without one the text ends here. */
  method NameStage(a: array<char>, ptmp: nat, ghost n: nat) returns (mode: Mode, next: nat, ghost nameEnd: nat)
    requires CStr(a[..], ptmp, n) && ptmp < n
    modifies a
    ensures mode != AtName && a[n..] == old(a[n..])
    ensures mode == AtValue ==> ptmp <= nameEnd < next <= n && CStr(a[..], ptmp, nameEnd) && CStr(a[..], next, n)
    ensures mode == AtValue ==> ScanValue(a[ptmp..nameEnd], a[next..n]) == Scan(old(a[ptmp..n]))
    ensures mode == AtEnd ==> Scan(old(a[ptmp..n])) == [] && next == ptmp
  {
    hide IndexOf, Scan, ScanValue;
    var at := Find(a, ptmp, n, ' ');
    CutName(a[..], ptmp, n, IndexOf(a[ptmp..n], ' '));
    nameEnd := n;
    if at >= 0 {
      ghost var was := a[..];
      nameEnd := at;
      a[at] := '\0';
      mode, next := AtValue, at + 1;
      assert a[ptmp..nameEnd] == was[ptmp..at] && a[next..n] == was[at + 1..n];
    } else {
      a[ptmp] := '\0';
      mode, next := AtEnd, ptmp;
    }
  }

  /** The value stage: the semicolon becomes a NUL; without one this was the last value. */
  method ValueStage(a: array<char>, nameAt: nat, ghost nameEnd: nat, ptmp: nat, ghost n: nat)
      returns (mode: Mode, next: nat, taken: seq<Setting>)
    requires CStr(a[..], nameAt, nameEnd) && nameEnd < ptmp < n && CStr(a[..], ptmp, n)
    modifies a
    ensures mode != AtValue && ptmp <= next <= n
    ensures mode == AtName ==> ptmp < next && CStr(a[..], next, n)
    ensures mode == AtName ==> taken + Scan(a[next..n]) == ScanValue(old(a[nameAt..nameEnd]), old(a[ptmp..n]))
    ensures mode == AtEnd ==> taken == ScanValue(old(a[nameAt..nameEnd]), old(a[ptmp..n])) && next == ptmp
  {
    hide IndexOf, Scan, ScanValue, Taken;
    ghost var was := a[..];
    var at := Find(a, ptmp, n, ';');
    CutValue(was[nameAt..nameEnd], was, ptmp, n, IndexOf(was[ptmp..n], ';'));
    ghost var w := n;
    mode, next := AtEnd, ptmp;
    if at >= 0 {
      a[at] := '\0';
      w := at;
      mode, next := AtName, at + 1;
    }
    ghost var cut := a[..];
    assert cut[nameAt..nameEnd] == was[nameAt..nameEnd] && cut[ptmp..w] == was[ptmp..w];
    taken := Take(a, nameAt, nameEnd, ptmp, w);
    if at >= 0 {
      SameTail(cut, a[..], w, next);
      assert a[next..n] == a[next..][..n - next] == cut[next..][..n - next] == was[next..n];
      assert forall k :: next <= k < |cut| ==> a[k] == a[..][next..][k - next];
    } else {
      assert was[ptmp..n] == was[ptmp..w];
    }
  }

  /** The scanner of GetMachineInfoForPluginAttr. */
  method ScanList(a: array<char>, ghost n: nat) returns (list: seq<Setting>)
    requires CStr(a[..], 0, n)
    modifies a
    ensures list == Scan(old(a[..n]))
  {
    hide Scan, ScanValue;
    list := [];
    var ptmp, mode, nameAt := 0, AtName, 0;
    ghost var nameEnd := 0;
    assert a[0..n] == a[..n];
    while mode != AtEnd && a[ptmp] != '\0'
      invariant 0 <= ptmp <= n && 0 <= nameAt <= nameEnd < a.Length
      invariant mode != AtEnd ==> CStr(a[..], ptmp, n)
      invariant mode == AtValue ==> CStr(a[..], nameAt, nameEnd) && nameEnd < ptmp
      invariant Scan(old(a[..n])) == list + Rest(mode, a[..], nameAt, nameEnd, ptmp, n)
      decreases n - ptmp, mode != AtEnd
    {
      if mode == AtName {
        nameAt := ptmp;
        mode, ptmp, nameEnd := NameStage(a, ptmp, n);
        if mode == AtEnd { nameEnd := nameAt; }
      } else {
        var taken;
        mode, ptmp, taken := ValueStage(a, nameAt, nameEnd, ptmp, n);
        list := list + taken;
      }
    }
    if mode != AtEnd {
      assert a[ptmp..n] == "";
      NothingLeft(a[nameAt..nameEnd]);
    }
  }
}
