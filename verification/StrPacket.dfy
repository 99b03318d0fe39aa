/** The packet of string reports: what is packed, and what the server's loop reads back. */
module StrPacket {
  import opened Basics
  import opened DayBytes

  /** sizeof(StrAttrNodeClient) and MAX_ATTR_PKG_LENGTH. */
  const HEADER := 12
  const MAX_PACKET := 1200

  /** A C string: bytes without a NUL. */
  type CString = s: seq<Byte> | forall i :: 0 <= i < |s| ==> s[i] != 0 witness []

  /** One reported string, and one attribute of the request. */
  datatype Item = Item(str: CString, number: int)

  datatype Attr = Attr(id: int, known: bool, items: seq<Item>)

  datatype Entry = Entry(id: Uint32, str: CString, val: Uint32)

  // ---------- what is to be sent ----------

  predicate ValidItem(x: Item) {
    x.str != [] && 0 < x.number < TWO31
  }

  function ItemEntries(id: int, items: seq<Item>): seq<Entry> {
    if items == [] then []
    else
      var x := items[|items| - 1];
      var es := ItemEntries(id, items[..|items| - 1]);
      if ValidItem(x) then es + [Entry(id % TWO32, x.str, x.number)] else es
  }

  /** The valid entries of a request, in order. */
  function Entries(attrs: seq<Attr>): seq<Entry> {
    if attrs == [] then []
    else
      var a := attrs[|attrs| - 1];
      Entries(attrs[..|attrs| - 1]) + if a.known then ItemEntries(a.id, a.items) else []
  }

  /** How many items have a string and a positive number. */
  function Counted(items: seq<Item>): nat {
    if items == [] then 0
    else
      var x := items[|items| - 1];
      Counted(items[..|items| - 1]) + if |x.str| > 0 && 1 <= x.number <= TWO31 - 1 then 1 else 0
  }

  function CountedAll(attrs: seq<Attr>): nat {
    if attrs == [] then 0
    else
      var a := attrs[|attrs| - 1];
      CountedAll(attrs[..|attrs| - 1]) + if a.known then Counted(a.items) else 0
  }

  lemma {:induction false} ItemPlace(id: int, items: seq<Item>, k: nat)
    requires k < |items| && |items[k].str| > 0 && 1 <= items[k].number <= TWO31 - 1
    ensures var p := Counted(items[..k]);
      p < |ItemEntries(id, items)| && ItemEntries(id, items)[p] == Entry(id % TWO32, items[k].str, items[k].number)
    decreases |items|
  {
    var g := items[..|items| - 1];
    ItemCount(id, g);
    if k < |g| {
      assert g[..k] == items[..k];
      ItemPlace(id, g, k);
    }
  }

  lemma {:induction false} ItemCount(id: int, items: seq<Item>)
    ensures |ItemEntries(id, items)| == Counted(items)
  {
    if items != [] { ItemCount(id, items[..|items| - 1]); }
  }

  lemma {:induction false} EntryCount(attrs: seq<Attr>)
    ensures |Entries(attrs)| == CountedAll(attrs)
  {
    if attrs != [] {
      EntryCount(attrs[..|attrs| - 1]);
      ItemCount(attrs[|attrs| - 1].id, attrs[|attrs| - 1].items);
    }
  }

  /**
   To be sent are exactly the items with a string and a positive number of known attributes:
   each stands behind those before it in the request, and there are no others.
   */
  lemma {:induction false} EntryPlace(attrs: seq<Attr>, i: nat, k: nat)
    requires i < |attrs| && attrs[i].known && k < |attrs[i].items|
    requires var x := attrs[i].items[k]; |x.str| > 0 && 1 <= x.number <= TWO31 - 1
    ensures |Entries(attrs)| == CountedAll(attrs)
    ensures var a := attrs[i];
      var p := CountedAll(attrs[..i]) + Counted(a.items[..k]);
      p < |Entries(attrs)| && Entries(attrs)[p] == Entry(a.id % TWO32, a.items[k].str, a.items[k].number)
    decreases |attrs|
  {
    hide ItemEntries, Counted;
    var g := attrs[..|attrs| - 1];
    EntryCount(attrs);
    EntryCount(g);
    if i < |g| {
      assert g[..i] == attrs[..i];
      EntryPlace(g, i, k);
    } else {
      ItemPlace(attrs[i].id, attrs[i].items, k);
    }
  }

  function Length(e: Entry): nat {
    HEADER + |e.str| + 1
  }

  /** Up to the first entry that does not leave a byte free. */
  function Fitting(es: seq<Entry>, used: nat): seq<Entry> {
    if es == [] || Length(es[0]) + used >= MAX_PACKET then []
    else [es[0]] + Fitting(es[1..], used + Length(es[0]))
  }

  // ---------- bytes ----------

  function Word(x: Uint32): (b: seq<Byte>)
    ensures |b| == 4
  {
    Le32(Htonl(x))
  }

  function Encoded(e: Entry): (b: seq<Byte>)
    requires |e.str| < MAX_PACKET
    ensures |b| == Length(e)
  {
    Word(e.id) + Word(e.val) + Word(|e.str| + 1) + e.str + [0]
  }

  /** Every string is short enough for a packet. */
  predicate Short(es: seq<Entry>) {
    forall i :: 0 <= i < |es| ==> |es[i].str| < MAX_PACKET
  }

  function EncodeAll(es: seq<Entry>): (b: seq<Byte>)
    requires Short(es)
  {
    if es == [] then [] else Encoded(es[0]) + EncodeAll(es[1..])
  }

  /** The C string that starts at an index, if its NUL is in the buffer. */
  function StringAt(buf: seq<Byte>, at: nat): (r: Option<CString>)
    requires at <= |buf|
    decreases |buf| - at
  {
    if at == |buf| then None
    else if buf[at] == 0 then Some([])
    else
      match StringAt(buf, at + 1)
      case None => None
      case Some(s) => Some([buf[at]] + s)
  }

  function NetWord(buf: seq<Byte>, at: nat): Uint32
    requires at + 4 <= |buf|
  {
    Htonl(Load32(buf, at))
  }

  datatype Failure = Invalid | OutOfModel

  datatype Parsed = Parsed(entries: seq<Entry>, end: nat) | Failed(failure: Failure)

  /**
   The server's loop from a read position. A length that leads out of the content, at either end, is
   an error reply. Two cases are not followed any further: another negative length, with which the
   server goes on inside what it has read and already byte-swapped, and a string that runs out of
   the content.
   */
  function ParseFrom(buf: seq<Byte>, at: nat): Parsed
    requires at <= |buf|
    decreases |buf| - at
  {
    if |buf| < at + HEADER then Parsed([], at)
    else
      var len := ToInt32(NetWord(buf, at + 8));
      if !(0 <= at + HEADER + len <= |buf|) then Failed(Invalid)
      else if len < 0 then Failed(OutOfModel)
      else
        match StringAt(buf, at + HEADER)
        case None => Failed(OutOfModel)
        case Some(s) =>
          match ParseFrom(buf, at + HEADER + len)
          case Failed(f) => Failed(f)
          case Parsed(es, end) => Parsed([Entry(NetWord(buf, at), s, NetWord(buf, at + 4))] + es, end)
  }

  // ---------- what fits is sent ----------

  function Size(es: seq<Entry>): nat {
    if es == [] then 0 else Length(es[0]) + Size(es[1..])
  }

  lemma {:induction false} FittingIsShort(es: seq<Entry>, used: nat)
    ensures Short(Fitting(es, used)) && Fitting(es, used) <= es
    ensures used < MAX_PACKET ==> used + Size(Fitting(es, used)) < MAX_PACKET
    ensures var n := |Fitting(es, used)|;
      n < |es| ==> used + Size(Fitting(es, used)) + HEADER + |es[n].str| + 1 >= MAX_PACKET
  {
    if es != [] && Length(es[0]) + used < MAX_PACKET {
      FittingIsShort(es[1..], used + Length(es[0]));
      assert es == [es[0]] + es[1..];
      assert Fitting(es, used)[1..] == Fitting(es[1..], used + Length(es[0]));
    }
  }

  lemma {:induction false} EncodedSize(es: seq<Entry>)
    requires Short(es)
    ensures |EncodeAll(es)| == Size(es)
  {
    if es != [] { EncodedSize(es[1..]); }
  }

  lemma {:induction false} EncodeAppend(es: seq<Entry>, e: Entry)
    requires Short(es) && |e.str| < MAX_PACKET
    ensures EncodeAll(es + [e]) == EncodeAll(es) + Encoded(e)
    ensures Size(es + [e]) == Size(es) + Length(e)
  {
    hide Encoded;
    if es == [] {
      assert [e][1..] == [] && es + [e] == [e];
    } else {
      EncodeAppend(es[1..], e);
      assert (es + [e])[1..] == es[1..] + [e];
    }
  }

  lemma {:induction false} FittingCons(e: Entry, es: seq<Entry>, used: nat)
    ensures Fitting([e] + es, used) ==
      if Length(e) + used >= MAX_PACKET then [] else [e] + Fitting(es, used + Length(e))
  {
    assert ([e] + es)[1..] == es;
  }

  /** Once everything so far fits, what follows decides. */
  lemma {:induction false} FittingAppend(es: seq<Entry>, fs: seq<Entry>, used: nat)
    requires Fitting(es, used) == es
    ensures Fitting(es + fs, used) == es + Fitting(fs, used + Size(es))
  {
    hide Fitting, Length;
    if es == [] {
      assert es + fs == fs;
    } else {
      var e, r := es[0], es[1..];
      assert es == [e] + r && es + fs == [e] + (r + fs);
      FittingCons(e, r, used);
      FittingCons(e, r + fs, used);
      assert Fitting(r, used + Length(e)) == r by {
        assert ([e] + Fitting(r, used + Length(e)))[1..] == Fitting(r, used + Length(e));
      }
      FittingAppend(r, fs, used + Length(e));
    }
  }

  // ---------- round trip ----------

  lemma {:induction false} StringEnds(pre: seq<Byte>, s: CString, post: seq<Byte>)
    ensures StringAt(pre + s + [0] + post, |pre|) == Some(s)
    decreases |s|
  {
    var buf := pre + s + [0] + post;
    if s == [] {
      assert buf[|pre|] == 0;
    } else {
      var t: CString := s[1..];
      assert buf == (pre + [s[0]]) + t + [0] + post;
      StringEnds(pre + [s[0]], t, post);
      assert buf[|pre|] == s[0] && s == [s[0]] + t;
    }
  }

  lemma {:induction false} WordAt(pre: seq<Byte>, x: Uint32, post: seq<Byte>)
    ensures NetWord(pre + Word(x) + post, |pre|) == x
  {
    var w := Le32(Htonl(x));
    var buf := pre + w + post;
    assert buf[|pre|] == w[0] && buf[|pre| + 1] == w[1] && buf[|pre| + 2] == w[2] && buf[|pre| + 3] == w[3];
    NetworkOrder32(x);
  }

  lemma {:induction false} HeaderAt(pre: seq<Byte>, e: Entry, post: seq<Byte>)
    requires |e.str| < MAX_PACKET
    ensures var buf := pre + Encoded(e) + post;
      && NetWord(buf, |pre|) == e.id && NetWord(buf, |pre| + 4) == e.val
      && NetWord(buf, |pre| + 8) == |e.str| + 1
      && StringAt(buf, |pre| + HEADER) == Some(e.str)
  {
    hide NetWord, Word, StringAt;
    var buf := pre + Encoded(e) + post;
    var a, b, c := Word(e.id), Word(e.val), Word(|e.str| + 1);
    WordAt(pre, e.id, b + c + e.str + [0] + post);
    assert buf == pre + a + (b + c + e.str + [0] + post);
    WordAt(pre + a, e.val, c + e.str + [0] + post);
    assert buf == (pre + a) + b + (c + e.str + [0] + post);
    WordAt(pre + a + b, |e.str| + 1, e.str + [0] + post);
    assert buf == (pre + a + b) + c + (e.str + [0] + post);
    StringEnds(pre + a + b + c, e.str, post);
    assert buf == (pre + a + b + c) + e.str + [0] + post;
  }

  /** The loop reads back the packed entries and stops behind the last byte. */
  lemma {:induction false} ParsePacked(pre: seq<Byte>, es: seq<Entry>)
    requires Short(es)
    ensures ParseFrom(pre + EncodeAll(es), |pre|) == Parsed(es, |pre| + |EncodeAll(es)|)
    decreases |es|
  {
    hide NetWord, Encoded, StringAt;
    if es != [] {
      var e, rest := es[0], EncodeAll(es[1..]);
      var buf := pre + EncodeAll(es);
      assert buf == pre + Encoded(e) + rest;
      HeaderAt(pre, e, rest);
      ParsePacked(pre + Encoded(e), es[1..]);
      assert es == [e] + es[1..];
    } else {
      assert pre + EncodeAll(es) == pre;
    }
  }

  /** From the request to the server: the valid entries up to the first that did not fit, and every byte is read. */
  lemma {:induction false} RoundTrip(attrs: seq<Attr>)
    ensures Short(Fitting(Entries(attrs), 0)) && Fitting(Entries(attrs), 0) <= Entries(attrs)
    ensures var buf := EncodeAll(Fitting(Entries(attrs), 0));
      |buf| < MAX_PACKET && ParseFrom(buf, 0) == Parsed(Fitting(Entries(attrs), 0), |buf|)
  {
    hide Entries, Fitting, EncodeAll, ParseFrom, Size;
    var es := Fitting(Entries(attrs), 0);
    FittingIsShort(Entries(attrs), 0);
    EncodedSize(es);
    ParsePacked([], es);
    assert [] + EncodeAll(es) == EncodeAll(es);
  }
}
