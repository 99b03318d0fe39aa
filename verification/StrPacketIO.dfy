/** Packing into the send buffer, and the server's reading loop. */
module StrPacketIO {
  import opened Basics
  import opened DayBytes
  import opened StrPacket

  lemma {:induction false} ItemsGrow(id: int, items: seq<Item>, j: nat)
    requires j < |items|
    ensures ItemEntries(id, items[..j + 1]) == ItemEntries(id, items[..j]) +
      if ValidItem(items[j]) then [Entry(id % TWO32, items[j].str, items[j].number)] else []
  {
    assert items[..j + 1][..j] == items[..j];
  }

  lemma {:induction false} ItemsPrefix(id: int, items: seq<Item>, j: nat)
    requires j <= |items|
    ensures ItemEntries(id, items[..j]) <= ItemEntries(id, items)
    decreases |items|
  {
    if j < |items| {
      ItemsPrefix(id, items[..|items| - 1], j);
      assert items[..|items| - 1][..j] == items[..j];
    } else {
      assert items[..j] == items;
    }
  }

  lemma {:induction false} EntriesGrow(attrs: seq<Attr>, i: nat)
    requires i < |attrs|
    ensures Entries(attrs[..i + 1]) == Entries(attrs[..i]) +
      if attrs[i].known then ItemEntries(attrs[i].id, attrs[i].items) else []
  {
    assert attrs[..i + 1][..i] == attrs[..i];
  }

  lemma {:induction false} EntriesPrefix(attrs: seq<Attr>, i: nat)
    requires i <= |attrs|
    ensures Entries(attrs[..i]) <= Entries(attrs)
    decreases |attrs|
  {
    if i < |attrs| {
      EntriesPrefix(attrs[..|attrs| - 1], i);
      assert attrs[..|attrs| - 1][..i] == attrs[..i];
    } else {
      assert attrs[..i] == attrs;
    }
  }

  /** What is in the buffer: entries that all fit, encoded. */
  ghost predicate Holds(buf: seq<Byte>, used: int, es: seq<Entry>)
    requires 0 <= used <= |buf|
  {
    Fitting(es, 0) == es && Short(es) && buf[..used] == EncodeAll(es) && used == Size(es)
  }

  /** The first entry that does not fit ends the packet. */
  lemma {:induction false} StopsAt(buf: seq<Byte>, used: int, es: seq<Entry>, e: Entry, all: seq<Entry>)
    requires 0 <= used <= |buf| && Holds(buf, used, es) && Length(e) + used >= MAX_PACKET && es + [e] <= all
    ensures Fitting(all, 0) == es
  {
    hide EncodeAll, Length;
    var rest := all[|es| + 1..];
    assert all == es + ([e] + rest);
    FittingAppend(es, [e] + rest, 0);
    assert ([e] + rest)[0] == e;
  }

  lemma {:induction false} NothingHeld(buf: seq<Byte>)
    ensures Holds(buf, 0, [])
  {
  }

  lemma {:induction false} OneMore(was: seq<Byte>, buf: seq<Byte>, used: int, es: seq<Entry>, e: Entry)
    requires 0 <= used <= |was| && Holds(was, used, es) && Length(e) + used < MAX_PACKET
    requires used + Length(e) <= |buf| && buf[..used] == was[..used] && buf[used..used + Length(e)] == Encoded(e)
    ensures Holds(buf, used + Length(e), es + [e])
  {
    hide Encoded;
    EncodeAppend(es, e);
    FittingAppend(es, [e], 0);
    assert Fitting([e], used) == [e] by { assert [e][1..] == []; }
    assert buf[..used + Length(e)] == buf[..used] + buf[used..used + Length(e)];
  }

  class SendBuffer {
    const buf: array<Byte>  // strAttrSendBuf
    var used: int           // iUseBufLen

    ghost predicate Valid()
      reads this
    {
      buf.Length == MAX_PACKET && 0 <= used <= buf.Length
    }

    constructor ()
      ensures Valid() && used == 0 && fresh(buf)
    {
      buf := new Byte[MAX_PACKET](_ => 0);
      used := 0;
    }

    /** One header and string behind the others. */
    method Put(e: Entry, ghost es: seq<Entry>)
      requires Valid() && Holds(buf[..], used, es) && Length(e) + used < MAX_PACKET
      modifies this, buf
      ensures Valid() && Holds(buf[..], used, es + [e])
    {
      hide Holds, Encoded;
      ghost var was := buf[..];
      var b := Encoded(e);
      forall k | 0 <= k < |b| {
        buf[used + k] := b[k];
      }
      assert buf[used..used + |b|] == b && buf[..used] == was[..used];
      OneMore(was, buf[..], used, es, e);
      used := used + |b|;
    }

    /** The inner loop; ok is false when an entry did not fit. */
    method PackItems(a: Attr, ghost es: seq<Entry>) returns (ok: bool, ghost fs: seq<Entry>)
      requires Valid() && Holds(buf[..], used, es)
      modifies this, buf
      ensures Valid() && Holds(buf[..], used, es + fs)
      ensures ok ==> fs == ItemEntries(a.id, a.items)
      ensures !ok ==> exists e :: Length(e) + used >= MAX_PACKET && fs + [e] <= ItemEntries(a.id, a.items)
    {
      hide Holds, ItemEntries, Length;
      fs := [];
      var j := 0;
      assert es + fs == es;
      assert fs == ItemEntries(a.id, a.items[..0]) by { NoItems(a); }
      while j < |a.items|
        invariant 0 <= j <= |a.items| && Valid() && fs == ItemEntries(a.id, a.items[..j])
        invariant Holds(buf[..], used, es + fs)
      {
        ItemsGrow(a.id, a.items, j);
        var x := a.items[j];
        if ValidItem(x) {
          var e := Entry(a.id % TWO32, x.str, x.number);
          if Length(e) + used >= MAX_PACKET {
            ItemsPrefix(a.id, a.items, j + 1);
            return false, fs;
          }
          Put(e, es + fs);
          assert es + (fs + [e]) == (es + fs) + [e];
          fs := fs + [e];
        }
        j := j + 1;
      }
      assert a.items[..j] == a.items;
      return true, fs;
    }

    /** The string part of DealReport: the packet of the entries that fit. */
    method Pack(attrs: seq<Attr>)
      requires Valid()
      modifies this, buf
      ensures Valid()
      ensures var es := Fitting(Entries(attrs), 0); Short(es) && buf[..used] == EncodeAll(es)
    {
      hide Holds, Entries, ItemEntries, Fitting;
      used := 0;
      ghost var es: seq<Entry> := [];
      NothingHeld(buf[..]);
      assert Entries(attrs[..0]) == [] by { NoEntries(attrs); }
      var i := 0;
      while i < |attrs|
        invariant 0 <= i <= |attrs| && Valid() && es == Entries(attrs[..i])
        invariant Holds(buf[..], used, es)
      {
        EntriesGrow(attrs, i);
        if attrs[i].known {
          ghost var fs;
          var ok;
          ok, fs := PackItems(attrs[i], es);
          if !ok {
            ghost var e :| Length(e) + used >= MAX_PACKET && fs + [e] <= ItemEntries(attrs[i].id, attrs[i].items);
            EntriesPrefix(attrs, i + 1);
            assert es + fs + [e] == es + (fs + [e]);
            StopsAt(buf[..], used, es + fs, e, Entries(attrs));
            HeldBytes(buf[..], used, es + fs);
            return;
          }
          es := es + fs;
        }
        i := i + 1;
      }
      assert attrs[..i] == attrs;
      HeldBytes(buf[..], used, es);
    }
  }

  lemma {:induction false} HeldBytes(buf: seq<Byte>, used: int, es: seq<Entry>)
    requires 0 <= used <= |buf| && Holds(buf, used, es)
    ensures Short(es) && buf[..used] == EncodeAll(es) && Fitting(es, 0) == es
  {
  }

  lemma {:induction false} NoItems(a: Attr)
    ensures ItemEntries(a.id, a.items[..0]) == []
  {
  }

  lemma {:induction false} NoEntries(attrs: seq<Attr>)
    ensures Entries(attrs[..0]) == []
  {
  }

  // ---------- reading ----------

  function Prepended(es: seq<Entry>, r: Parsed): Parsed {
    match r
    case Failed(_) => r
    case Parsed(fs, end) => Parsed(es + fs, end)
  }

  function Joined(s: CString, r: Option<CString>): Option<CString> {
    match r
    case None => None
    case Some(t) => Some(s + t)
  }

  lemma {:induction false} JoinStep(s: CString, buf: seq<Byte>, i: nat)
    requires i < |buf| && buf[i] != 0
    ensures Joined(s, StringAt(buf, i)) == Joined(s + [buf[i]], StringAt(buf, i + 1))
  {
    match StringAt(buf, i + 1)
    case None =>
    case Some(t) => assert s + ([buf[i]] + t) == (s + [buf[i]]) + t;
  }

  lemma {:induction false} JoinNothing(r: Option<CString>)
    ensures Joined([], r) == r
  {
    if r.Some? { assert [] + r.value == r.value; }
  }

  /** The string at an index, byte by byte. */
  method ReadString(buf: seq<Byte>, at: nat) returns (ok: bool, s: CString)
    requires at <= |buf|
    ensures ok == StringAt(buf, at).Some? && (ok ==> s == StringAt(buf, at).value)
  {
    s := [];
    var i := at;
    JoinNothing(StringAt(buf, at));
    while i < |buf| && buf[i] != 0
      invariant at <= i <= |buf|
      invariant StringAt(buf, at) == Joined(s, StringAt(buf, i))
    {
      JoinStep(s, buf, i);
      s := s + [buf[i]];
      i := i + 1;
    }
    ok := i < |buf|;
  }

  /** The string branch of DealCgiReportAttr. */
  method Parse(buf: seq<Byte>) returns (r: Parsed)
    ensures r == ParseFrom(buf, 0)
  {
    hide StringAt, NetWord;
    var es: seq<Entry> := [];
    var read := 0;
    assert ParseFrom(buf, 0) == Prepended([], ParseFrom(buf, 0)) by { PrependNothing(ParseFrom(buf, 0)); }
    while |buf| >= read + HEADER
      invariant 0 <= read <= |buf| && ParseFrom(buf, 0) == Prepended(es, ParseFrom(buf, read))
      decreases |buf| - read
    {
      var id, val := NetWord(buf, read), NetWord(buf, read + 4);
      var len := ToInt32(NetWord(buf, read + 8));
      if !(0 <= read + HEADER + len <= |buf|) {
        return Failed(Invalid);
      }
      if len < 0 {
        return Failed(OutOfModel);
      }
      var ok, s := ReadString(buf, read + HEADER);
      if !ok {
        return Failed(OutOfModel);
      }
      var e := Entry(id, s, val);
      PrependOne(es, e, ParseFrom(buf, read + HEADER + len));
      read := read + HEADER + len;
      es := es + [e];
    }
    assert es + [] == es;
    return Parsed(es, read);
  }

  lemma {:induction false} PrependNothing(r: Parsed)
    ensures Prepended([], r) == r
  {
    if r.Parsed? { assert [] + r.entries == r.entries; }
  }

  lemma {:induction false} PrependOne(es: seq<Entry>, e: Entry, r: Parsed)
    ensures Prepended(es, Prepended([e], r)) == Prepended(es + [e], r)
  {
    if r.Parsed? { assert es + ([e] + r.entries) == (es + [e]) + r.entries; }
  }
}
