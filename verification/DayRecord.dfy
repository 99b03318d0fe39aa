/** The binary day record of one (attribute, machine): its two forms, and the reader of three. */
module DayRecord {
  import opened Basics
  import opened ReportClock
  import opened ReportWindow
  import opened DayBytes

  /** COUNT_STATIC_TIMES_PER_DAY, the length of every slot array. */
  const SLOTS := DAY_MIN

  const ARRAY_V2: Byte := 1
  const PRESS_V2: Byte := 2
  const UINT_MAX: Uint32 := TWO32 - 1

  // ---------- the record ----------

  /** The slots with a value, ascending. */
  function NonZero(a: seq<Uint32>): (c: seq<Uint16>)
    requires |a| <= SLOTS
    ensures |c| <= |a|
    ensures forall i :: 0 <= i < |c| ==> c[i] < |a| && a[c[i]] != 0
  {
    if a == [] then []
    else
      var n := |a| - 1;
      var c := NonZero(a[..n]);
      if a[n] != 0 then c + [n] else c
  }

  function Net16(ws: seq<Uint16>): (n: seq<Uint16>)
    ensures |n| == |ws|
  {
    seq(|ws|, i requires 0 <= i < |ws| => Htons(ws[i]))
  }

  function Net32(ws: seq<Uint32>): (n: seq<Uint32>)
    ensures |n| == |ws|
  {
    seq(|ws|, i requires 0 <= i < |ws| => Htonl(ws[i]))
  }

  predicate IsPressed(a: seq<Uint32>)
    requires |a| <= SLOTS
  {
    0 < |NonZero(a)| && !(2 * |NonZero(a)| > |a|)
  }

  /** The bytes stored for the slots a of a day with period p. */
  function Record(a: seq<Uint32>, p: Uint16): seq<Byte>
    requires |a| <= SLOTS
  {
    var c := NonZero(a);
    if IsPressed(a) then
      [PRESS_V2] + Raw16([Htons(p)]) + Raw16([Htons(|c|)]) + Raw16(Net16(c)) + Raw32(Net32(Picked(a, c)))
    else
      [ARRAY_V2] + Raw16([Htons(p)]) + Raw32(Net32(a))
  }

  // ---------- the reader ----------

  datatype Form = Plain | Pressed | Oldest

  datatype Entry = Entry(slot: nat, val: Uint32)

  datatype Parsed = Parsed(form: Form, period: int, slots: nat, entries: seq<Entry>)

  /** Headers of records too short for one are read as zeros; no length test accepts those. */
  function HeaderWord(bin: seq<Byte>, at: nat): Uint16 {
    if at + 2 <= |bin| then Htons(Load16(bin, at)) else 0
  }

  function NetLoad32(bin: seq<Byte>, at: nat): Uint32
    requires at + 4 <= |bin|
  {
    Htonl(Load32(bin, at))
  }

  function PlainEntries(bin: seq<Byte>, n: nat): seq<Entry>
    requires |bin| == 3 + 4 * n
  {
    seq(n, i requires 0 <= i < n => Entry(i, NetLoad32(bin, 3 + 4 * i)))
  }

  function PressedEntries(bin: seq<Byte>, n: nat): seq<Entry>
    requires |bin| == 5 + 6 * n
  {
    seq(n, i requires 0 <= i < n => Entry(Htons(Load16(bin, 5 + 2 * i)), NetLoad32(bin, 5 + 2 * n + 4 * i)))
  }

  /** Host byte order. */
  function OldestEntries(bin: seq<Byte>): seq<Entry>
    requires |bin| == 4 * SLOTS
  {
    seq(SLOTS, i requires 0 <= i < SLOTS => Entry(i, Load32(bin, 4 * i)))
  }

  function Parse(bin: seq<Byte>): Option<Parsed> {
    var ctype := if bin == [] then 0 else bin[0];
    var p := HeaderWord(bin, 1);
    var c := HeaderWord(bin, 3);
    if ctype == ARRAY_V2 && ValidPeriod(p) && |bin| == 3 + 4 * SlotsPerDay(p) then
      Some(Parsed(Plain, p, SlotsPerDay(p), PlainEntries(bin, SlotsPerDay(p))))
    else if ctype == PRESS_V2 && ValidPeriod(p) && |bin| == 5 + 6 * c then
      Some(Parsed(Pressed, p, SlotsPerDay(p), PressedEntries(bin, c)))
    else if |bin| == 4 * SLOTS then
      Some(Parsed(Oldest, p, SLOTS, OldestEntries(bin)))
    else None
  }

  /** GetAttrIdxData: a new value for a slot that may hold another machine's. */
  function Combine(cur: Uint32, v: Uint32, ty: DataType): Uint32 {
    if cur == 0 then v
    else
      match ty
      case MinType => if cur < v then cur else v
      case MaxType => if cur > v then cur else v
      case TotalType => if cur > v then cur else v
      case LastType => v
      case _ => Wrap32(cur + v)
  }

  /** The slot array being filled and the totals recomputed on the way. */
  datatype Reading = Reading(report: seq<Uint32>, min: Uint32, max: Uint32, total: Uint32)

  /** One entry; a slot beyond the array is undefined behaviour. */
  function ReadEntry(r: Reading, e: Entry, form: Form, slots: nat, ty: DataType): Outcome<Reading> {
    if form.Pressed? && e.slot > slots then Done(r)
    else if e.slot >= |r.report| then Undefined
    else
      var v := if form.Oldest? then Wrap32(r.report[e.slot] + e.val) else Combine(r.report[e.slot], e.val, ty);
      Done(Reading(r.report[e.slot := v],
                   if v < r.min && v != 0 then v else r.min,
                   if v > r.max then v else r.max,
                   Wrap32(r.total + v)))
  }

  function ReadEntries(report: seq<Uint32>, es: seq<Entry>, form: Form, slots: nat, ty: DataType): Outcome<Reading> {
    if es == [] then Done(Reading(report, UINT_MAX, 0, 0))
    else
      match ReadEntries(report, es[..|es| - 1], form, slots, ty)
      case Undefined => Undefined
      case Done(r) => ReadEntry(r, es[|es| - 1], form, slots, ty)
  }

  /** One machine's record added to the report; None when no form fits. */
  function Decode(bin: seq<Byte>, report: seq<Uint32>, ty: DataType): Outcome<Option<Reading>> {
    match Parse(bin)
    case None => Done(None)
    case Some(q) =>
      match ReadEntries(report, q.entries, q.form, q.slots, ty)
      case Undefined => Undefined
      case Done(r) => Done(Some(r))
  }

  // ---------- parsing gives back what was written ----------

  lemma {:induction false} RecordLength(a: seq<Uint32>, p: Uint16)
    requires |a| <= SLOTS
    ensures |Record(a, p)| == if IsPressed(a) then 5 + 6 * |NonZero(a)| else 3 + 4 * |a|
  {
    hide NonZero, Raw16, Raw32;
  }

  /**
   The stored form is never longer than the plain one and fits the buffer; it is longer than
   the compressed one exactly in the days between half and two thirds full, and in empty ones.
   */
  lemma {:induction false} NeverLongerThanPlain(a: seq<Uint32>, p: Uint16)
    requires |a| <= SLOTS
    ensures |Record(a, p)| <= 3 + 4 * |a|
    ensures |Record(a, p)| <= 5 + 6 * SLOTS
    ensures var c := |NonZero(a)|;
      |Record(a, p)| > 5 + 6 * c <==> (c == 0 || 2 * c > |a|) && 6 * c + 2 < 4 * |a|
  {
    RecordLength(a, p);
  }

  lemma {:induction false} PlainHeader(p: Uint16, tail: seq<Byte>, t: Byte)
    ensures HeaderWord([t] + Raw16([Htons(p)]) + tail, 1) == p
  {
    hide Htons;
    LoadRaw16([t], [Htons(p)], tail, 0);
    NetworkOrder16(p);
  }

  function AllEntries(a: seq<Uint32>): seq<Entry> {
    seq(|a|, i requires 0 <= i < |a| => Entry(i, a[i]))
  }

  function ValueEntries(a: seq<Uint32>): seq<Entry>
    requires |a| <= SLOTS
  {
    var c := NonZero(a);
    seq(|c|, i requires 0 <= i < |c| => Entry(c[i], a[c[i]]))
  }

  lemma {:induction false} ParsePlain(a: seq<Uint32>, p: Uint16)
    requires ValidPeriod(p) && |a| == SlotsPerDay(p) && !IsPressed(a)
    ensures Parse(Record(a, p)) == Some(Parsed(Plain, p, |a|, AllEntries(a)))
  {
    hide NonZero, IsPressed, Htonl, Htons, Raw16, Raw32, SlotsPerDay, Load32, HeaderWord;
    var head := [ARRAY_V2] + Raw16([Htons(p)]);
    var bin := head + Raw32(Net32(a));
    PlainHeader(p, Raw32(Net32(a)), ARRAY_V2);
    var es := PlainEntries(bin, |a|);
    forall i | 0 <= i < |a|
      ensures es[i] == Entry(i, a[i])
    {
      LoadRaw32(head, Net32(a), [], i);
      assert bin == head + Raw32(Net32(a)) + [];
      NetworkOrder32(a[i]);
    }
    assert es == AllEntries(a);
  }

  lemma {:induction false} PressedEntryAt(bin: seq<Byte>, n: nat, i: nat)
    requires |bin| == 5 + 6 * n && i < n
    ensures PressedEntries(bin, n)[i] == Entry(Htons(Load16(bin, 5 + 2 * i)), Htonl(Load32(bin, 5 + 2 * n + 4 * i)))
  {
    hide Htonl, Htons, Load32, Load16;
  }

  lemma {:induction false} NetAt(x: seq<Uint16>, w: seq<Uint32>, i: nat)
    requires i < |x| && i < |w|
    ensures Htons(Net16(x)[i]) == x[i] && Htonl(Net32(w)[i]) == w[i]
  {
    hide Htons, Htonl;
    NetworkOrder16(x[i]);
    NetworkOrder32(w[i]);
  }

  /** The words of a compressed record are where the reader looks for them. */
  lemma {:induction false} PressedWords(head: seq<Byte>, x: seq<Uint16>, w: seq<Uint32>, i: nat)
    requires |head| == 5 && |x| == |w| && i < |x|
    ensures var bin := head + Raw16(Net16(x)) + Raw32(Net32(w));
      PressedEntries(bin, |x|)[i] == Entry(x[i], w[i])
  {
    hide Htonl, Htons, Raw16, Raw32, Load32, Load16, Net16, Net32, PressedEntries;
    var b16, b32 := Raw16(Net16(x)), Raw32(Net32(w));
    var bin := head + b16 + b32;
    PressedEntryAt(bin, |x|, i);
    LoadRaw16(head, Net16(x), b32, i);
    LoadRaw32(head + b16, Net32(w), [], i);
    assert bin == head + b16 + b32 + [];
    NetAt(x, w, i);
  }

  lemma {:induction false} ParsePressed(a: seq<Uint32>, p: Uint16)
    requires ValidPeriod(p) && |a| == SlotsPerDay(p) && IsPressed(a)
    ensures Parse(Record(a, p)) == Some(Parsed(Pressed, p, |a|, ValueEntries(a)))
  {
    hide NonZero, IsPressed, Htonl, Htons, Raw16, Raw32, SlotsPerDay, Net16, Net32, HeaderWord, PressedEntries;
    var c := NonZero(a);
    var w := Picked(a, c);
    var tail := Raw16(Net16(c)) + Raw32(Net32(w));
    var h1 := [PRESS_V2] + Raw16([Htons(p)]);
    var h2 := h1 + Raw16([Htons(|c|)]);
    var bin := h2 + Raw16(Net16(c)) + Raw32(Net32(w));
    assert bin == h1 + (Raw16([Htons(|c|)]) + tail);
    PlainHeader(p, Raw16([Htons(|c|)]) + tail, PRESS_V2);
    assert bin == h1 + Raw16([Htons(|c|)]) + tail;
    PressedCount(h1, |c|, tail);
    PressedLength(bin, |c|);
    forall i | 0 <= i < |c|
      ensures PressedEntries(bin, |c|)[i] == Entry(c[i], a[c[i]])
    {
      PressedWords(h2, c, w, i);
    }
    assert PressedEntries(bin, |c|) == ValueEntries(a);
  }

  lemma {:induction false} PressedLength(bin: seq<Byte>, n: nat)
    requires |bin| == 5 + 6 * n
    ensures |PressedEntries(bin, n)| == n
  {
  }

  lemma {:induction false} PressedCount(h1: seq<Byte>, n: Uint16, tail: seq<Byte>)
    requires |h1| == 3
    ensures HeaderWord(h1 + Raw16([Htons(n)]) + tail, 3) == n
  {
    hide Htons;
    LoadRaw16(h1, [Htons(n)], tail, 0);
    NetworkOrder16(n);
  }

  // ---------- reading gives back the slots ----------

  /** The smallest value among the slots that have one. */
  function MinSlot(a: seq<Uint32>): (m: Uint32)
    ensures forall v :: v in a && v != 0 ==> m <= v
    ensures m == UINT_MAX || (m in a && m != 0)
  {
    if a == [] then UINT_MAX
    else
      var n := |a| - 1;
      assert a == a[..n] + [a[n]];
      if a[n] < MinSlot(a[..n]) && a[n] != 0 then a[n] else MinSlot(a[..n])
  }

  function MaxSlot(a: seq<Uint32>): (m: Uint32)
    ensures forall v :: v in a ==> v <= m
    ensures m == 0 || m in a
  {
    if a == [] then 0
    else
      var n := |a| - 1;
      assert a == a[..n] + [a[n]];
      if a[n] > MaxSlot(a[..n]) then a[n] else MaxSlot(a[..n])
  }

  /** The report after the slots a, or only those with a value, were combined into it. */
  function Filled(report: seq<Uint32>, a: seq<Uint32>, pressed: bool, ty: DataType): (r: seq<Uint32>)
    ensures |r| == |report|
  {
    seq(|report|, i requires 0 <= i < |report| =>
      if i < |a| && !(pressed && a[i] == 0) then Combine(report[i], a[i], ty) else report[i])
  }

  ghost predicate AllZero(report: seq<Uint32>) {
    forall i :: 0 <= i < |report| ==> report[i] == 0
  }

  /** What the slots named by the record hold after they were combined, in order. */
  function Named(report: seq<Uint32>, a: seq<Uint32>, pressed: bool, ty: DataType): seq<Uint32>
    requires |a| <= |report|
  {
    if a == [] then []
    else
      var n := |a| - 1;
      var vs := Named(report, a[..n], pressed, ty);
      if pressed && a[n] == 0 then vs else vs + [Combine(report[n], a[n], ty)]
  }

  /** The result of reading: the filled report, and the totals of the slots it named. */
  ghost predicate ReadsAs(o: Outcome<Reading>, report: seq<Uint32>, a: seq<Uint32>, pressed: bool, ty: DataType)
    requires |a| <= |report|
  {
    var vs := Named(report, a, pressed, ty);
    && o.Done?
    && o.value.report == Filled(report, a, pressed, ty)
    && o.value.min == MinSlot(vs) && o.value.max == MaxSlot(vs) && o.value.total == Wrap32(SumOf(vs))
  }

  lemma {:induction false} FilledGrows(report: seq<Uint32>, a: seq<Uint32>, pressed: bool, ty: DataType)
    requires 0 < |a| <= |report|
    ensures var n := |a| - 1;
      var f := Filled(report, a[..n], pressed, ty);
      && f[n] == report[n]
      && Filled(report, a, pressed, ty) == if pressed && a[n] == 0 then f else f[n := Combine(report[n], a[n], ty)]
  {
    hide Combine;
  }

  lemma {:induction false} TotalsGrow(a: seq<Uint32>, v: Uint32)
    ensures var min, max := MinSlot(a), MaxSlot(a);
      && MinSlot(a + [v]) == (if v < min && v != 0 then v else min)
      && MaxSlot(a + [v]) == (if v > max then v else max)
      && Wrap32(SumOf(a + [v])) == Wrap32(Wrap32(SumOf(a)) + v)
  {
    assert (a + [v])[..|a|] == a;
    WrapAdd(SumOf(a), v);
  }

  lemma {:induction false} ReadStep(r: Reading, report: seq<Uint32>, a: seq<Uint32>, pressed: bool,
      slots: nat, ty: DataType)
    requires 0 < |a| <= |report| && |a| <= slots && ReadsAs(Done(r), report, a[..|a| - 1], pressed, ty)
    ensures pressed && a[|a| - 1] == 0 ==> ReadsAs(Done(r), report, a, pressed, ty)
    ensures !(pressed && a[|a| - 1] == 0) ==>
      var form := if pressed then Pressed else Plain;
      ReadsAs(ReadEntry(r, Entry(|a| - 1, a[|a| - 1]), form, slots, ty), report, a, pressed, ty)
  {
    hide Combine, SumOf, Filled, MinSlot, MaxSlot, Wrap32;
    var n := |a| - 1;
    FilledGrows(report, a, pressed, ty);
    TotalsGrow(Named(report, a[..n], pressed, ty), Combine(report[n], a[n], ty));
  }

  /** Over an empty report the totals are those of the slots. */
  lemma {:induction false} NamedOverZeros(report: seq<Uint32>, a: seq<Uint32>, pressed: bool, ty: DataType)
    requires |a| <= |report| && AllZero(report)
    ensures var vs := Named(report, a, pressed, ty);
      MinSlot(vs) == MinSlot(a) && MaxSlot(vs) == MaxSlot(a) && Wrap32(SumOf(vs)) == Wrap32(SumOf(a))
  {
    hide Combine, SumOf, MinSlot, MaxSlot, Wrap32;
    if a != [] {
      var n := |a| - 1;
      NamedOverZeros(report, a[..n], pressed, ty);
      CombineZero(a[n], ty);
      TotalsGrow(Named(report, a[..n], pressed, ty), a[n]);
      TotalsGrow(a[..n], a[n]);
      assert a == a[..n] + [a[n]];
      WrapAdd(SumOf(a[..n]), 0);
    }
  }

  lemma {:induction false} CombineZero(v: Uint32, ty: DataType)
    ensures Combine(0, v, ty) == v
  {
  }

  lemma {:induction false} ReadNothing(report: seq<Uint32>, form: Form, slots: nat, pressed: bool, ty: DataType)
    ensures ReadsAs(ReadEntries(report, [], form, slots, ty), report, [], pressed, ty)
  {
    assert Filled(report, [], pressed, ty) == report;
  }

  lemma {:induction false} ReadAllEntries(report: seq<Uint32>, a: seq<Uint32>, slots: nat, ty: DataType)
    requires |a| <= |report| && |a| <= slots
    ensures ReadsAs(ReadEntries(report, AllEntries(a), Plain, slots, ty), report, a, false, ty)
  {
    hide ReadsAs, ReadEntry;
    if a == [] {
      ReadNothing(report, Plain, slots, false, ty);
      assert AllEntries(a) == [];
    } else {
      var b := a[..|a| - 1];
      ReadAllEntries(report, b, slots, ty);
      assert AllEntries(a)[..|a| - 1] == AllEntries(b);
      var o := ReadEntries(report, AllEntries(b), Plain, slots, ty);
      assert o.Done? by { ReadsDone(o, report, b, false, ty); }
      ReadStep(o.value, report, a, false, slots, ty);
    }
  }

  lemma {:induction false} ReadsDone(o: Outcome<Reading>, report: seq<Uint32>, a: seq<Uint32>,
      pressed: bool, ty: DataType)
    requires |a| <= |report| && ReadsAs(o, report, a, pressed, ty)
    ensures o.Done?
  {
  }

  lemma {:induction false} ValueEntriesGrow(a: seq<Uint32>)
    requires 0 < |a| <= SLOTS
    ensures var n := |a| - 1;
      ValueEntries(a) == if a[n] == 0 then ValueEntries(a[..n]) else ValueEntries(a[..n]) + [Entry(n, a[n])]
  {
    var n := |a| - 1;
    if a[n] == 0 {
      assert ValueEntries(a) == ValueEntries(a[..n]);
    } else {
      assert NonZero(a) == NonZero(a[..n]) + [n];
    }
  }

  lemma {:induction false} ReadValueEntries(report: seq<Uint32>, a: seq<Uint32>, slots: nat, ty: DataType)
    requires |a| <= |report| == SLOTS && |a| <= slots
    ensures ReadsAs(ReadEntries(report, ValueEntries(a), Pressed, slots, ty), report, a, true, ty)
  {
    hide ReadsAs, ReadEntry, ValueEntries;
    if a == [] {
      ReadNothing(report, Pressed, slots, true, ty);
      NoEntries();
    } else {
      var n := |a| - 1;
      var b := a[..n];
      ReadValueEntries(report, b, slots, ty);
      var o := ReadEntries(report, ValueEntries(b), Pressed, slots, ty);
      assert o.Done? by { ReadsDone(o, report, b, true, ty); }
      ReadStep(o.value, report, a, true, slots, ty);
      ValueEntriesGrow(a);
    }
  }

  lemma {:induction false} NoEntries()
    ensures ValueEntries([]) == []
  {
  }

  /** Every record is readable: its slots are combined into the report, whatever its form. */
  lemma {:induction false} DecodeRecord(report: seq<Uint32>, a: seq<Uint32>, p: Uint16, ty: DataType)
    requires ValidPeriod(p) && |a| == SlotsPerDay(p) && |report| == SLOTS
    ensures var o := Decode(Record(a, p), report, ty);
      && o.Done? && o.value.Some?
      && ReadsAs(Done(o.value.value), report, a, IsPressed(a), ty)
  {
    hide ReadsAs, IsPressed, Record, ReadEntries, Parse, SlotsPerDay;
    if IsPressed(a) {
      ParsePressed(a, p);
      ReadValueEntries(report, a, |a|, ty);
      ReadsDone(ReadEntries(report, ValueEntries(a), Pressed, |a|, ty), report, a, true, ty);
    } else {
      ParsePlain(a, p);
      ReadAllEntries(report, a, |a|, ty);
      ReadsDone(ReadEntries(report, AllEntries(a), Plain, |a|, ty), report, a, false, ty);
    }
  }

  lemma {:induction false} FilledEmpty(report: seq<Uint32>, a: seq<Uint32>, pressed: bool, ty: DataType)
    requires |a| <= |report| && AllZero(report)
    ensures Filled(report, a, pressed, ty) == a + report[|a|..]
  {
    hide Combine;
    forall i | 0 <= i < |a|
      ensures Combine(report[i], a[i], ty) == a[i]
    {
      CombineZero(a[i], ty);
    }
  }

  /** Round trip: period and slots come back, with their least, greatest and total value. */
  lemma {:induction false} RoundTrip(report: seq<Uint32>, a: seq<Uint32>, p: Uint16, ty: DataType)
    requires ValidPeriod(p) && |a| == SlotsPerDay(p) && |report| == SLOTS && AllZero(report)
    ensures var bin := Record(a, p);
      && Parse(bin).Some? && Parse(bin).value.period == p
      && Decode(bin, report, ty) ==
           Done(Some(Reading(a + report[|a|..], MinSlot(a), MaxSlot(a), Wrap32(SumOf(a)))))
  {
    hide IsPressed, Record, Parse, SlotsPerDay, Decode, Filled, Named, MinSlot, MaxSlot, SumOf, Wrap32;
    if IsPressed(a) { ParsePressed(a, p); } else { ParsePlain(a, p); }
    DecodeRecord(report, a, p, ty);
    NamedOverZeros(report, a, IsPressed(a), ty);
    FilledEmpty(report, a, IsPressed(a), ty);
  }

  // ---------- which records can be read at all ----------

  lemma {:induction false} ReadDefinedExactly(report: seq<Uint32>, es: seq<Entry>, form: Form, slots: nat, ty: DataType)
    ensures var o := ReadEntries(report, es, form, slots, ty);
      && (o.Done? <==> forall i :: 0 <= i < |es| ==> es[i].slot < |report| || (form.Pressed? && es[i].slot > slots))
      && (o.Done? ==> |o.value.report| == |report|)
  {
    hide Combine;
    if es != [] { ReadDefinedExactly(report, es[..|es| - 1], form, slots, ty); }
  }

  /** A compressed one-minute record that names the slot behind the last. */
  predicate Overruns(bin: seq<Byte>) {
    var q := Parse(bin);
    q.Some? && q.value.form.Pressed? && q.value.period == 1
    && exists i :: 0 <= i < |q.value.entries| && q.value.entries[i].slot == SLOTS
  }

  /** For any bytes: reading stays inside the report exactly unless the record overruns it. */
  lemma {:induction false} DecodeDefinedExactly(bin: seq<Byte>, report: seq<Uint32>, ty: DataType)
    requires |report| == SLOTS
    ensures Decode(bin, report, ty).Done? <==> !Overruns(bin)
  {
    hide ReadEntries, SlotsPerDay, HeaderWord, Load16, Load32, Htons, Htonl;
    if Parse(bin).Some? {
      var q := Parse(bin).value;
      ReadDefinedExactly(report, q.entries, q.form, q.slots, ty);
      if q.form != Oldest { SlotsOfPeriod(q.period); }
    }
  }

  lemma {:induction false} SlotsOfPeriod(p: int)
    requires ValidPeriod(p)
    ensures SlotsPerDay(p) <= SLOTS && (SlotsPerDay(p) == SLOTS <==> p == 1)
  {
  }

  // ---------- the oldest form ----------

  /** The reader adds up the oldest form whatever the type, as a plain record of sums; nothing else is so long. */
  lemma {:induction false} DecodeOldest(report: seq<Uint32>, a: seq<Uint32>, ty: DataType)
    requires |a| == |report| == SLOTS
    ensures var o := Decode(Raw32(a), report, ty);
      && o.Done? && o.value.Some? && Parse(Raw32(a)).value.form.Oldest?
      && ReadsAs(Done(o.value.value), report, a, false, SumType)
  {
    hide ReadsAs, ReadEntries, Raw32, SlotsPerDay, Load32, HeaderWord;
    var bin := Raw32(a);
    forall i | 0 <= i < SLOTS
      ensures OldestEntries(bin)[i] == Entry(i, a[i])
    {
      LoadRaw32([], a, [], i);
      assert bin == [] + bin + [];
    }
    assert OldestEntries(bin) == AllEntries(a);
    OldestAsSums(report, AllEntries(a), SLOTS, ty);
    ReadAllEntries(report, a, SLOTS, SumType);
    ReadsDone(ReadEntries(report, AllEntries(a), Plain, SLOTS, SumType), report, a, false, SumType);
  }

  lemma {:induction false} OldestAsSums(report: seq<Uint32>, es: seq<Entry>, slots: nat, ty: DataType)
    ensures ReadEntries(report, es, Oldest, slots, ty) == ReadEntries(report, es, Plain, slots, SumType)
  {
    hide Wrap32;
    if es != [] {
      OldestAsSums(report, es[..|es| - 1], slots, ty);
      WrapSmall(es[|es| - 1].val);
    }
  }

  // ---------- several machines ----------

  /** Where the two forms of one day lead to different reports. */
  predicate FormMatters(cur: Uint32, v: Uint32, ty: DataType) {
    cur != 0 && v == 0 && (ty.MinType? || ty.LastType?)
  }

  /**
   Adding a second machine: the form of its record shows exactly where a slot holds a value,
   its record has none and the attribute keeps the minimum or the latest.
   */
  lemma {:induction false} FormsAgreeExactly(report: seq<Uint32>, a: seq<Uint32>, ty: DataType)
    requires |a| <= |report|
    ensures Filled(report, a, true, ty) == Filled(report, a, false, ty) <==>
      forall i :: 0 <= i < |a| ==> !FormMatters(report[i], a[i], ty)
  {
    var x, y := Filled(report, a, true, ty), Filled(report, a, false, ty);
    forall i | 0 <= i < |a|
      ensures x[i] == y[i] <==> !FormMatters(report[i], a[i], ty)
    {
    }
  }
}
