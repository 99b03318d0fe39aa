/** One report made of several machines' day records, read one after another. */
module DayMachines {
  import opened Basics
  import opened ReportClock
  import opened ReportWindow
  import opened DayBytes
  import opened DayRecord

  /** A machine's day: its slots and the period they count. */
  datatype DayData = DayData(slots: seq<Uint32>, period: Uint16)

  predicate ValidDay(m: DayData) {
    ValidPeriod(m.period) && |m.slots| == SlotsPerDay(m.period)
  }

  function NoReport(): (r: seq<Uint32>)
    ensures |r| == SLOTS
  {
    seq(SLOTS, _ => 0)
  }

  /** The loop over the machines: every record is read into the report the earlier ones left. */
  function ReadMachines(ms: seq<DayData>, ty: DataType): Outcome<seq<Uint32>>
    requires forall i :: 0 <= i < |ms| ==> |ms[i].slots| <= SLOTS
  {
    if ms == [] then Done(NoReport())
    else
      var m := ms[|ms| - 1];
      match ReadMachines(ms[..|ms| - 1], ty)
      case Undefined => Undefined
      case Done(report) =>
        match Decode(Record(m.slots, m.period), report, ty)
        case Undefined => Undefined
        case Done(o) => Done(if o.Some? then o.value.report else report)
  }

  // ---------- what a slot should show ----------

  /** The machines' values of slot s, in order. A compressed record does not name the slots without a value. */
  function ValuesAt(ms: seq<DayData>, s: nat): seq<Uint32>
    requires forall i :: 0 <= i < |ms| ==> |ms[i].slots| <= SLOTS
  {
    if ms == [] then []
    else
      var m, vs := ms[|ms| - 1], ValuesAt(ms[..|ms| - 1], s);
      if s >= |m.slots| || (m.slots[s] == 0 && IsPressed(m.slots)) then vs else vs + [m.slots[s]]
  }

  /** The values behind the last 0. */
  function SinceZero(vs: seq<Uint32>): seq<Uint32> {
    if vs == [] || vs[|vs| - 1] == 0 then [] else SinceZero(vs[..|vs| - 1]) + [vs[|vs| - 1]]
  }

  /**
   The machines' values combined: their sum, maximum or last value, the maximum of cumulative
   counts, and the minimum of the values behind the last 0.
   */
  function Together(vs: seq<Uint32>, ty: DataType): Uint32 {
    match ty
    case TotalType => if vs == [] then 0 else MaxOf(vs)
    case MinType => Aggregate(SinceZero(vs), MinType)
    case _ => Aggregate(vs, ty)
  }

  lemma {:induction false} TogetherGrows(vs: seq<Uint32>, v: Uint32, ty: DataType)
    ensures Combine(Together(vs, ty), v, ty) == Together(vs + [v], ty)
  {
    hide SumOf, MinOf, MaxOf, Wrap32;
    var us := vs + [v];
    assert us[..|vs|] == vs && us[|vs|] == v;
    match ty
    case MinType => MinimumGrows(vs, v);
    case MaxType => MaximumGrows(vs, v);
    case TotalType => MaximumGrows(vs, v);
    case LastType =>
    case SumType => SumWraps(vs, v);
    case ExType => SumWraps(vs, v);
  }

  lemma {:induction false} SumWraps(vs: seq<Uint32>, v: Uint32)
    ensures Wrap32((if vs == [] then 0 else Wrap32(SumOf(vs))) + v) == Wrap32(SumOf(vs + [v])) && Wrap32(v) == v
  {
    SumGrows(vs, v);
    WrapAdd(SumOf(vs), v);
    WrapSmall(v);
  }

  lemma {:induction false} MaximumGrows(vs: seq<Uint32>, v: Uint32)
    ensures MaxOf(vs + [v]) == if vs == [] || v > MaxOf(vs) then v else MaxOf(vs)
  {
    if vs == [] { assert vs + [v] == [v] && [v][..0] == []; } else { ExtremesGrow(vs, v); }
  }

  lemma {:induction false} MinimumGrows(vs: seq<Uint32>, v: Uint32)
    ensures Combine(Together(vs, MinType), v, MinType) == Together(vs + [v], MinType)
  {
    var us, w := vs + [v], SinceZero(vs);
    assert us[..|vs|] == vs;
    NoZeroSince(vs);
    if v != 0 {
      assert SinceZero(us) == w + [v];
      if w == [] { assert w + [v] == [v] && [v][..0] == []; } else { ExtremesGrow(w, v); }
    }
  }

  lemma {:induction false} NoZeroSince(vs: seq<Uint32>)
    ensures 0 !in SinceZero(vs)
    ensures 0 !in vs ==> SinceZero(vs) == vs
  {
    if vs != [] {
      NoZeroSince(vs[..|vs| - 1]);
      assert vs == vs[..|vs| - 1] + [vs[|vs| - 1]];
    }
  }

  // ---------- what it shows ----------

  ghost predicate ShowsMachines(report: seq<Uint32>, ms: seq<DayData>, ty: DataType)
    requires forall i :: 0 <= i < |ms| ==> |ms[i].slots| <= SLOTS
  {
    |report| == SLOTS && forall s :: 0 <= s < SLOTS ==> report[s] == Together(ValuesAt(ms, s), ty)
  }

  ghost predicate ValidDays(ms: seq<DayData>) {
    forall i :: 0 <= i < |ms| ==> ValidDay(ms[i]) && |ms[i].slots| <= SLOTS
  }

  lemma {:induction false} MachineAdded(report: seq<Uint32>, ms: seq<DayData>, ty: DataType)
    requires ms != [] && ValidDays(ms) && ShowsMachines(report, ms[..|ms| - 1], ty)
    ensures var m := ms[|ms| - 1]; ShowsMachines(Filled(report, m.slots, IsPressed(m.slots), ty), ms, ty)
  {
    hide Combine, Together, IsPressed;
    var m := ms[|ms| - 1];
    forall s | 0 <= s < SLOTS
      ensures Filled(report, m.slots, IsPressed(m.slots), ty)[s] == Together(ValuesAt(ms, s), ty)
    {
      assert report[s] == Together(ValuesAt(ms[..|ms| - 1], s), ty);
      if s < |m.slots| { TogetherGrows(ValuesAt(ms[..|ms| - 1], s), m.slots[s], ty); }
    }
  }

  /** Any machines' records, in any mixture of forms, leave in every slot exactly their values combined. */
  lemma {:induction false} MachinesTogether(ms: seq<DayData>, ty: DataType)
    requires ValidDays(ms)
    ensures ReadMachines(ms, ty).Done? && ShowsMachines(ReadMachines(ms, ty).value, ms, ty)
  {
    hide Decode, Record, Filled, IsPressed, ShowsMachines;
    if ms == [] {
      NothingShown(ty);
    } else {
      var m := ms[|ms| - 1];
      MachinesTogether(ms[..|ms| - 1], ty);
      var report := ReadMachines(ms[..|ms| - 1], ty).value;
      ShownLength(report, ms[..|ms| - 1], ty);
      DecodeRecord(report, m.slots, m.period, ty);
      MachineAdded(report, ms, ty);
    }
  }

  lemma {:induction false} NothingShown(ty: DataType)
    ensures ShowsMachines(NoReport(), [], ty)
  {
  }

  lemma {:induction false} ShownLength(report: seq<Uint32>, ms: seq<DayData>, ty: DataType)
    requires ValidDays(ms) && ShowsMachines(report, ms, ty)
    ensures |report| == SLOTS
  {
  }

  // ---------- values other than 0 ----------

  /** The machines' values of slot s that are not 0, in order. */
  function PositivesAt(ms: seq<DayData>, s: nat): seq<Uint32> {
    if ms == [] then []
    else
      var m, vs := ms[|ms| - 1], PositivesAt(ms[..|ms| - 1], s);
      if s < |m.slots| && m.slots[s] != 0 then vs + [m.slots[s]] else vs
  }

  ghost predicate AllPressed(ms: seq<DayData>)
    requires forall i :: 0 <= i < |ms| ==> |ms[i].slots| <= SLOTS
  {
    forall i :: 0 <= i < |ms| ==> IsPressed(ms[i].slots)
  }

  lemma {:induction false} PressedArePositives(ms: seq<DayData>, s: nat)
    requires forall i :: 0 <= i < |ms| ==> |ms[i].slots| <= SLOTS
    requires AllPressed(ms)
    ensures ValuesAt(ms, s) == PositivesAt(ms, s) && 0 !in PositivesAt(ms, s)
  {
    hide IsPressed;
    if ms != [] { PressedArePositives(ms[..|ms| - 1], s); }
  }

  /** A 0 adds nothing to sums and maxima. */
  lemma {:induction false} ZerosDoNotCount(ms: seq<DayData>, s: nat, ty: DataType)
    requires forall i :: 0 <= i < |ms| ==> |ms[i].slots| <= SLOTS
    requires !ty.MinType? && !ty.LastType?
    ensures Together(ValuesAt(ms, s), ty) == Together(PositivesAt(ms, s), ty)
  {
    hide IsPressed, Together, Combine;
    if ms != [] {
      var m, g := ms[|ms| - 1], ms[..|ms| - 1];
      ZerosDoNotCount(g, s, ty);
      if s < |m.slots| {
        TogetherGrows(ValuesAt(g, s), m.slots[s], ty);
        TogetherGrows(PositivesAt(g, s), m.slots[s], ty);
        AddZero(Together(ValuesAt(g, s), ty), ty);
      }
    }
  }

  lemma {:induction false} AddZero(cur: Uint32, ty: DataType)
    requires !ty.MinType? && !ty.LastType?
    ensures Combine(cur, 0, ty) == cur
  {
    WrapSmall(cur);
  }

  /**
   Every slot shows the aggregate of the machines' values other than 0, the maximum of cumulative
   counts; for minima and latest values as long as all the records are compressed.
   */
  lemma {:induction false} MachinesAggregate(ms: seq<DayData>, ty: DataType, s: nat)
    requires ValidDays(ms) && s < SLOTS
    requires (ty.MinType? || ty.LastType?) ==> AllPressed(ms)
    ensures ReadMachines(ms, ty).Done? && |ReadMachines(ms, ty).value| == SLOTS
    ensures var vs := PositivesAt(ms, s);
      ReadMachines(ms, ty).value[s] ==
        if ty.TotalType? then (if vs == [] then 0 else MaxOf(vs)) else Aggregate(vs, ty)
  {
    hide ReadMachines, ValuesAt, PositivesAt, AllPressed, Aggregate, MaxOf;
    MachinesTogether(ms, ty);
    if ty.MinType? || ty.LastType? {
      PressedArePositives(ms, s);
      NoZeroSince(PositivesAt(ms, s));
    } else {
      ZerosDoNotCount(ms, s, ty);
    }
  }

  // ---------- the integrity check of a further machine ----------

  /** Earlier machines have something in a slot that the record names. */
  predicate Overlaps(report: seq<Uint32>, a: seq<Uint32>, pressed: bool)
    requires |a| <= |report|
  {
    exists i :: 0 <= i < |a| && !(pressed && a[i] == 0) && report[i] != 0
  }

  lemma {:induction false} OverlapsGrows(report: seq<Uint32>, a: seq<Uint32>, pressed: bool)
    requires 0 < |a| <= |report|
    ensures var n := |a| - 1;
      Overlaps(report, a, pressed) <==>
        Overlaps(report, a[..n], pressed) || (!(pressed && a[n] == 0) && report[n] != 0)
  {
    var n := |a| - 1;
    if Overlaps(report, a[..n], pressed) {
      var i :| 0 <= i < n && !(pressed && a[..n][i] == 0) && report[i] != 0;
      assert a[..n][i] == a[i];
    }
    if Overlaps(report, a, pressed) {
      var i :| 0 <= i < |a| && !(pressed && a[i] == 0) && report[i] != 0;
      if i < n { assert a[..n][i] == a[i]; }
    }
  }

  lemma {:induction false} NamedSums(report: seq<Uint32>, a: seq<Uint32>, pressed: bool, ty: DataType)
    requires |a| <= |report| && (ty.SumType? || ty.ExType?)
    requires SumOf(report[..|a|]) + SumOf(a) < TWO32
    ensures SumOf(a) <= SumOf(Named(report, a, pressed, ty)) <= SumOf(report[..|a|]) + SumOf(a)
    ensures SumOf(Named(report, a, pressed, ty)) == SumOf(a) <==> !Overlaps(report, a, pressed)
  {
    hide Overlaps, Wrap32, Combine;
    if a != [] {
      var n := |a| - 1;
      assert report[..|a|][..n] == report[..n];
      assert SumOf(report[..|a|]) == SumOf(report[..n]) + report[n];
      NamedSums(report, a[..n], pressed, ty);
      OverlapsGrows(report, a, pressed);
      SumGrows(Named(report, a[..n], pressed, ty), Combine(report[n], a[n], ty));
      SumsCombine(report[n], a[n], ty);
    } else {
      NoOverlap(report, pressed);
    }
  }

  lemma {:induction false} NoOverlap(report: seq<Uint32>, pressed: bool)
    ensures !Overlaps(report, [], pressed)
  {
  }

  lemma {:induction false} SumsCombine(cur: Uint32, v: Uint32, ty: DataType)
    requires (ty.SumType? || ty.ExType?) && cur + v < TWO32
    ensures Combine(cur, v, ty) == cur + v
  {
    WrapSmall(cur + v);
  }

  /**
   The total recomputed while a further machine's record of sums is read is the record's own,
   which it is compared with, exactly when earlier machines had nothing in the slots it names.
   */
  lemma {:induction false} CheckOfFurtherExactly(report: seq<Uint32>, m: DayData, ty: DataType)
    requires ValidDay(m) && |report| == SLOTS && |m.slots| <= SLOTS && (ty.SumType? || ty.ExType?)
    requires SumOf(report[..|m.slots|]) + SumOf(m.slots) < TWO32
    ensures var o := Decode(Record(m.slots, m.period), report, ty);
      && o.Done? && o.value.Some?
      && (o.value.value.total == SumOf(m.slots) <==> !Overlaps(report, m.slots, IsPressed(m.slots)))
  {
    hide Decode, Record, IsPressed, Overlaps, Filled, Named, SumOf, SlotsPerDay;
    DecodeRecord(report, m.slots, m.period, ty);
    NamedSums(report, m.slots, IsPressed(m.slots), ty);
    WrapSmall(SumOf(Named(report, m.slots, IsPressed(m.slots), ty)));
  }
}
