/** Gathering the rows of one (attribute, machine) into slots, and the totals kept beside the record. */
module DayRows {
  import opened Basics
  import opened ReportClock
  import opened ReportWindow
  import opened DayRecord
  import Runs = ReportRuns

  type Row = Runs.Row

  datatype Gathered = Gathered(values: seq<Uint32>, min: Uint32, max: Uint32, total: Uint32, maxIdx: int)

  function Zeros(): (z: seq<Uint32>)
    ensures |z| == SLOTS && AllZero(z)
  {
    seq(SLOTS, _ => 0)
  }

  /** GetMonitorAttrMemcache (array version); without rows the array keeps what it had. */
  function Gather(values: seq<Uint32>, rows: seq<Row>, p: Period): (g: Gathered)
    requires |values| == SLOTS
    ensures |g.values| == SLOTS
  {
    if rows == [] then Gathered(values, 0, 0, 0, -1)
    else
      var row := rows[|rows| - 1];
      var g := if |rows| == 1 then Gathered(Zeros(), row.val, row.val, 0, -1)
               else Gather(values, rows[..|rows| - 1], p);
      GatherRow(g, row, p)
  }

  function GatherRow(g: Gathered, row: Row, p: Period): (u: Gathered)
    requires |g.values| == SLOTS
    ensures |u.values| == SLOTS
  {
    var s := Slot(row.at, p);
    var v := Wrap32(g.values[s] + row.val);
    Gathered(g.values[s := v],
             if g.min > v then v else g.min,
             if g.max < v then v else g.max,
             Wrap32(g.total + v),
             if s > g.maxIdx then s else g.maxIdx)
  }

  /** The comparison GetAttrDayVal makes after decoding a single machine's record. */
  predicate CheckPasses(g: Gathered, p: Period)
    requires |g.values| == SLOTS
  {
    var a := g.values[..SlotsPerDay(p)];
    MinSlot(a) == g.min && MaxSlot(a) == g.max && Wrap32(SumOf(a)) == g.total
  }

  ghost predicate Positive(rows: seq<Row>) {
    forall i :: 0 <= i < |rows| ==> rows[i].val > 0
  }

  ghost predicate OnePerSlot(rows: seq<Row>, p: Period) {
    forall i, j :: 0 <= i < j < |rows| ==> Slot(rows[i].at, p) != Slot(rows[j].at, p)
  }

  lemma {:induction false} SlotInRange(t: nat, p: Period)
    ensures Slot(t, p) < SlotsPerDay(p)
  {
    hide MinuteOfDay, Second;
    var m := MinuteOfDay(t);
    QuotientMonotone(m, DAY_MIN - 1, p);
    QuotientBounds(DAY_MIN, p);
    QuotientBounds(DAY_MIN - 1, p);
    LastSlot(p);
  }

  lemma {:induction false} LastSlot(p: Period)
    ensures (DAY_MIN - 1) / p < SlotsPerDay(p)
  {
    QuotientMonotone(DAY_MIN - 1, DAY_MIN, p);
    QuotientBounds(DAY_MIN - 1, p);
    if DAY_MIN % p == 0 {
      assert DAY_MIN / p * p == DAY_MIN;
    }
  }

  // ---------- one row more ----------

  lemma {:induction false} SumUpdate(a: seq<Uint32>, s: nat, v: Uint32)
    requires s < |a|
    ensures SumOf(a[s := v]) == SumOf(a) - a[s] + v
  {
    var n := |a| - 1;
    if s < n {
      SumUpdate(a[..n], s, v);
      assert a[s := v][..n] == a[..n][s := v];
    } else {
      assert a[s := v][..n] == a[..n];
    }
  }

  lemma {:induction false} EmptySlots(a: seq<Uint32>)
    requires AllZero(a)
    ensures SumOf(a) == 0 && MinSlot(a) == UINT_MAX && MaxSlot(a) == 0
  {
    if a != [] { EmptySlots(a[..|a| - 1]); }
  }

  /** Filling an empty slot adds just the new value. */
  lemma {:induction false} ValuesUpdate(a: seq<Uint32>, s: nat, v: Uint32, x: Uint32)
    requires s < |a| && a[s] == 0 && x != 0
    ensures x in a[s := v] <==> x in a || x == v
  {
    var b := a[s := v];
    assert b[s] == v;
    if x in a {
      var i :| 0 <= i < |a| && a[i] == x;
      assert b[i] == x;
    }
  }

  lemma {:induction false} ExtremesUpdate(a: seq<Uint32>, s: nat, v: Uint32)
    requires s < |a| && a[s] == 0 && v != 0
    ensures MinSlot(a[s := v]) == if v < MinSlot(a) then v else MinSlot(a)
    ensures MaxSlot(a[s := v]) == if v > MaxSlot(a) then v else MaxSlot(a)
  {
    hide MinSlot, MaxSlot;
    var b := a[s := v];
    ValuesUpdate(a, s, v, v);
    if MinSlot(a) != UINT_MAX { ValuesUpdate(a, s, v, MinSlot(a)); }
    if MinSlot(b) != UINT_MAX { ValuesUpdate(a, s, v, MinSlot(b)); }
    if MaxSlot(a) != 0 { ValuesUpdate(a, s, v, MaxSlot(a)); }
    if MaxSlot(b) != 0 { ValuesUpdate(a, s, v, MaxSlot(b)); }
  }

  /** Each slot holds its row's value, or 0. */
  ghost predicate SlotsHold(values: seq<Uint32>, rows: seq<Row>, p: Period)
    requires |values| == SLOTS
  {
    hide Slot;
    && (forall i :: 0 <= i < |rows| ==> values[Slot(rows[i].at, p)] == rows[i].val)
    && (forall s :: 0 <= s < SLOTS && (forall i :: 0 <= i < |rows| ==> Slot(rows[i].at, p) != s) ==> values[s] == 0)
  }

  /** maxIdx is the last slot with a value. */
  ghost predicate Bounded(g: Gathered, p: Period)
    requires |g.values| == SLOTS
  {
    && 0 <= g.maxIdx < SlotsPerDay(p)
    && (forall s :: g.maxIdx < s < SLOTS ==> g.values[s] == 0)
    && g.max > 0
  }

  lemma {:induction false} RowChecks(g: Gathered, row: Row, p: Period)
    requires |g.values| == SLOTS && row.val > 0 && g.values[Slot(row.at, p)] == 0
    requires CheckPasses(g, p) || (AllZero(g.values) && g.min == g.max == row.val && g.total == 0)
    ensures CheckPasses(GatherRow(g, row, p), p)
  {
    hide Slot, SlotsPerDay, SumOf, MinSlot, MaxSlot, Wrap32;
    var s, n := Slot(row.at, p), SlotsPerDay(p);
    SlotInRange(row.at, p);
    var a := g.values[..n];
    assert GatherRow(g, row, p).values[..n] == a[s := row.val] by { WrapSmall(row.val); }
    SumUpdate(a, s, row.val);
    ExtremesUpdate(a, s, row.val);
    WrapAdd(SumOf(a), row.val);
    WrapSmall(row.val);
    if AllZero(g.values) {
      EmptySlots(a);
      WrapSmall(0);
    }
  }

  lemma {:induction false} RowHeld(g: Gathered, rows: seq<Row>, p: Period)
    requires |g.values| == SLOTS && rows != [] && OnePerSlot(rows, p)
    requires SlotsHold(g.values, rows[..|rows| - 1], p)
    ensures var row := rows[|rows| - 1];
      && g.values[Slot(row.at, p)] == 0
      && SlotsHold(GatherRow(g, row, p).values, rows, p)
  {
    hide Slot;
    var n := |rows| - 1;
    assert forall i :: 0 <= i < n ==> Slot(rows[..n][i].at, p) != Slot(rows[n].at, p);
    WrapSmall(rows[n].val);
  }

  /** With positive rows in different slots everything agrees, whatever the sums. */
  lemma {:induction false} GatherExactly(values: seq<Uint32>, rows: seq<Row>, p: Period)
    requires |values| == SLOTS && rows != [] && Positive(rows) && OnePerSlot(rows, p)
    ensures var g := Gather(values, rows, p);
      SlotsHold(g.values, rows, p) && Bounded(g, p) && CheckPasses(g, p)
  {
    hide Slot, SlotsPerDay, CheckPasses, Wrap32, SlotsHold;
    var n := |rows| - 1;
    var row := rows[n];
    var h := if n == 0 then Gathered(Zeros(), row.val, row.val, 0, -1) else Gather(values, rows[..n], p);
    if n == 0 {
      NothingHeld(rows[..n], p);
    } else {
      GatherExactly(values, rows[..n], p);
    }
    RowHeld(h, rows, p);
    RowChecks(h, row, p);
    SlotInRange(row.at, p);
    WrapSmall(row.val);
  }

  lemma {:induction false} NothingHeld(rows: seq<Row>, p: Period)
    requires rows == []
    ensures SlotsHold(Zeros(), rows, p)
  {
  }

  // ---------- rows of the same slot ----------

  function Vals(rows: seq<Row>): nat {
    if rows == [] then 0 else Vals(rows[..|rows| - 1]) + rows[|rows| - 1].val
  }

  function SlotSum(rows: seq<Row>, s: int, p: Period): nat {
    if rows == [] then 0
    else
      var row := rows[|rows| - 1];
      SlotSum(rows[..|rows| - 1], s, p) + if Slot(row.at, p) == s then row.val else 0
  }

  /** What the gathering loop adds up: every row's slot so far, before wrap-around. */
  function RunTotal(rows: seq<Row>, p: Period): nat {
    if rows == [] then 0
    else RunTotal(rows[..|rows| - 1], p) + SlotSum(rows, Slot(rows[|rows| - 1].at, p), p)
  }

  lemma {:induction false} SlotSumZero(rows: seq<Row>, s: int, p: Period)
    requires Positive(rows)
    ensures SlotSum(rows, s, p) == 0 <==> forall i :: 0 <= i < |rows| ==> Slot(rows[i].at, p) != s
  {
    hide Slot;
    if rows != [] { SlotSumZero(rows[..|rows| - 1], s, p); }
  }

  lemma {:induction false} RunTotalExactly(rows: seq<Row>, p: Period)
    requires Positive(rows)
    ensures RunTotal(rows, p) >= Vals(rows)
    ensures RunTotal(rows, p) == Vals(rows) <==> OnePerSlot(rows, p)
  {
    hide Slot;
    if rows != [] {
      var n := |rows| - 1;
      RunTotalExactly(rows[..n], p);
      SlotSumZero(rows[..n], Slot(rows[n].at, p), p);
    }
  }

  /** Every slot holds its rows' sum, and nothing wrapped around. */
  ghost predicate Sums(g: Gathered, rows: seq<Row>, p: Period)
    requires |g.values| == SLOTS
  {
    && (forall s :: 0 <= s < SLOTS ==> g.values[s] == SlotSum(rows, s, p))
    && g.total == RunTotal(rows, p) && SumOf(g.values[..SlotsPerDay(p)]) == Vals(rows)
  }

  lemma {:induction false} RowSums(g: Gathered, rows: seq<Row>, p: Period)
    requires |g.values| == SLOTS && rows != [] && RunTotal(rows, p) < TWO32
    requires Sums(g, rows[..|rows| - 1], p)
    ensures Sums(GatherRow(g, rows[|rows| - 1], p), rows, p)
  {
    hide Slot, SlotsPerDay, SumOf, Wrap32;
    var row := rows[|rows| - 1];
    var s, m, a := Slot(row.at, p), SlotsPerDay(p), g.values;
    SlotInRange(row.at, p);
    WrapSmall(SlotSum(rows, s, p));
    WrapSmall(RunTotal(rows, p));
    SumUpdate(a[..m], s, SlotSum(rows, s, p));
    assert a[s := SlotSum(rows, s, p)][..m] == a[..m][s := SlotSum(rows, s, p)];
  }

  lemma {:induction false} GatherSums(values: seq<Uint32>, rows: seq<Row>, p: Period)
    requires |values| == SLOTS && rows != [] && RunTotal(rows, p) < TWO32
    ensures Sums(Gather(values, rows, p), rows, p)
  {
    hide Slot, Sums;
    var n := |rows| - 1;
    var h := if n == 0 then Gathered(Zeros(), rows[n].val, rows[n].val, 0, -1) else Gather(values, rows[..n], p);
    if n == 0 {
      NothingSummed(h, rows[..n], p);
    } else {
      GatherSums(values, rows[..n], p);
    }
    RowSums(h, rows, p);
  }

  lemma {:induction false} NothingSummed(g: Gathered, rows: seq<Row>, p: Period)
    requires |g.values| == SLOTS && AllZero(g.values) && g.total == 0 && rows == []
    ensures Sums(g, rows, p)
  {
    EmptySlots(g.values[..SlotsPerDay(p)]);
  }

  /** What its slot held once row i was gathered. */
  function HeldAt(rows: seq<Row>, i: nat, p: Period): nat
    requires i < |rows|
  {
    SlotSum(rows[..i + 1], Slot(rows[i].at, p), p)
  }

  /** min and max are the least and greatest of what the slots held on the way. */
  ghost predicate Extremes(g: Gathered, rows: seq<Row>, p: Period) {
    && (forall i :: 0 <= i < |rows| ==> g.min <= HeldAt(rows, i, p) <= g.max)
    && (exists i :: 0 <= i < |rows| && HeldAt(rows, i, p) == g.min)
    && (exists i :: 0 <= i < |rows| && HeldAt(rows, i, p) == g.max)
  }

  lemma {:induction false} HeldBefore(rows: seq<Row>, i: nat, p: Period)
    requires i < |rows| - 1
    ensures HeldAt(rows[..|rows| - 1], i, p) == HeldAt(rows, i, p)
  {
    assert rows[..|rows| - 1][..i + 1] == rows[..i + 1];
  }

  lemma {:induction false} HeldLast(rows: seq<Row>, p: Period)
    requires rows != []
    ensures var n := |rows| - 1;
      HeldAt(rows, n, p) == SlotSum(rows[..n], Slot(rows[n].at, p), p) + rows[n].val
  {
    hide Slot;
    assert rows[..|rows|] == rows;
  }

  lemma {:induction false} RowExtremes(g: Gathered, rows: seq<Row>, p: Period)
    requires |g.values| == SLOTS && rows != [] && HeldAt(rows, |rows| - 1, p) < TWO32
    requires var n := |rows| - 1;
      && g.values[Slot(rows[n].at, p)] == SlotSum(rows[..n], Slot(rows[n].at, p), p)
      && if n == 0 then g.min == g.max == rows[0].val else Extremes(g, rows[..n], p)
    ensures Extremes(GatherRow(g, rows[|rows| - 1], p), rows, p)
  {
    hide Slot, HeldAt, SlotSum;
    var n := |rows| - 1;
    HeldLast(rows, p);
    WrapSmall(HeldAt(rows, n, p));
    forall i: nat | i < n
      ensures HeldAt(rows[..n], i, p) == HeldAt(rows, i, p)
    {
      HeldBefore(rows, i, p);
    }
    if n == 0 { NothingInSlot(rows[..n], Slot(rows[n].at, p), p); }
  }

  lemma {:induction false} NothingInSlot(rows: seq<Row>, s: int, p: Period)
    requires rows == []
    ensures SlotSum(rows, s, p) == 0
  {
  }

  lemma {:induction false} HeldFits(rows: seq<Row>, p: Period)
    requires rows != []
    ensures HeldAt(rows, |rows| - 1, p) <= RunTotal(rows, p)
  {
    assert rows[..|rows|] == rows;
  }

  lemma {:induction false} GatherExtremes(values: seq<Uint32>, rows: seq<Row>, p: Period)
    requires |values| == SLOTS && rows != [] && RunTotal(rows, p) < TWO32
    ensures Extremes(Gather(values, rows, p), rows, p)
  {
    hide Slot, Extremes, SumOf, SlotSum;
    var n := |rows| - 1;
    HeldFits(rows, p);
    if n == 0 {
      NothingInSlot(rows[..n], Slot(rows[n].at, p), p);
      RowExtremes(Gathered(Zeros(), rows[n].val, rows[n].val, 0, -1), rows, p);
    } else {
      GatherSums(values, rows[..n], p);
      GatherExtremes(values, rows[..n], p);
      RowExtremes(Gather(values, rows[..n], p), rows, p);
    }
  }

  /** While nothing overflows, the integrity check fires for exactly the days with two rows in a slot. */
  lemma {:induction false} CheckExactly(values: seq<Uint32>, rows: seq<Row>, p: Period)
    requires |values| == SLOTS && rows != [] && Positive(rows) && RunTotal(rows, p) < TWO32
    ensures CheckPasses(Gather(values, rows, p), p) <==> OnePerSlot(rows, p)
  {
    hide Slot, SlotsPerDay, Gather, SumOf, RunTotal, Vals, MinSlot, MaxSlot, Wrap32;
    RunTotalExactly(rows, p);
    GatherSums(values, rows, p);
    WrapSmall(Vals(rows));
    if OnePerSlot(rows, p) { GatherExactly(values, rows, p); }
  }
}
