/** From reports to the decoded day record, over any run of reports, recycling and database passes. */
module DayPipeline {
  import opened Basics
  import opened ReportClock
  import opened ReportWindow
  import opened ReportRuns
  import opened DayRecord
  import DayRows

  /** The rows inserted on day d, in the order of insertion. */
  function OfDay(rows: seq<Row>, d: nat): (r: seq<Row>)
    ensures forall row :: row in r <==> row in rows && Day(row.at) == d
  {
    if rows == [] then []
    else
      var row := rows[|rows| - 1];
      var r := OfDay(rows[..|rows| - 1], d);
      if Day(row.at) == d then r + [row] else r
  }

  lemma {:induction false} OfDayOnePerSlot(rows: seq<Row>, d: nat, p: Period)
    requires KeysAscend(rows, p)
    ensures DayRows.OnePerSlot(OfDay(rows, d), p)
    ensures forall row :: row in OfDay(rows, d) ==> SlotKey(row.at, p) <= SlotKey(rows[|rows| - 1].at, p)
  {
    hide Slot, Day;
    if rows != [] {
      var n := |rows| - 1;
      OfDayOnePerSlot(rows[..n], d, p);
      var r := OfDay(rows[..n], d);
      forall i | 0 <= i < |r|
        ensures SlotKey(r[i].at, p) < SlotKey(rows[n].at, p)
      {
        assert r[i] in r && r[i] in rows[..n];
        assert SlotKey(r[i].at, p) <= SlotKey(rows[n - 1].at, p) < SlotKey(rows[n].at, p);
      }
    }
  }

  /** What a slot of the decoded record can hold: nothing, or the aggregate of the slot before. */
  ghost predicate Truthful(report: seq<Uint32>, h: seq<Rep>, d: nat, ty: DataType, p: Period) {
    forall s :: 0 <= s < |report| ==> report[s] == 0 || report[s] == Aggregate(InSlot(h, d, s - 1, p), ty)
  }

  lemma {:induction false} HeldTruthful(values: seq<Uint32>, rows: seq<Row>, h: seq<Rep>, d: nat,
      ty: DataType, p: Period)
    requires |values| == SLOTS && DayRows.SlotsHold(values, rows, p)
    requires forall row :: row in rows ==> row.val == Aggregate(InSlot(h, d, Slot(row.at, p) - 1, p), ty)
    ensures Truthful(values, h, d, ty, p)
  {
    hide Slot, InSlot, Aggregate;
    forall s | 0 <= s < SLOTS && values[s] != 0
      ensures values[s] == Aggregate(InSlot(h, d, s - 1, p), ty)
    {
      var i :| 0 <= i < |rows| && Slot(rows[i].at, p) == s;
      assert rows[i] in rows;
    }
  }

  lemma {:induction false} RowsStand(values: seq<Uint32>, rows: seq<Row>, p: Period)
    requires |values| == SLOTS && DayRows.SlotsHold(values, rows, p)
    ensures forall row :: row in rows ==> values[Slot(row.at, p)] == row.val
  {
    hide Slot;
  }

  /**
   For the selectable steady periods, the record of any day decodes to true aggregates, every row
   written that day stands in its slot, and the totals recomputed by the decoder are the stored ones.
   */
  lemma {:induction false} DecodedIsReported(es: seq<Event>, values: seq<Uint32>, report: seq<Uint32>,
      d: nat, ty: DataType, p: Period)
    requires Chronological(es) && !ty.TotalType? && Steady(p) && ValidPeriod(p)
    requires |values| == |report| == SLOTS && AllZero(report)
    requires OfDay(Run(es, ty, p).rows, d) != []
    ensures var g := DayRows.Gather(values, OfDay(Run(es, ty, p).rows, d), p);
      var o := Decode(Record(g.values[..SlotsPerDay(p)], p), report, ty);
      && o == Done(Some(Reading(g.values, g.min, g.max, g.total)))
      && Truthful(g.values, Reports(es), d, ty, p)
      && forall row :: row in Run(es, ty, p).rows && Day(row.at) == d ==> g.values[Slot(row.at, p)] == row.val
  {
    hide Run, Reports, Slot, Day, InSlot, Aggregate, SlotsPerDay, Record, Decode, DayRows.Gather,
         DayRows.SlotsHold, Truthful, MinSlot, MaxSlot, SumOf, OfDay, KeysAscend, SlotKey, Remembers, Wrap32;
    var all := Run(es, ty, p).rows;
    var rows := OfDay(all, d);
    RowsSound(es, ty, p);
    RowsAtMostOnce(es, ty, p);
    OfDayOnePerSlot(all, d, p);
    forall i | 0 <= i < |rows|
      ensures rows[i].val > 0
    {
      assert rows[i] in rows;
    }
    DayRows.GatherExactly(values, rows, p);
    var g := DayRows.Gather(values, rows, p);
    HeldTruthful(g.values, rows, Reports(es), d, ty, p);
    RowsStand(g.values, rows, p);
    RoundTrip(report, g.values[..SlotsPerDay(p)], p, ty);
    assert g.values[..SlotsPerDay(p)] + report[SlotsPerDay(p)..] == g.values;
  }
}
