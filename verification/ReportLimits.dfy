/** The window and the day table are exact for precisely the steady periods. */
module ReportLimits {
  import opened Basics
  import opened ReportClock
  import opened ReportWindow
  import opened ReportRuns

  /** Every run leaves an exact window. */
  ghost predicate WindowExactFor(p: Period) {
    forall es: seq<Event>, ty: DataType :: es != [] && Chronological(es) && !ty.TotalType?
      ==> NodeExact(Run(es, ty, p).node, Reports(es), es[|es| - 1].at, ty, p)
  }

  /** Every run writes at most one row per slot and day. */
  ghost predicate OneRowPerSlotFor(p: Period) {
    forall es: seq<Event>, ty: DataType :: Chronological(es)
      ==> KeysAscend(Run(es, ty, p).rows, p)
  }

  lemma {:induction false} RunSnoc(es: seq<Event>, e: Event, ty: DataType, p: Period)
    ensures Run(es + [e], ty, p) == Apply(Run(es, ty, p), e, ty, p)
    ensures e.Report? ==> Reports(es + [e]) == Reports(es) + [Rep(e.at, e.v)]
    ensures !e.Report? ==> Reports(es + [e]) == Reports(es)
  {
    assert (es + [e])[..|es|] == es;
  }

  /** A slot left and entered again forgets what it had. */
  lemma {:induction false} ReenteredSlotForgets(a: nat, b: nat, c: nat, p: Period)
    requires a <= b <= c <= a + 2 * 60 * p && Day(a) == Day(b) == Day(c)
    requires Slot(a, p) == Slot(c, p) && Slot(b, p) == Slot(a, p) + 1
    ensures var es := [Report(a, 1, 0, 0), Report(b, 1, 0, 0), Report(c, 1, 0, 0)];
      !NodeExact(Run(es, SumType, p).node, Reports(es), c, SumType, p)
  {
    hide Slot, Day, NodeExact, Exact, InSlot, Run, Reports;
    var e1, e2, e3 := Report(a, 1, 0, 0), Report(b, 1, 0, 0), Report(c, 1, 0, 0);
    var r1, r2, r3 := Rep(a, 1), Rep(b, 1), Rep(c, 1);
    assert [] + [e1] == [e1] && [e1] + [e2] == [e1, e2] && [e1, e2] + [e3] == [e1, e2, e3];
    assert [] + [r1] == [r1] && [r1] + [r2] == [r1, r2] && [r1, r2] + [r3] == [r1, r2, r3];
    RunSnoc([], e1, SumType, p);
    RunSnoc([e1], e2, SumType, p);
    RunSnoc([e1, e2], e3, SumType, p);
    EmptyRun(p);
    hide Apply, AddReport;
    var d, s := Day(a), Slot(a, p);
    InSlotSnoc([], r1, d, s, p);
    InSlotSnoc([r1], r2, d, s, p);
    InSlotSnoc([r1, r2], r3, d, s, p);
    ThreeApplied(a, b, c, p);
    TwoOnes(Run([e1, e2, e3], SumType, p).node, [r1, r2, r3], d, s, p);
  }

  lemma {:induction false} EmptyRun(p: Period)
    ensures Run([], SumType, p) == Cell(None, []) && Reports([]) == []
    ensures forall d, s :: InSlot([], d, s, p) == []
  {
  }

  lemma {:induction false} ThreeApplied(a: nat, b: nat, c: nat, p: Period)
    requires a <= b <= c <= a + 2 * 60 * p && Slot(a, p) == Slot(c, p) && Slot(b, p) == Slot(a, p) + 1
    ensures var n := Apply(Apply(Apply(Cell(None, []), Report(a, 1, 0, 0), SumType, p),
                                 Report(b, 1, 0, 0), SumType, p), Report(c, 1, 0, 0), SumType, p).node;
      n.Some? && n.value.cur == 1
  {
    hide Slot;
  }

  lemma {:induction false} TwoOnes(n: Option<Window>, h: seq<Rep>, d: nat, s: nat, p: Period)
    requires h != [] && Day(h[|h| - 1].at) == d && Slot(h[|h| - 1].at, p) == s
    requires InSlot(h, d, s, p) == [1, 1] && n.Some? && n.value.cur == 1
    ensures !NodeExact(n, h, h[|h| - 1].at, SumType, p)
  {
    hide Slot, Day, InSlot;
    var vs: seq<Uint32> := [1, 1];
    assert vs[..1] == [1] && vs[..1][..0] == [];
    assert SumOf(vs[..1]) == 1;
    assert SumOf(vs) == 2;
  }

  /** A slot longer than 480 minutes can be met again on the next day within two periods. */
  lemma {:induction false} LongPeriodMerges(p: Period)
    requires p > MAX_PERIOD
    ensures var a, c := (p - 1) * 60, DAY_SEC;
      var es := [Report(a, 1, 0, 0), Report(c, 1, 0, 0)];
      a <= c && !NodeExact(Run(es, SumType, p).node, Reports(es), c, SumType, p)
  {
    hide Slot, Day, NodeExact, Exact, InSlot, Run, Reports;
    var a, c := (p - 1) * 60, DAY_SEC;
    FirstSlots(p);
    var e1, e2 := Report(a, 1, 0, 0), Report(c, 1, 0, 0);
    var r1, r2 := Rep(a, 1), Rep(c, 1);
    assert [] + [e1] == [e1] && [e1] + [e2] == [e1, e2];
    assert [] + [r1] == [r1] && [r1] + [r2] == [r1, r2];
    RunSnoc([], e1, SumType, p);
    RunSnoc([e1], e2, SumType, p);
    EmptyRun(p);
    InSlotSnoc([], r1, 1, 0, p);
    InSlotSnoc([r1], r2, 1, 0, p);
    var vs: seq<Uint32> := [];
    assert vs + [1] == [1];
    OneReport(Run([e1, e2], SumType, p).node, [r1, r2], p);
  }

  lemma {:induction false} FirstSlots(p: Period)
    requires p > MAX_PERIOD
    ensures var a := (p - 1) * 60;
      Day(a) == 0 && Slot(a, p) == 0 && Day(DAY_SEC) == 1 && Slot(DAY_SEC, p) == 0
  {
    hide Slot;
    MulMonotone(MAX_PERIOD, p, MAX_PERIOD);
    MulMonotone(MAX_PERIOD, p, p);
    SteadySlot((p - 1) * 60, p);
    SteadySlot(DAY_SEC, p);
    SecondsInMinute(p - 1, 0);
    QuotientIs(p - 1, p, 0);
    QuotientIs(0, p, 0);
  }

  lemma {:induction false} OneReport(n: Option<Window>, h: seq<Rep>, p: Period)
    requires h != [] && Day(h[|h| - 1].at) == 1 && Slot(h[|h| - 1].at, p) == 0
    requires InSlot(h, 1, 0, p) == [1] && n.Some? && n.value.cur == 2
    ensures !NodeExact(n, h, h[|h| - 1].at, SumType, p)
  {
    hide Slot, Day, InSlot;
    var vs: seq<Uint32> := [1];
    assert vs[..0] == [];
    assert SumOf(vs) == 1;
  }

  /** The window is exact over all runs if and only if the period is steady and at most 480 minutes. */
  lemma {:induction false} WindowExactIffSteady(p: Period)
    ensures WindowExactFor(p) <==> Steady(p) && p <= MAX_PERIOD
  {
    if Steady(p) && p <= MAX_PERIOD {
      forall es: seq<Event>, ty: DataType | es != [] && Chronological(es) && !ty.TotalType?
        ensures NodeExact(Run(es, ty, p).node, Reports(es), es[|es| - 1].at, ty, p)
      {
        WindowAlwaysExact(es, ty, p);
      }
    } else if Steady(p) {
      hide Run, Reports, NodeExact, Slot;
      LongPeriodMerges(p);
      var es := [Report((p - 1) * 60, 1, 0, 0), Report(DAY_SEC, 1, 0, 0)];
      assert Chronological(es) && es[|es| - 1].at == DAY_SEC;
    } else {
      hide Run, Reports, NodeExact, Slot;
      UnsteadySlot(p);
      var a, b, c := (p * p - 1) * 60 + 1, p * p * 60 + 1, (p * p + 1) * 60;
      assert Day(a) == Day(b) == Day(c) == 0;
      ReenteredSlotForgets(a, b, c, p);
      var es := [Report(a, 1, 0, 0), Report(b, 1, 0, 0), Report(c, 1, 0, 0)];
      assert Chronological(es) && es[|es| - 1].at == c;
    }
  }

  /** Two saves more than one period apart within one slot. */
  lemma {:induction false} SlotSavedTwice(a: nat, b: nat, c: nat, d: nat, p: Period)
    requires a <= b <= c <= d && b < a + 60 * p && c <= a + 2 * 60 * p && d < c + 60 * p && b + 60 * p < d
    requires Day(b) == Day(d) && Slot(b, p) == Slot(c, p) == Slot(d, p) == Slot(a, p) + 1
    ensures var es := [Report(a, 1, 0, 0), SaveDb(b), Report(c, 1, 0, 0), SaveDb(d)];
      !KeysAscend(Run(es, SumType, p).rows, p)
  {
    hide Slot, Day, Run;
    var e1, e2, e3, e4 := Report(a, 1, 0, 0), SaveDb(b), Report(c, 1, 0, 0), SaveDb(d);
    assert [] + [e1] == [e1] && [e1] + [e2] == [e1, e2] && [e1, e2] + [e3] == [e1, e2, e3];
    assert [e1, e2, e3] + [e4] == [e1, e2, e3, e4];
    EmptyRun(p);
    RunSnoc([], e1, SumType, p);
    RunSnoc([e1], e2, SumType, p);
    RunSnoc([e1, e2], e3, SumType, p);
    RunSnoc([e1, e2, e3], e4, SumType, p);
    var w := Run([e1, e2], SumType, p).node.value;
    assert w == Fresh(a, 1, SumType, p, 0, 0).(toDbIdx := Slot(b, p), toDbTime := b);
    assert Run([e1, e2], SumType, p).rows == [Row(b, 1)];
    var u := Run([e1, e2, e3], SumType, p).node.value;
    assert u.last == 1 && u.toDbIdx == Slot(b, p) && u.toDbTime == b && u.minIdx == Slot(c, p) && u.lastTime == c;
    var rows := Run([e1, e2, e3, e4], SumType, p).rows;
    assert rows == [Row(b, 1), Row(d, 1)];
    assert SlotKey(rows[0].at, p) == SlotKey(rows[1].at, p);
  }

  lemma {:induction false} UnsteadyRepeats(p: Period)
    requires !Steady(p)
    ensures !OneRowPerSlotFor(p)
  {
    hide Run, Slot, KeysAscend;
    UnsteadySlotLong(p);
    var m := p * p;
    var a, b, c, d := (m - p - 1) * 60 + 30, (m - p) * 60 + 1, (m - 1) * 60 + 30, (m + 1) * 60;
    assert Day(b) == Day(d) == 0;
    SlotSavedTwice(a, b, c, d, p);
    var es := [Report(a, 1, 0, 0), SaveDb(b), Report(c, 1, 0, 0), SaveDb(d)];
    assert Chronological(es);
  }

  /** At most one row per slot and day over all runs if and only if the period is steady. */
  lemma {:induction false} OneRowIffSteady(p: Period)
    ensures OneRowPerSlotFor(p) <==> Steady(p)
  {
    hide Run, Chronological, KeysAscend;
    if Steady(p) {
      forall es: seq<Event>, ty: DataType | Chronological(es)
        ensures KeysAscend(Run(es, ty, p).rows, p)
      {
        RowsAtMostOnce(es, ty, p);
      }
    } else {
      UnsteadyRepeats(p);
    }
  }
}
