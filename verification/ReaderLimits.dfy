/** The reader is right for precisely the one-minute attributes: it takes its minute of the day for a slot number. */
module ReaderLimits {
  import opened Basics
  import opened ReportClock
  import opened ReportLimits
  import opened ReportReader
  import opened ReportRuns
  import opened ReportWindow

  /** The aggregate of the period before the one now is in. */
  function PeriodBefore(h: seq<Rep>, now: nat, ty: DataType, p: Period): Uint32 {
    var s := MinuteOfDay(now) / p;
    if s > 0 then Aggregate(InSlot(h, Day(now), s - 1, p), ty)
    else if Day(now) > 0 then Aggregate(InSlot(h, Day(now) - 1, (DAY_MIN - 1) / p, p), ty)
    else 0
  }

  lemma {:induction false} PeriodIsMinute(h: seq<Rep>, now: nat, ty: DataType)
    ensures PeriodBefore(h, now, ty, 1) == MinuteBefore(h, now, ty)
  {
  }

  lemma {:induction false} SlotBelowMinute(t: nat, now: nat, p: Period)
    requires Steady(p) && t <= now && Day(t) == Day(now)
    ensures Slot(t, p) <= MinuteOfDay(now)
  {
    hide Slot;
    assert MinuteOfDay(t) <= MinuteOfDay(now);
    hide MinuteOfDay, Day;
    if p == 1 {
      OneMinuteSlot(t);
    } else {
      SteadySlot(t, p);
      QuotientBelow(MinuteOfDay(t), p);
    }
  }

  lemma {:induction false} QuotientBelow(x: nat, p: Period)
    ensures x / p <= x
  {
    QuotientBounds(x, p);
    MulMonotone(1, p, x / p);
  }

  /** On the day of the last report and for every steady period, the reader finds the slot numbered minute - 1. */
  lemma {:induction false} ReaderTakesMinuteForSlot(w: Window, h: seq<Rep>, now: nat, ty: DataType, p: Period)
    requires h != [] && InOrder(h) && Exact(w, h, ty, p) && !ty.TotalType? && Steady(p)
    requires h[|h| - 1].at <= now && Day(h[|h| - 1].at) == Day(now)
    ensures Adapt(w, now, MinuteOfDay(now)).last == Aggregate(InSlot(h, Day(now), MinuteOfDay(now) - 1, p), ty)
  {
    hide Slot, MinuteOfDay, InSlot, TwoBack, Aggregate;
    var t := h[|h| - 1].at;
    var k, m := Slot(t, p), MinuteOfDay(now);
    assert now < t + DAY_SEC;
    SlotBelowMinute(t, now, p);
    if m > k + 1 {
      NothingYet(h, Day(now), m - 1, p);
      EmptyAggregate(ty);
    }
  }

  /** Whenever it reads a node that is not misread, the reader finds the period before. */
  ghost predicate ReaderExactFor(p: Period) {
    forall es: seq<Event>, ty: DataType, now: nat | es != [] && Chronological(es) && !ty.TotalType?
      && es[|es| - 1].at <= now && Run(es, ty, p).node.Some? && !Misread(es, now)
      :: Adapt(Run(es, ty, p).node.value, now, MinuteOfDay(now)).last == PeriodBefore(Reports(es), now, ty, p)
  }

  /** One report of 5, half a minute into the first period. */
  function Lone(): seq<Event> {
    [Report(30, 5, 0, 0)]
  }

  /** Half a minute into the second period. */
  function NextPeriod(p: Period): nat {
    p * 60 + 30
  }

  /** A reader in the second period finds 0 instead of 5. */
  lemma {:induction false} LonePeriodLost(p: Period)
    requires p > 1
    ensures var es, now := Lone(), NextPeriod(p);
      && Chronological(es) && es[|es| - 1].at <= now && !Misread(es, now)
      && Run(es, SumType, p).node.Some?
      && Adapt(Run(es, SumType, p).node.value, now, MinuteOfDay(now)).last == 0
      && PeriodBefore(Reports(es), now, SumType, p) == 5
  {
    hide Run, Reports, InSlot, Aggregate;
    var es, now, e, r := Lone(), NextPeriod(p), Report(30, 5, 0, 0), Rep(30, 5);
    assert es == [] + [e] && [] + [r] == [r];
    RunSnoc([], e, SumType, p);
    EmptyRun(p);
    InSlotSnoc([], r, 0, 0, p);
    OneValueIn(5);
    SecondPeriod(p);
  }

  lemma {:induction false} OneValueIn(v: Uint32)
    ensures [] + [v] == [v] && Aggregate([v], SumType) == v
  {
    OneValue(0, 0, v);
    assert InSlot([], 0, 0, 1) == [];
  }

  lemma {:induction false} SecondPeriod(p: Period)
    requires p > 1
    ensures Day(30) == 0 && Slot(30, p) == 0 && Slot(30, 1) == 0
    ensures Day(NextPeriod(p)) == 0 && MinuteOfDay(NextPeriod(p)) == p && p / p == 1
  {
    QuotientIs(0, p, 0);
    QuotientIs(p, p, 1);
    SecondsInMinute(p, 30);
  }

  /** Outside the named cases the reader is right over all runs if and only if the period is one minute. */
  lemma {:induction false} ReaderExactIffOneMinute(p: Period)
    ensures ReaderExactFor(p) <==> p == 1
  {
    hide Run, Reports, Adapt, PeriodBefore, MinuteBefore, MinuteOfDay, Misread, NextPeriod;
    if p == 1 {
      forall es: seq<Event>, ty: DataType, now: nat | es != [] && Chronological(es) && !ty.TotalType?
        && es[|es| - 1].at <= now && Run(es, ty, p).node.Some? && !Misread(es, now)
        ensures Adapt(Run(es, ty, p).node.value, now, MinuteOfDay(now)).last == PeriodBefore(Reports(es), now, ty, p)
      {
        ReaderSeesMinuteBefore(es, now, ty);
        PeriodIsMinute(Reports(es), now, ty);
      }
    } else {
      LonePeriodLost(p);
    }
  }
}
