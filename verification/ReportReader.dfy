/** What the alarm checker reads from the window of a one-minute attribute, and of a cumulative one. */
module ReportReader {
  import opened Basics
  import opened ReportClock
  import opened ReportWindow
  import opened ReportRuns
  import opened ReportTotals

  datatype Adapted = Adapted(last: Uint32, pre: Uint32)

  /** AdaptReportValue; minute is the checker's minute of the day. */
  function Adapt(w: Window, now: nat, minute: nat): Adapted {
    if w.dataType.TotalType? then Adapted(if w.pre >= w.last then w.pre else w.last, w.pre)
    else if now >= w.lastTime + DAY_SEC then Adapted(0, 0)
    else if minute == w.minIdx then Adapted(w.last, w.pre)
    else if (w.minIdx + 1) % DAY_MIN == minute then Adapted(w.cur, w.last)
    else if (w.minIdx + 2) % DAY_MIN == minute then Adapted(0, w.cur)
    else Adapted(0, 0)
  }

  /** The aggregate of the minute before the one now is in. */
  function MinuteBefore(h: seq<Rep>, now: nat, ty: DataType): Uint32 {
    if MinuteOfDay(now) > 0 then Aggregate(InSlot(h, Day(now), MinuteOfDay(now) - 1, 1), ty)
    else if Day(now) > 0 then Aggregate(InSlot(h, Day(now) - 1, DAY_MIN - 1, 1), ty)
    else 0
  }

  /** The reader's minute is the last report's minute again, one day on and less than 24 hours later. */
  predicate DayOld(t: nat, now: nat) {
    now < t + DAY_SEC && Day(now) != Day(t) && MinuteOfDay(now) == Slot(t, 1)
  }

  /** Both lie in the first minute of the same day: the window has dropped yesterday's last minute. */
  predicate FirstMinute(t: nat, now: nat) {
    Day(now) == Day(t) && MinuteOfDay(now) == 0 && Slot(t, 1) == 0
  }

  /** The day-old case needs 23 hours 59 minutes of silence. */
  lemma {:induction false} DayOldIsSilent(t: nat, now: nat)
    requires t <= now && DayOld(t, now)
    ensures t + DAY_SEC - 60 <= now < t + DAY_SEC
  {
    OneMinuteSlot(t);
  }

  lemma {:induction false} SameDayMinutes(t: nat, now: nat)
    requires t <= now && Day(t) == Day(now)
    ensures Slot(t, 1) <= MinuteOfDay(now)
  {
    OneMinuteSlot(t);
  }

  lemma {:induction false} NextDayMinutes(t: nat, now: nat)
    requires t <= now < t + DAY_SEC && Day(t) != Day(now)
    ensures Day(now) == Day(t) + 1 && MinuteOfDay(now) <= Slot(t, 1)
  {
    OneMinuteSlot(t);
  }

  lemma {:induction false} LongAgo(t: nat, now: nat)
    requires now >= t + DAY_SEC
    ensures Day(now) > Day(t)
    ensures MinuteOfDay(now) == 0 && Day(now) == Day(t) + 1 ==> Slot(t, 1) == 0
  {
    OneMinuteSlot(t);
  }

  /** Nothing was reported in the minute before now when that minute lies after the last report's slot. */
  lemma {:induction false} NothingBefore(h: seq<Rep>, now: nat, ty: DataType)
    requires InOrder(h) && h != []
    requires var t := h[|h| - 1].at;
      if MinuteOfDay(now) > 0 then Earlier(t, Day(now), MinuteOfDay(now) - 1, 1)
      else Day(now) > 0 ==> Earlier(t, Day(now) - 1, DAY_MIN - 1, 1)
    ensures MinuteBefore(h, now, ty) == 0
  {
    hide Slot, Day, MinuteOfDay;
    if MinuteOfDay(now) > 0 {
      NothingYet(h, Day(now), MinuteOfDay(now) - 1, 1);
    } else if Day(now) > 0 {
      NothingYet(h, Day(now) - 1, DAY_MIN - 1, 1);
    }
  }

  /**
   The adapted last value is the aggregate of exactly the previous minute's reports, outside
   the two named cases; in those it is yesterday's, respectively 0.
   */
  lemma {:induction false} AdaptedIsMinuteBefore(w: Window, h: seq<Rep>, now: nat, ty: DataType)
    requires h != [] && InOrder(h) && Exact(w, h, ty, 1) && !ty.TotalType? && h[|h| - 1].at <= now
    ensures var t, a := h[|h| - 1].at, Adapt(w, now, MinuteOfDay(now));
      if DayOld(t, now) then a.last == w.last && MinuteBefore(h, now, ty) == 0
      else if FirstMinute(t, now) then a.last == 0
      else a.last == MinuteBefore(h, now, ty)
  {
    hide Slot, Day, MinuteOfDay, InSlot, TwoBack, Aggregate;
    var t := h[|h| - 1].at;
    var k, m := Slot(t, 1), MinuteOfDay(now);
    if now >= t + DAY_SEC {
      LongAgo(t, now);
      NothingBefore(h, now, ty);
    } else if Day(t) == Day(now) {
      SameDayMinutes(t, now);
      if m == k {
        if k == 0 { NoSlotBelowZero(h, Day(t), ty); }
      } else if m > k + 1 {
        NothingBefore(h, now, ty);
      }
    } else {
      NextDayMinutes(t, now);
      if m == 0 {
        if k != DAY_MIN - 1 { NothingBefore(h, now, ty); }
      } else {
        NothingBefore(h, now, ty);
      }
    }
  }

  lemma {:induction false} NoSlotBelowZero(h: seq<Rep>, d: nat, ty: DataType)
    ensures InSlot(h, d, -1, 1) == [] && Aggregate([], ty) == 0
  {
    if h != [] { NoSlotBelowZero(h[..|h| - 1], d, ty); }
  }

  // ---------- the value before ----------

  /** The aggregate of the minute two before the one now is in. */
  function TwoMinutesBefore(h: seq<Rep>, now: nat, ty: DataType): Uint32 {
    if MinuteOfDay(now) > 1 then Aggregate(InSlot(h, Day(now), MinuteOfDay(now) - 2, 1), ty)
    else if Day(now) > 0 then Aggregate(InSlot(h, Day(now) - 1, DAY_MIN + MinuteOfDay(now) - 2, 1), ty)
    else 0
  }

  /** In the first two minutes of a day that has a report, yesterday's values are gone. */
  predicate FirstMinutes(t: nat, now: nat) {
    Day(now) == Day(t) && MinuteOfDay(now) <= 1
  }

  /** In the minute of the last report, the value two back was dropped by a gap of over two minutes. */
  predicate Dropped(h: seq<Rep>, now: nat) {
    h != [] && Day(now) == Day(h[|h| - 1].at) && MinuteOfDay(now) == Slot(h[|h| - 1].at, 1) &&
    var d, s: int := Day(now), MinuteOfDay(now);
    InSlot(h, d, s - 1, 1) == [] && InSlot(h, d, s, 1) != [] && InSlot(h, d, s - 2, 1) != []
    && FirstIn(h, d, s, 1) > LastIn(h, d, s - 2, 1) + 2 * 60
  }

  lemma {:induction false} NoSlotMinusTwo(h: seq<Rep>, d: nat, ty: DataType)
    ensures Aggregate(InSlot(h, d, -2, 1), ty) == 0
  {
    if h != [] { NoSlotMinusTwo(h[..|h| - 1], d, ty); }
  }

  lemma {:induction false} NothingTwoBefore(h: seq<Rep>, now: nat, ty: DataType)
    requires InOrder(h) && h != []
    requires var t := h[|h| - 1].at;
      if MinuteOfDay(now) > 1 then Earlier(t, Day(now), MinuteOfDay(now) - 2, 1)
      else Day(now) > 0 ==> Earlier(t, Day(now) - 1, DAY_MIN + MinuteOfDay(now) - 2, 1)
    ensures TwoMinutesBefore(h, now, ty) == 0
  {
    hide Slot, Day, MinuteOfDay;
    if MinuteOfDay(now) > 1 {
      NothingYet(h, Day(now), MinuteOfDay(now) - 2, 1);
    } else if Day(now) > 0 {
      NothingYet(h, Day(now) - 1, DAY_MIN + MinuteOfDay(now) - 2, 1);
    }
  }

  lemma {:induction false} LongAgoTwo(t: nat, now: nat)
    requires now >= t + DAY_SEC
    ensures if MinuteOfDay(now) > 1 then Earlier(t, Day(now), MinuteOfDay(now) - 2, 1)
      else Day(now) > 0 ==> Earlier(t, Day(now) - 1, DAY_MIN + MinuteOfDay(now) - 2, 1)
  {
    OneMinuteSlot(t);
  }

  /**
   The adapted previous value is the aggregate of the minute before the last, except for the
   day-old case, where it is the window's, and the two in which it is 0.
   */
  lemma {:induction false} AdaptedPreIsTwoBefore(w: Window, h: seq<Rep>, now: nat, ty: DataType)
    requires h != [] && InOrder(h) && Exact(w, h, ty, 1) && !ty.TotalType? && h[|h| - 1].at <= now
    ensures var t, a := h[|h| - 1].at, Adapt(w, now, MinuteOfDay(now));
      a.pre == if DayOld(t, now) then w.pre
               else if FirstMinutes(t, now) || Dropped(h, now) then 0
               else TwoMinutesBefore(h, now, ty)
  {
    hide Slot, Day, MinuteOfDay, InSlot, FirstIn, LastIn, Aggregate;
    var t := h[|h| - 1].at;
    var k, m := Slot(t, 1), MinuteOfDay(now);
    NoSlotBelowZero(h, Day(t), ty);
    NoSlotMinusTwo(h, Day(t), ty);
    if now >= t + DAY_SEC {
      LongAgoTwo(t, now);
      NothingTwoBefore(h, now, ty);
    } else if Day(t) == Day(now) {
      SameDayMinutes(t, now);
      if m > k + 2 { NothingTwoBefore(h, now, ty); }
    } else {
      NextDayMinutes(t, now);
      if m > 1 || (m == 0 && k < DAY_MIN - 2) || (m == 1 && k < DAY_MIN - 1) { NothingTwoBefore(h, now, ty); }
    }
  }

  // ---------- any run ----------

  /** Silence shorter than this since a recycling pass leaves no node of the day before: 23 hours 49 minutes. */
  const RECYCLE_REACH := DAY_SEC - 60 - 600

  ghost predicate RecycledLately(es: seq<Event>, now: nat) {
    exists k :: 0 <= k < |es| && es[k].Recycle? && now <= es[k].at + RECYCLE_REACH
  }

  /** The day-old case needs recycling to have stopped. */
  lemma {:induction false} RecyclingExcludesDayOld(es: seq<Event>, now: nat, ty: DataType)
    requires es != [] && Chronological(es) && !ty.TotalType? && es[|es| - 1].at <= now
    requires Run(es, ty, 1).node.Some? && RecycledLately(es, now)
    ensures !DayOld(Run(es, ty, 1).node.value.lastTime, now)
  {
    hide Run, DayOld;
    NodeTimes(es, ty, 1);
    var k :| 0 <= k < |es| && es[k].Recycle? && now <= es[k].at + RECYCLE_REACH;
    SurvivesRecycling(es, ty, 1, k);
    var t := Run(es, ty, 1).node.value.lastTime;
    if DayOld(t, now) {
      DayOldIsSilent(t, now);
      assert false;
    }
  }

  /** Where the reader can be wrong after a run. */
  ghost predicate Misread(es: seq<Event>, now: nat) {
    var h := Reports(es);
    h != [] &&
    (FirstMinute(h[|h| - 1].at, now) || (DayOld(h[|h| - 1].at, now) && !RecycledLately(es, now)))
  }

  /** Over any run of reports, recycling and database passes the reader sees the previous minute. */
  lemma {:induction false} ReaderSeesMinuteBefore(es: seq<Event>, now: nat, ty: DataType)
    requires es != [] && Chronological(es) && !ty.TotalType? && es[|es| - 1].at <= now
    requires Run(es, ty, 1).node.Some?
    ensures Reports(es) != []
    ensures Misread(es, now) ||
      Adapt(Run(es, ty, 1).node.value, now, MinuteOfDay(now)).last == MinuteBefore(Reports(es), now, ty)
  {
    hide DayOld, FirstMinute, Adapt, MinuteBefore, RecycledLately, TwoBack, InSlot, Aggregate, Run, Reports;
    WindowAlwaysExact(es, ty, 1);
    ReportsInOrder(es);
    AdaptedIsMinuteBefore(Run(es, ty, 1).node.value, Reports(es), now, ty);
    if RecycledLately(es, now) { RecyclingExcludesDayOld(es, now, ty); }
  }

  /** The previous value over any run: the minute before the last, but for the two cases in which it is 0. */
  lemma {:induction false} ReaderSeesTwoBefore(es: seq<Event>, now: nat, ty: DataType)
    requires es != [] && Chronological(es) && !ty.TotalType? && es[|es| - 1].at <= now
    requires Run(es, ty, 1).node.Some? && !Misread(es, now)
    ensures Reports(es) != []
    ensures var h := Reports(es);
      Adapt(Run(es, ty, 1).node.value, now, MinuteOfDay(now)).pre ==
        if FirstMinutes(h[|h| - 1].at, now) || Dropped(h, now) then 0 else TwoMinutesBefore(h, now, ty)
  {
    hide DayOld, FirstMinute, FirstMinutes, Dropped, Adapt, TwoMinutesBefore, RecycledLately, TwoBack, InSlot,
         Aggregate, Run, Reports;
    WindowAlwaysExact(es, ty, 1);
    ReportsInOrder(es);
    AdaptedPreIsTwoBefore(Run(es, ty, 1).node.value, Reports(es), now, ty);
    if RecycledLately(es, now) { RecyclingExcludesDayOld(es, now, ty); }
  }

  /** A recycled node had nothing to say: the previous two minutes are empty. */
  lemma {:induction false} RecycledSaysNothing(es: seq<Event>, now: nat, ty: DataType)
    requires es != [] && Chronological(es) && !ty.TotalType? && es[|es| - 1].at <= now
    requires Run(es, ty, 1).node.None?
    ensures MinuteBefore(Reports(es), now, ty) == 0 && TwoMinutesBefore(Reports(es), now, ty) == 0
  {
    hide Exact, MinuteBefore, TwoMinutesBefore, Slot, Day, MinuteOfDay;
    WindowAlwaysExact(es, ty, 1);
    ReportsInOrder(es);
    var h := Reports(es);
    if h != [] {
      TenMinutesAgo(h[|h| - 1].at, now);
      NothingBefore(h, now, ty);
      NothingTwoBefore(h, now, ty);
    } else {
      EmptyBefore(now, ty);
    }
  }

  lemma {:induction false} TenMinutesAgo(t: nat, now: nat)
    requires t + 600 <= now
    ensures if MinuteOfDay(now) > 0 then Earlier(t, Day(now), MinuteOfDay(now) - 1, 1)
      else Day(now) > 0 ==> Earlier(t, Day(now) - 1, DAY_MIN - 1, 1)
    ensures if MinuteOfDay(now) > 1 then Earlier(t, Day(now), MinuteOfDay(now) - 2, 1)
      else Day(now) > 0 ==> Earlier(t, Day(now) - 1, DAY_MIN + MinuteOfDay(now) - 2, 1)
  {
    OneMinuteSlot(t);
  }

  lemma {:induction false} EmptyBefore(now: nat, ty: DataType)
    ensures MinuteBefore([], now, ty) == 0 && TwoMinutesBefore([], now, ty) == 0
  {
  }

  // ---------- cumulative attributes ----------

  /**
   At any time and minute the reader of a cumulative node finds what had been reported before the
   last report's slot, and before the slot before that; once the sums wrap, the greater of both for the last value.
   */
  lemma {:induction false} AdaptedIsTotalBefore(w: Window, h: seq<Rep>, now: nat, minute: nat, p: Period)
    requires h != [] && LastIsEarlier(w, h, p)
    ensures var a, t := Adapt(w, now, minute), h[|h| - 1].at;
      var last, pre := SumEarlier(h, Day(t), Slot(t, p), p), SumEarlier(h, Day(t), Slot(t, p) - 1, p);
      && a.pre == Wrap32(pre)
      && (a.last == Wrap32(last) <==> Wrap32(pre) <= Wrap32(last))
      && (Wrap32(pre) > Wrap32(last) ==> a.last == Wrap32(pre))
      && (SumAll(h) < TWO32 ==> a.last == last && a.pre == pre)
  {
    hide Slot, Day, SumEarlier, SumAll, Wrap32;
    var t := h[|h| - 1].at;
    EarlierAscends(h, Day(t), Slot(t, p), p);
    if SumAll(h) < TWO32 {
      WrapSmall(SumEarlier(h, Day(t), Slot(t, p), p));
      WrapSmall(SumEarlier(h, Day(t), Slot(t, p) - 1, p));
    }
  }

  /** Over any run of a cumulative attribute whose reports fit a word. */
  lemma {:induction false} ReaderSeesTotalBefore(es: seq<Event>, now: nat, minute: nat, p: Period)
    requires Chronological(es) && Steady(p) && p <= MAX_PERIOD
    requires Reports(es) != [] && SumAll(Reports(es)) < TWO32
    ensures Run(es, TotalType, p).node.Some?
    ensures var a, h := Adapt(Run(es, TotalType, p).node.value, now, minute), Reports(es);
      var t := h[|h| - 1].at;
      && a.last == SumEarlier(h, Day(t), Slot(t, p), p)
      && a.pre == SumEarlier(h, Day(t), Slot(t, p) - 1, p)
  {
    hide Adapt, Run, Reports, Slot, Day, SumAll, SumEarlier, LastIsEarlier;
    TotalLastExact(es, p);
    AdaptedIsTotalBefore(Run(es, TotalType, p).node.value, Reports(es), now, minute, p);
  }

  // ---------- the two failures ----------

  /** A run of two reports. */
  function Two(a: nat, v: Uint32, b: nat, w: Uint32): seq<Event> {
    [Report(a, v, 0, 0), Report(b, w, 0, 0)]
  }

  lemma {:induction false} TwoRun(a: nat, v: Uint32, b: nat, w: Uint32, ty: DataType)
    ensures Run(Two(a, v, b, w), ty, 1).node == Some(AddReport(Fresh(a, v, ty, 1, 0, 0), b, w, ty, 1))
    ensures Reports(Two(a, v, b, w)) == [Rep(a, v), Rep(b, w)]
  {
    hide AddReport, Fresh;
    var es := Two(a, v, b, w);
    assert es[..1] == [Report(a, v, 0, 0)] && es[..1][..0] == [];
    assert Run(es[..1], ty, 1).node == Some(Fresh(a, v, ty, 1, 0, 0));
    assert Reports(es[..1]) == [Rep(a, v)];
  }

  /** Reports in the last minute of a day and the first of the next: a reader in that minute finds 0 instead of 5. */
  lemma {:induction false} FirstMinuteLoses()
    ensures var es := Two(86370, 5, 86410, 7);
      && Run(es, SumType, 1).node.Some?
      && Adapt(Run(es, SumType, 1).node.value, 86450, MinuteOfDay(86450)).last == 0
      && MinuteBefore(Reports(es), 86450, SumType) == 5
  {
    hide InSlot, Aggregate, Run, Reports;
    TwoRun(86370, 5, 86410, 7, SumType);
    var h := [Rep(86370, 5), Rep(86410, 7)];
    assert [Rep(86370, 5)] + [Rep(86410, 7)] == h && [] + [Rep(86370, 5)] == [Rep(86370, 5)];
    InSlotSnoc([], Rep(86370, 5), 0, DAY_MIN - 1, 1);
    InSlotSnoc([Rep(86370, 5)], Rep(86410, 7), 0, DAY_MIN - 1, 1);
    OneValue(0, DAY_MIN - 1, 5);
  }

  lemma {:induction false} OneValue(d: nat, s: int, v: Uint32)
    ensures InSlot([], d, s, 1) + [v] == [v] && Aggregate([v], SumType) == v
    ensures InSlot([], d, s, 1) == []
  {
    hide Slot, Day;
    var vs: seq<Uint32> := [v];
    assert vs[..0] == [];
    assert SumOf(vs) == v;
    WrapSmall(v);
  }

  /** Two reports, then silence without any recycling pass: a day later the reader finds 7 for an empty minute. */
  lemma {:induction false} DayOldShowsYesterday()
    ensures var es := Two(5970, 7, 6030, 5);
      && Run(es, SumType, 1).node.Some?
      && DayOld(6030, 92400)
      && Adapt(Run(es, SumType, 1).node.value, 92400, MinuteOfDay(92400)).last == 7
      && MinuteBefore(Reports(es), 92400, SumType) == 0
  {
    hide InSlot, Aggregate, Run, Reports;
    TwoRun(5970, 7, 6030, 5, SumType);
    var h := [Rep(5970, 7), Rep(6030, 5)];
    NothingBefore(h, 92400, SumType);
  }
}
