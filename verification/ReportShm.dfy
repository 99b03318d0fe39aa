/** The shared-memory node of one (attribute, machine), updated in place. */
module ReportShm {
  import opened Basics
  import opened ReportClock
  import opened ReportWindow
  import Reader = ReportReader
  import Runs = ReportRuns
  import opened ReportTotals

  /** A period for which the window is exact. */
  predicate Regular(p: Period) {
    Steady(p) && p <= MAX_PERIOD
  }

  /** The window is exact for the reports, whatever their type. */
  ghost predicate Holds(w: Window, h: seq<Rep>, ty: DataType, p: Period)
    requires h != []
  {
    if ty.TotalType? then LastIsEarlier(w, h, p) && w.period == p else Exact(w, h, ty, p)
  }

  class WarnAttrNode {
    var preLastVal: Uint32
    var lastVal: Uint32
    var curVal: Uint32
    var minIdx: int
    var lastReportTime: nat
    var dataType: DataType
    var staticTime: Period
    var lastToDbIdx: int
    var lastToDbTime: int
    ghost var history: seq<Rep>  // the reports of this node

    function State(): Window
      reads this
    {
      Window(preLastVal, lastVal, curVal, minIdx, lastReportTime, dataType, staticTime, lastToDbIdx, lastToDbTime)
    }

    /** The window holds the reports' aggregates, or their sums, and its period is one that keeps them. */
    ghost predicate Valid()
      reads this
    {
      history != [] && InOrder(history) && Holds(State(), history, dataType, staticTime) && Regular(staticTime)
    }

    /** A first report; the database marks are whatever the table slot held. */
    constructor (now: nat, v: Uint32, ty: DataType, p: Period, toDbIdx: int, toDbTime: int)
      ensures State() == Fresh(now, v, ty, p, toDbIdx, toDbTime) && history == [Rep(now, v)]
      ensures Regular(p) ==> Valid()
    {
      history := [Rep(now, v)];
      preLastVal, lastVal, curVal := 0, 0, v;
      dataType, staticTime := ty, p;
      minIdx, lastReportTime := Slot(now, p), now;
      lastToDbIdx, lastToDbTime := toDbIdx, toDbTime;
      new;
      if Regular(p) { FirstHolds(State(), Rep(now, v), ty, p); }
    }

    /** Nothing is carried over but a cumulative count. */
    method Restart(v: Uint32, ty: DataType)
      modifies `preLastVal, `lastVal, `curVal
      ensures State() == Restarted(old(State()), v, ty)
    {
      if ty.TotalType? {
        preLastVal := curVal;
        lastVal := curVal;
        curVal := Wrap32(curVal + v);
      } else {
        preLastVal := 0;
        lastVal := 0;
        curVal := v;
      }
    }

    /** AddReportToWarnAttrShm on an existing node; idx is the slot of now. */
    method AddReport(now: nat, v: Uint32, idx: int, ty: DataType, p: Period)
      requires idx == Slot(now, p)
      modifies this
      ensures State() == ReportWindow.AddReport(old(State()), now, v, ty, p)
      ensures history == old(history) + [Rep(now, v)]
      ensures old(Valid()) && old(dataType) == ty && old(staticTime) == p && old(lastReportTime) <= now ==> Valid()
    {
      hide Slot, Holds, ReportWindow.AddReport;
      if Valid() && dataType == ty && staticTime == p && lastReportTime <= now {
        NextHolds(State(), history, Rep(now, v), ty, p);
        KeepsType(State(), now, v, ty, p);
      }
      Update(now, v, idx, ty, p);
      history := history + [Rep(now, v)];
    }

    /** The branches of AddReportToWarnAttrShm. */
    method Update(now: nat, v: Uint32, idx: int, ty: DataType, p: Period)
      requires idx == Slot(now, p)
      modifies this
      ensures State() == ReportWindow.AddReport(old(State()), now, v, ty, p) && history == old(history)
    {
      hide Slot, Wrap32;
      dataType := ty;
      if now > lastReportTime + p * 60 * 2 {
        Restart(v, ty);
      } else if minIdx == idx {
        if ty.MinType? {
          if v < curVal {
            curVal := v;
          }
        } else if ty.MaxType? {
          if v > curVal {
            curVal := v;
          }
        } else if ty.LastType? {
          curVal := v;
        } else {
          curVal := Wrap32(curVal + v);
        }
      } else if minIdx + 1 == idx {
        preLastVal := lastVal;
        lastVal := curVal;
        curVal := if ty.TotalType? then Wrap32(curVal + v) else v;
      } else if minIdx + 2 == idx {
        preLastVal := curVal;
        if ty.TotalType? {
          lastVal := curVal;
          curVal := Wrap32(curVal + v);
        } else {
          lastVal := 0;
          curVal := v;
        }
      } else {
        Restart(v, ty);
      }
      if staticTime != p {
        staticTime := p;
      }
      if minIdx != idx {
        minIdx := idx;
      }
      lastReportTime := now;
    }

    /**
     One round of WriteAttrDataToDb: the value inserted, or 0 when the node is skipped. A value
     inserted for a valid node is the aggregate of the slot before the current one.
     */
    method SaveToDb(now: nat) returns (val: Uint32)
      modifies `lastToDbIdx, `lastToDbTime
      ensures val == if Runs.Saves(old(State()), now) then Runs.DbValue(old(State()), now) else 0
      ensures State() == if Runs.Saves(old(State()), now) then Runs.Marked(old(State()), now) else old(State())
      ensures old(Valid()) ==> Valid()
      ensures Valid() && !dataType.TotalType? && lastReportTime <= now && val > 0 ==>
        val == Aggregate(InSlot(history, Day(now), Slot(now, staticTime) - 1, staticTime), dataType)
    {
      hide Slot, Day, InSlot, TwoBack, Aggregate;
      if Valid() {
        MarksHold(State(), history, now);
        if !dataType.TotalType? && lastReportTime <= now && Runs.Saves(State(), now) {
          Runs.SaveSound(State(), history, now, dataType, staticTime);
        }
      }
      var idx := Slot(now, staticTime);
      val := lastVal;
      if now >= lastReportTime + staticTime * 60 {
        val := 0;
      } else if idx != minIdx {
        if minIdx + 1 == idx {
          val := curVal;
        } else {
          val := 0;
        }
      }
      if val <= 0 || (lastToDbIdx == idx && lastToDbTime + staticTime * 60 >= now) {
        val := 0;
        return;
      }
      lastToDbIdx, lastToDbTime := idx, now;
    }

    /**
     AdaptReportValue: for a valid one-minute node the last value is the previous minute's aggregate; for a
     valid cumulative node whose sum fits a word both values are sums of what was reported before.
     */
    method AdaptReportValue(now: nat, minute: nat) returns (last: Uint32, pre: Uint32)
      ensures Reader.Adapted(last, pre) == Reader.Adapt(State(), now, minute)
      ensures Valid() && !dataType.TotalType? && staticTime == 1 && lastReportTime <= now && minute == MinuteOfDay(now)
        && !Reader.DayOld(lastReportTime, now) && !Reader.FirstMinute(lastReportTime, now)
        ==> last == Reader.MinuteBefore(history, now, dataType)
      ensures Valid() && dataType.TotalType? && SumAll(history) < TWO32 ==>
        var t := history[|history| - 1].at;
        && last == SumEarlier(history, Day(t), Slot(t, staticTime), staticTime)
        && pre == SumEarlier(history, Day(t), Slot(t, staticTime) - 1, staticTime)
    {
      hide Exact, LastIsEarlier, MinuteOfDay, Day, Slot, SumAll, SumEarlier, Reader.DayOld, Reader.FirstMinute,
           Reader.MinuteBefore;
      if Valid() && dataType.TotalType? {
        Reader.AdaptedIsTotalBefore(State(), history, now, minute, staticTime);
      } else if Valid() && staticTime == 1 && lastReportTime <= now && minute == MinuteOfDay(now) {
        LastIsReported(State(), history);
        Reader.AdaptedIsMinuteBefore(State(), history, now, dataType);
      }
      last, pre := lastVal, preLastVal;
      if dataType.TotalType? {
        if pre >= last {
          last := pre;
        }
        return;
      }
      if now >= lastReportTime + 1440 * 60 {
        last, pre := 0, 0;
      } else if minute != minIdx {
        if (minIdx + 1) % 1440 == minute {
          pre := last;
          last := curVal;
        } else if (minIdx + 2) % 1440 == minute {
          pre := curVal;
          last := 0;
        } else {
          last, pre := 0, 0;
        }
      }
    }
  }

  lemma {:induction false} FirstExact(w: Window, r: Rep, ty: DataType, p: Period)
    requires w == Fresh(r.at, r.v, ty, p, w.toDbIdx, w.toDbTime) && Steady(p)
    ensures Exact(w, [r], ty, p) && InOrder([r])
  {
    hide Exact;
    assert [] + [r] == [r];
    Runs.FreshExact([], Runs.Report(r.at, r.v, w.toDbIdx, w.toDbTime), ty, p);
  }

  lemma {:induction false} KeepsType(w: Window, now: nat, v: Uint32, ty: DataType, p: Period)
    ensures AddReport(w, now, v, ty, p).dataType == ty && AddReport(w, now, v, ty, p).period == p
  {
  }

  lemma {:induction false} LastIsReported(w: Window, h: seq<Rep>)
    requires h != [] && Exact(w, h, w.dataType, w.period)
    ensures w.lastTime == h[|h| - 1].at
  {
  }

  lemma {:induction false} FirstHolds(w: Window, r: Rep, ty: DataType, p: Period)
    requires w == Fresh(r.at, r.v, ty, p, w.toDbIdx, w.toDbTime) && Steady(p)
    ensures Holds(w, [r], ty, p) && InOrder([r])
  {
    hide LastIsEarlier, Exact;
    FirstExact(w, r, ty, p);
    if ty.TotalType? { FirstIsEarlier(r, p, w.toDbIdx, w.toDbTime); }
  }

  lemma {:induction false} HeldTimes(w: Window, h: seq<Rep>, ty: DataType, p: Period)
    requires h != [] && Holds(w, h, ty, p)
    ensures w.lastTime == h[|h| - 1].at && w.dataType == ty && w.period == p
  {
  }

  lemma {:induction false} MarksHold(w: Window, h: seq<Rep>, now: nat)
    requires h != [] && Holds(w, h, w.dataType, w.period)
    ensures Holds(Runs.Marked(w, now), h, w.dataType, w.period) && w.lastTime == h[|h| - 1].at
  {
    hide Slot, Day, InSlot, TwoBack, SumAll, SumEarlier;
  }

  lemma {:induction false} NextHolds(w: Window, h: seq<Rep>, r: Rep, ty: DataType, p: Period)
    requires h != [] && InOrder(h) && Holds(w, h, ty, p) && w.lastTime <= r.at && Regular(p)
    ensures InOrder(h + [r]) && Holds(AddReport(w, r.at, r.v, ty, p), h + [r], ty, p)
  {
    hide AddReport, LastIsEarlier, Exact;
    HeldTimes(w, h, ty, p);
    assert InOrder(h + [r]) by {
      assert forall i :: 0 <= i < |h| ==> h[i].at <= h[|h| - 1].at == w.lastTime;
    }
    KeepsType(w, r.at, r.v, ty, p);
    if ty.TotalType? { ReportShiftsTotal(w, h, r, p); } else { ReportExact(w, h, r, ty, p); }
  }
}
