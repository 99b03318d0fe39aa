/** Cumulative attributes: the window counts everything ever reported. */
module ReportTotals {
  import opened Basics
  import opened ReportClock
  import opened ReportWindow
  import opened ReportRuns

  function SumAll(h: seq<Rep>): nat {
    if h == [] then 0 else SumAll(h[..|h| - 1]) + h[|h| - 1].v
  }

  /** Everything reported before slot s of day d. */
  function SumEarlier(h: seq<Rep>, d: nat, s: int, p: Period): nat {
    if h == [] then 0
    else
      var r := h[|h| - 1];
      SumEarlier(h[..|h| - 1], d, s, p) + if Earlier(r.at, d, s, p) then r.v else 0
  }

  lemma {:induction false} AllEarlier(h: seq<Rep>, d: nat, s: int, p: Period)
    requires InOrder(h) && Steady(p)
    requires h != [] ==> Earlier(h[|h| - 1].at, d, s, p)
    ensures SumEarlier(h, d, s, p) == SumAll(h)
  {
    hide Slot, Day;
    if h != [] {
      var g := h[..|h| - 1];
      if g != [] {
        var t, u := g[|g| - 1].at, h[|h| - 1].at;
        assert t == h[|h| - 2].at <= u;
        DayMonotone(t, u);
        if Day(t) == Day(u) { SlotMonotone(t, u, p); }
      }
      AllEarlier(g, d, s, p);
    }
  }

  lemma {:induction false} Snoc(h: seq<Rep>, r: Rep, d: nat, s: int, p: Period)
    ensures SumAll(h + [r]) == SumAll(h) + r.v
    ensures SumEarlier(h + [r], d, s, p) == SumEarlier(h, d, s, p) + if Earlier(r.at, d, s, p) then r.v else 0
  {
    assert (h + [r])[..|h|] == h;
  }

  /** cur is the sum of all reports; the three values ascend while that sum fits a word. */
  ghost predicate CountsAll(w: Window, h: seq<Rep>) {
    && w.dataType == TotalType
    && w.cur == Wrap32(SumAll(h))
    && (SumAll(h) < TWO32 ==> w.pre <= w.last <= w.cur)
  }

  /** A report adds to the current value, and the three values keep their places or move up. */
  lemma {:induction false} TotalMoves(w: Window, now: nat, v: Uint32, p: Period)
    ensures var u := AddReport(w, now, v, TotalType, p);
      && u.dataType == TotalType && u.cur == Wrap32(w.cur + v)
      && ((u.pre == w.pre && u.last == w.last) || (u.pre == w.last && u.last == w.cur) || u.pre == u.last == w.cur)
  {
    hide Slot, Wrap32;
  }

  lemma {:induction false} ReportCounts(w: Window, h: seq<Rep>, r: Rep, p: Period)
    requires CountsAll(w, h)
    ensures CountsAll(AddReport(w, r.at, r.v, TotalType, p), h + [r])
  {
    hide AddReport, Wrap32, SumAll;
    var u, all, v: nat := AddReport(w, r.at, r.v, TotalType, p), SumAll(h), r.v;
    TotalMoves(w, r.at, r.v, p);
    Snoc(h, r, 0, 0, p);
    WrapAdd(all, v);
    assert u.cur == Wrap32(all + v);
    if all + v < TWO32 {
      WrapSmall(all);
      WrapSmall(all + v);
    }
  }

  /** For every period: nothing is lost at slot changes, gaps or midnight, and nothing is recycled. */
  lemma {:induction false} TotalCountsAll(es: seq<Event>, p: Period)
    ensures var n, h := Run(es, TotalType, p).node, Reports(es);
      if h == [] then n.None? else n.Some? && CountsAll(n.value, h)
  {
    hide Slot, AddReport, Saves, DbValue;
    if es != [] {
      var g, e := es[..|es| - 1], es[|es| - 1];
      TotalCountsAll(g, p);
      var c := Run(g, TotalType, p);
      if e.Report? {
        if c.node.Some? {
          ReportCounts(c.node.value, Reports(g), Rep(e.at, e.v), p);
        } else {
          Snoc([], Rep(e.at, e.v), 0, 0, p);
        }
      }
    }
  }

  /** cur counts everything, last what came before the current slot, pre what came before the slot before it. */
  ghost predicate LastIsEarlier(w: Window, h: seq<Rep>, p: Period)
    requires h != []
  {
    var t := h[|h| - 1].at;
    && w.lastTime == t && w.minIdx == Slot(t, p) && w.dataType == TotalType
    && w.cur == Wrap32(SumAll(h))
    && w.last == Wrap32(SumEarlier(h, Day(t), Slot(t, p), p))
    && w.pre == Wrap32(SumEarlier(h, Day(t), Slot(t, p) - 1, p))
  }

  lemma {:induction false} ReportShiftsTotal(w: Window, h: seq<Rep>, r: Rep, p: Period)
    requires h != [] && LastIsEarlier(w, h, p) && Steady(p) && p <= MAX_PERIOD && InOrder(h + [r])
    ensures LastIsEarlier(AddReport(w, r.at, r.v, TotalType, p), h + [r], p)
  {
    hide Slot, Day, Wrap32, SumAll;
    InOrderPrefix(h, r);
    var t := h[|h| - 1].at;
    var d, s: int := Day(r.at), Slot(r.at, p);
    Snoc(h, r, d, s, p);
    Snoc(h, r, d, s - 1, p);
    WrapAdd(SumAll(h), r.v);
    DayMonotone(t, r.at);
    if Day(t) == d {
      SlotMonotone(t, r.at, p);
      if r.at > t + 2 * 60 * p { SlotGap(t, r.at, p); }
    } else if r.at <= t + 2 * 60 * p {
      SlotAtMidnight(t, r.at, p);
    }
    if Earlier(t, d, s, p) { AllEarlier(h, d, s, p); }
    if Earlier(t, d, s - 1, p) { AllEarlier(h, d, s - 1, p); }
  }

  lemma {:induction false} FirstIsEarlier(r: Rep, p: Period, seedIdx: int, seedTime: int)
    ensures LastIsEarlier(Fresh(r.at, r.v, TotalType, p, seedIdx, seedTime), [r], p)
  {
    hide Slot, Day, Wrap32;
    var h := [r];
    assert h[..0] == [];
    var d, k: int := Day(r.at), Slot(r.at, p);
    assert !Earlier(r.at, d, k, p) && !Earlier(r.at, d, k - 1, p);
    assert SumAll(h) == r.v;
    assert SumEarlier(h, d, k, p) == SumEarlier(h, d, k - 1, p) == 0;
    WrapSmall(r.v);
    WrapSmall(0);
  }

  lemma {:induction false} MarksLeaveTotals(w: Window, h: seq<Rep>, now: nat, p: Period)
    requires h != [] && LastIsEarlier(w, h, p)
    ensures LastIsEarlier(Marked(w, now), h, p) && w.dataType == TotalType
  {
  }

  /** last and pre are the sums of all reports before the current slot and the one before, across midnight and gaps. */
  lemma {:induction false} TotalLastExact(es: seq<Event>, p: Period)
    requires Chronological(es) && Steady(p) && p <= MAX_PERIOD && Reports(es) != []
    ensures Run(es, TotalType, p).node.Some? && LastIsEarlier(Run(es, TotalType, p).node.value, Reports(es), p)
  {
    hide Slot, AddReport, Fresh, Saves, DbValue, LastIsEarlier;
    var g, e := es[..|es| - 1], es[|es| - 1];
    ReportsInOrder(es);
    if Reports(g) != [] {
      TotalLastExact(g, p);
      var w := Run(g, TotalType, p).node.value;
      MarksLeaveTotals(w, Reports(g), e.at, p);
      if e.Report? { ReportShiftsTotal(w, Reports(g), Rep(e.at, e.v), p); }
    } else {
      TotalCountsAll(g, p);
      FirstIsEarlier(Rep(e.at, e.v), p, e.seedIdx, e.seedTime);
      assert Reports(es) == [] + [Rep(e.at, e.v)] == [Rep(e.at, e.v)];
    }
  }

  lemma {:induction false} EarlierAscends(h: seq<Rep>, d: nat, s: int, p: Period)
    ensures SumEarlier(h, d, s - 1, p) <= SumEarlier(h, d, s, p) <= SumAll(h)
  {
    hide Slot, Day;
    if h != [] { EarlierAscends(h[..|h| - 1], d, s, p); }
  }

  /** A row of a cumulative attribute is everything reported before the slot it is written in. */
  lemma {:induction false} TotalRowIsSum(w: Window, h: seq<Rep>, now: nat, p: Period)
    requires h != [] && InOrder(h) && LastIsEarlier(w, h, p) && w.period == p && h[|h| - 1].at <= now
    requires Steady(p) && p <= MAX_PERIOD && Saves(w, now)
    ensures DbValue(w, now) == Wrap32(SumEarlier(h, Day(now), Slot(now, p), p))
  {
    hide Slot, Day, SumAll, SumEarlier, Wrap32;
    var t := h[|h| - 1].at;
    DayMonotone(t, now);
    if Day(t) != Day(now) { SlotAtMidnight(t, now, p); }
    if Earlier(t, Day(now), Slot(now, p), p) { AllEarlier(h, Day(now), Slot(now, p), p); }
  }
}
