/** The checker's passes one after another, each at most once a minute, and what views show through restarts. */
module ViewRuns {
  import opened AlarmInfo
  import opened Basics
  import opened ReportClock
  import opened ReportReader
  import opened ViewPipeline
  import opened ViewSum
  import B = ViewBindings

  /** The configurations in shared memory and the process's s_iLastCheckMinIdx. */
  datatype Checker = Checker(cfgs: map<Key, Cfg>, minute: nat)

  /** The process starts, or tries a pass. */
  datatype Event = Start(at: nat) | Check(nodes: seq<NodeRef>, b: Bindings, at: nat)

  /** The guard of CheckAttrWarn lets a pass through. */
  predicate Runs(c: Checker, now: nat) {
    MinuteOfDay(now) != c.minute
  }

  function Step(c: Checker, e: Event): Checker {
    match e
    case Start(_) => c.(minute := 0)
    case Check(nodes, b, at) => if Runs(c, at) then Checker(Scan(c.cfgs, nodes, b, at).cfgs, MinuteOfDay(at)) else c
  }

  function Run(cfgs: map<Key, Cfg>, es: seq<Event>): Checker {
    if es == [] then Checker(cfgs, 0) else Step(Run(cfgs, es[..|es| - 1]), es[|es| - 1])
  }

  /** A run begins with a start, after all that the configurations record; time does not go back. */
  ghost predicate Proper(cfgs: map<Key, Cfg>, es: seq<Event>) {
    && DistinctIds(cfgs) && es != [] && es[0].Start?
    && (forall k :: k in cfgs ==> cfgs[k].at <= es[0].at)
    && (forall i, j :: 0 <= i < j < |es| ==> es[i].at <= es[j].at)
    && forall i :: 0 <= i < |es| && es[i].Check? ==> ArraysDistinct(es[i].b)
  }

  // ---------- when the last pass was ----------

  /**
   Event m was the last that matters: a pass that ran, whose minute the checker remembers, or a
   start since which none ran. No view was touched after it.
   */
  ghost predicate LastAt(c: Checker, es: seq<Event>, m: nat) {
    && m < |es| && (es[m].Check? ==> c.minute == MinuteOfDay(es[m].at))
    && forall k :: k in c.cfgs ==> c.cfgs[k].at <= es[m].at
  }

  lemma {:induction false} ScanCoherent(cfgs: map<Key, Cfg>, nodes: seq<NodeRef>, b: Bindings, now: nat)
    ensures Coherent(Scan(cfgs, nodes, b, now), cfgs)
  {
    hide AddToViews, ViewsFor;
    if nodes != [] {
      var m := |nodes| - 1;
      ScanCoherent(cfgs, nodes[..m], b, now);
      AddsCoherent(Scan(cfgs, nodes[..m], b, now), cfgs, ViewsFor(nodes[m], b), nodes[m], now);
    }
  }

  lemma {:induction false} AddsCoherent(p: Pass, cfgs: map<Key, Cfg>, views: seq<int>, n: NodeRef, now: nat)
    requires Coherent(p, cfgs)
    ensures Coherent(AddToViews(p, views, n, now), cfgs)
  {
    hide Adapt, MinuteOfDay, Wrap32;
    if views != [] { AddsCoherent(p, cfgs, views[..|views| - 1], n, now); }
  }

  lemma {:induction false} ScanKeepsIds(cfgs: map<Key, Cfg>, nodes: seq<NodeRef>, b: Bindings, now: nat)
    requires DistinctIds(cfgs)
    ensures var q := Scan(cfgs, nodes, b, now).cfgs; DistinctIds(q) && q.Keys == cfgs.Keys
  {
    hide Scan;
    ScanCoherent(cfgs, nodes, b, now);
  }

  lemma {:induction false} ScanTouches(cfgs: map<Key, Cfg>, nodes: seq<NodeRef>, b: Bindings, now: nat)
    requires DistinctIds(cfgs) && ArraysDistinct(b) && forall k :: k in cfgs ==> cfgs[k].at <= now
    ensures var q := Scan(cfgs, nodes, b, now).cfgs; forall k :: k in q ==> q[k].at <= now
  {
    hide Scan, AnyContributes, Contributions, Base;
    ScanKeepsIds(cfgs, nodes, b, now);
    forall k | k in cfgs
      ensures Scan(cfgs, nodes, b, now).cfgs[k].at <= now
    {
      ScanSums(cfgs, nodes, b, now, k);
    }
  }

  lemma {:induction false} RunKeeps(cfgs: map<Key, Cfg>, es: seq<Event>)
    requires Proper(cfgs, es)
    ensures DistinctIds(Run(cfgs, es).cfgs) && Run(cfgs, es).cfgs.Keys == cfgs.Keys
    ensures exists m: nat :: LastAt(Run(cfgs, es), es, m)
  {
    hide MinuteOfDay, Scan, ArraysDistinct, DistinctIds;
    var n := |es| - 1;
    var g, e := es[..n], es[n];
    if n == 0 {
      assert g == [] && Run(cfgs, es) == Checker(cfgs, 0);
      assert LastAt(Run(cfgs, es), es, 0);
    } else {
      RunKeeps(cfgs, g);
      var c := Run(cfgs, g);
      var m: nat :| LastAt(c, g, m);
      assert g[m] == es[m];
      if e.Check? && Runs(c, e.at) {
        ScanKeepsIds(c.cfgs, e.nodes, e.b, e.at);
        ScanTouches(c.cfgs, e.nodes, e.b, e.at);
        assert LastAt(Run(cfgs, es), es, n);
      } else if e.Start? {
        assert LastAt(Run(cfgs, es), es, n);
      } else {
        assert LastAt(Run(cfgs, es), es, m);
      }
    }
  }

  /** The checker remembers the minute of the last try, whether it ran or not; a start forgets it. */
  lemma {:induction false} LastTry(cfgs: map<Key, Cfg>, es: seq<Event>)
    requires es != []
    ensures Run(cfgs, es).minute == if es[|es| - 1].Check? then MinuteOfDay(es[|es| - 1].at) else 0
  {
    hide Scan, MinuteOfDay;
  }

  /** A pass goes through exactly when its minute of the day is not that of the last try, or 0 after a start. */
  lemma {:induction false} RunsExactly(cfgs: map<Key, Cfg>, es: seq<Event>, now: nat)
    requires es != [] && es[|es| - 1].at <= now
    ensures var e := es[|es| - 1];
      && (Runs(Run(cfgs, es), now) <==> MinuteOfDay(now) != if e.Check? then MinuteOfDay(e.at) else 0)
      && (e.Check? && now < e.at + DAY_SEC - 60 ==> (Runs(Run(cfgs, es), now) <==> now / 60 != e.at / 60))
  {
    hide MinuteOfDay, Run;
    var e := es[|es| - 1];
    LastTry(cfgs, es);
    MinuteOfDayIs(e.at);
    MinuteOfDayIs(now);
    if e.Check? && now < e.at + DAY_SEC - 60 { WithinDay(e.at / 60, now / 60); }
  }

  lemma {:induction false} WithinDay(x: nat, y: nat)
    requires x <= y < x + DAY_MIN
    ensures x % DAY_MIN == y % DAY_MIN ==> x == y
  {
  }

  // ---------- what a pass starts from ----------

  /** The view was last touched almost a day ago, in the same minute of the day. */
  predicate AlmostDay(c: Cfg, now: nat) {
    c.at + DAY_SEC - 60 < now < c.at + DAY_SEC
  }

  /** The process was started within this very minute, in which the view had been touched. */
  ghost predicate RestartedInMinute(c: Cfg, es: seq<Event>, now: nat) {
    exists i :: 0 <= i < |es| && es[i].Start? && c.at <= es[i].at <= now && c.at / 60 == es[i].at / 60 == now / 60
  }

  lemma {:induction false} SameMinute(t: nat, u: nat, now: nat)
    requires t <= u <= now < t + 60 && MinuteOfDay(t) == MinuteOfDay(now)
    ensures t / 60 == u / 60 == now / 60 && MinuteOfDay(u) == MinuteOfDay(now)
  {
    hide MinuteOfDay;
    MinuteOfDayIs(t);
    MinuteOfDayIs(u);
    MinuteOfDayIs(now);
    NextDiffers(t / 60, now / 60);
  }

  lemma {:induction false} NextDiffers(x: nat, y: nat)
    requires x <= y <= x + 1 && x % DAY_MIN == y % DAY_MIN
    ensures x == y
  {
  }

  /** In any run, a pass that runs starts every view from 0, but for the two cases. */
  lemma {:induction false} RunStartsFromZero(cfgs: map<Key, Cfg>, es: seq<Event>, now: nat, k: Key)
    requires Proper(cfgs, es) && es[|es| - 1].at <= now && k in cfgs && Runs(Run(cfgs, es), now)
    ensures k in Run(cfgs, es).cfgs && DistinctIds(Run(cfgs, es).cfgs)
    ensures var c := Run(cfgs, es).cfgs[k];
      Base(c, now) == 0 || AlmostDay(c, now) || RestartedInMinute(c, es, now)
  {
    hide Run, DistinctIds, MinuteOfDay;
    RunKeeps(cfgs, es);
    var c := Run(cfgs, es).cfgs[k];
    var m: nat :| LastAt(Run(cfgs, es), es, m);
    BaseIsZeroUnless(c, now);
    if Base(c, now) != 0 && !AlmostDay(c, now) {
      assert es[m].at <= es[|es| - 1].at;
      SameMinute(c.at, es[m].at, now);
      assert es[m].Start?;
    }
  }

  /**
   Through any run of passes and restarts: a pass that runs leaves a view with the sum of the previous
   minute's aggregates of the machines bound to it, unless it was touched almost a day before, or in
   this minute before a restart.
   */
  lemma {:induction false} ViewsShowReports(cfgs: map<Key, Cfg>, es: seq<Event>, nodes: seq<NodeRef>,
      hs: seq<History>, b: Bindings, now: nat, k: Key, machineRows: seq<B.Row>, attrRows: seq<B.Row>)
    requires Proper(cfgs, es) && es[|es| - 1].at <= now && k in cfgs && Runs(Run(cfgs, es), now)
    requires FromRows(b, machineRows, attrRows) && |nodes| == |hs| && AnyContributes(nodes, k, b)
    requires forall i :: 0 <= i < |nodes| && Contributes(nodes[i], k, b) ==> Tracks(nodes[i], hs[i], now)
    ensures var c, q := Run(cfgs, es).cfgs, Run(cfgs, es + [Check(nodes, b, now)]).cfgs;
      && k in c && k in q
      && (q[k].last == Wrap32(MinuteSum(nodes, hs, k, b, now))
          || AlmostDay(c[k], now) || RestartedInMinute(c[k], es, now))
  {
    hide Runs, Scan, Tracks, DistinctIds, FromRows, Contributes, MinuteSum, Base, AnyContributes, AlmostDay, Proper;
    RunStartsFromZero(cfgs, es, now, k);
    var c, e := Run(cfgs, es).cfgs, Check(nodes, b, now);
    assert (es + [e])[..|es|] == es;
    RowsAreDistinct(b, machineRows, attrRows);
    ScanSums(c, nodes, b, now, k);
    if Base(c[k], now) == 0 { ViewShowsReports(c, nodes, hs, b, now, k, machineRows, attrRows); }
  }

  // ---------- a restart within the minute ----------

  lemma {:induction false} SameMinuteSum(nodes: seq<NodeRef>, hs: seq<History>, k: Key, b: Bindings, t: nat, u: nat)
    requires |nodes| == |hs| && t / 60 == u / 60
    ensures MinuteSum(nodes, hs, k, b, t) == MinuteSum(nodes, hs, k, b, u)
  {
    hide MinuteOfDay, Day, Contributes;
    MinuteOfDayIs(t);
    MinuteOfDayIs(u);
    if nodes != [] { SameMinuteSum(nodes[..|nodes| - 1], hs[..|hs| - 1], k, b, t, u); }
  }

  /** The second case is real: a pass, a restart and another pass within one minute count every report twice. */
  lemma {:induction false} RestartCountsTwice(c: Checker, nodes: seq<NodeRef>, hs: seq<History>, b: Bindings,
      now: nat, start: nat, later: nat, k: Key, machineRows: seq<B.Row>, attrRows: seq<B.Row>)
    requires k in c.cfgs && DistinctIds(c.cfgs) && Base(c.cfgs[k], now) == 0 && Runs(c, now) && MinuteOfDay(now) != 0
    requires now <= start <= later && now / 60 == later / 60
    requires FromRows(b, machineRows, attrRows) && |nodes| == |hs| && AnyContributes(nodes, k, b)
    requires forall i :: 0 <= i < |nodes| && Contributes(nodes[i], k, b) ==>
      Tracks(nodes[i], hs[i], now) && Tracks(nodes[i], hs[i], later)
    ensures var q := Step(Step(Step(c, Check(nodes, b, now)), Start(start)), Check(nodes, b, later)).cfgs;
      k in q && q[k].last == Wrap32(2 * MinuteSum(nodes, hs, k, b, now))
  {
    hide Scan, Tracks, DistinctIds, FromRows, Contributes, MinuteSum, AnyContributes, Contributions, MinuteOfDay,
         Wrap32;
    RowsAreDistinct(b, machineRows, attrRows);
    ScanKeepsIds(c.cfgs, nodes, b, now);
    ScanSums(c.cfgs, nodes, b, now, k);
    ContributionsAreMinutes(nodes, hs, k, b, now);
    ScanSums(Scan(c.cfgs, nodes, b, now).cfgs, nodes, b, later, k);
    ContributionsAreMinutes(nodes, hs, k, b, later);
    SameMinuteSum(nodes, hs, k, b, now, later);
    MinuteOfDayIs(now);
    MinuteOfDayIs(later);
    WrapAdd(MinuteSum(nodes, hs, k, b, now), MinuteSum(nodes, hs, k, b, now));
  }
}
