/** From reports and binding rows to the value of a view. */
module ViewPipeline {
  import opened AlarmInfo
  import opened Basics
  import opened ReportClock
  import opened ReportWindow
  import opened ReportReader
  import opened ViewSum
  import Runs = ReportRuns
  import B = ViewBindings

  /** The run that a node's window went through. */
  datatype History = History(es: seq<Runs.Event>, ty: DataType)

  /** The node is that of a run of a one-minute attribute that is not cumulative and not misread now. */
  ghost predicate Tracks(n: NodeRef, h: History, now: nat) {
    && h.es != [] && Runs.Chronological(h.es) && !h.ty.TotalType? && h.es[|h.es| - 1].at <= now
    && Runs.Run(h.es, h.ty, 1).node == Some(n.window) && !Misread(h.es, now)
  }

  /** The previous minute of every contributing machine. */
  function MinuteSum(nodes: seq<NodeRef>, hs: seq<History>, k: Key, b: Bindings, now: nat): nat
    requires |nodes| == |hs|
  {
    if nodes == [] then 0
    else
      var m := |nodes| - 1;
      MinuteSum(nodes[..m], hs[..m], k, b, now)
        + if Contributes(nodes[m], k, b) then MinuteBefore(Runs.Reports(hs[m].es), now, hs[m].ty) else 0
  }

  lemma {:induction false} TracksMinute(n: NodeRef, h: History, now: nat)
    requires Tracks(n, h, now)
    ensures Adapt(n.window, now, MinuteOfDay(now)).last == MinuteBefore(Runs.Reports(h.es), now, h.ty)
  {
    hide Runs.Run, Runs.Reports, Runs.Chronological, Adapt, MinuteBefore, Misread, MinuteOfDay;
    ReaderSeesMinuteBefore(h.es, now, h.ty);
  }

  lemma {:induction false} ContributionsAreMinutes(nodes: seq<NodeRef>, hs: seq<History>, k: Key, b: Bindings, now: nat)
    requires |nodes| == |hs|
    requires forall i :: 0 <= i < |nodes| && Contributes(nodes[i], k, b) ==> Tracks(nodes[i], hs[i], now)
    ensures Contributions(nodes, k, b, now) == MinuteSum(nodes, hs, k, b, now)
  {
    hide Tracks, Contributes, Adapt, MinuteBefore, MinuteOfDay, Runs.Reports;
    if nodes != [] {
      var m := |nodes| - 1;
      ContributionsAreMinutes(nodes[..m], hs[..m], k, b, now);
      if Contributes(nodes[m], k, b) { TracksMinute(nodes[m], hs[m], now); }
    }
  }

  /** The binding tables hold the views of the rows. */
  ghost predicate FromRows(b: Bindings, machineRows: seq<B.Row>, attrRows: seq<B.Row>) {
    && B.ApplyAll(machineRows) == Done(b.ofMachine)
    && B.ApplyAll(attrRows) == Done(b.ofAttr)
  }

  lemma {:induction false} ContributesByRows(n: NodeRef, k: Key, b: Bindings, machineRows: seq<B.Row>,
      attrRows: seq<B.Row>)
    requires FromRows(b, machineRows, attrRows)
    ensures Contributes(n, k, b) <==>
      && n.key.attr == k.attr && n.key.owner in b.machines
      && B.InUse(B.Accepted(machineRows), n.key.owner, k.owner) && B.InUse(B.Accepted(attrRows), n.key.attr, k.owner)
  {
    hide B.ApplyAll, B.InUse, B.Accepted, NoDup;
    B.BindingsFollowRows(machineRows);
    B.BindingsFollowRows(attrRows);
    assert k.owner in B.ViewsOf(b.ofMachine, n.key.owner) <==> B.InUse(B.Accepted(machineRows), n.key.owner, k.owner);
    assert k.owner in B.ViewsOf(b.ofAttr, n.key.attr) <==> B.InUse(B.Accepted(attrRows), n.key.attr, k.owner);
  }

  lemma {:induction false} RowsAreDistinct(b: Bindings, machineRows: seq<B.Row>, attrRows: seq<B.Row>)
    requires FromRows(b, machineRows, attrRows)
    ensures ArraysDistinct(b)
  {
    hide B.ApplyAll, NoDup;
    B.BindingsFollowRows(machineRows);
  }

  /**
   The value of a view after a pass is the sum of the previous minute's aggregates of the
   machines bound to it by the rows in use, when the view was not accumulated in this minute
   of the day within the last 24 hours. Nothing is asked of the table's other nodes.
   */
  lemma {:induction false} ViewShowsReports(cfgs: map<Key, Cfg>, nodes: seq<NodeRef>, hs: seq<History>,
      b: Bindings, now: nat, k: Key, machineRows: seq<B.Row>, attrRows: seq<B.Row>)
    requires k in cfgs && DistinctIds(cfgs) && FromRows(b, machineRows, attrRows)
    requires |nodes| == |hs|
    requires forall i :: 0 <= i < |nodes| && Contributes(nodes[i], k, b) ==> Tracks(nodes[i], hs[i], now)
    requires Base(cfgs[k], now) == 0 && AnyContributes(nodes, k, b)
    ensures var q := Scan(cfgs, nodes, b, now).cfgs;
      k in q && q[k].last == Wrap32(MinuteSum(nodes, hs, k, b, now))
  {
    hide Scan, Tracks, DistinctIds, FromRows, Contributions, Contributes, MinuteSum, Base, AnyContributes;
    RowsAreDistinct(b, machineRows, attrRows);
    ScanSums(cfgs, nodes, b, now, k);
    ContributionsAreMinutes(nodes, hs, k, b, now);
  }

  // ---------- the previous value ----------

  /** Neither in the first two minutes of a day with a report nor with the value two minutes back dropped. */
  ghost predicate TracksPre(n: NodeRef, h: History, now: nat) {
    var r := Runs.Reports(h.es);
    Tracks(n, h, now) && (r != [] ==> !FirstMinutes(r[|r| - 1].at, now) && !Dropped(r, now))
  }

  /** The minute before the last of every contributing machine. */
  function TwoMinuteSum(nodes: seq<NodeRef>, hs: seq<History>, k: Key, b: Bindings, now: nat): nat
    requires |nodes| == |hs|
  {
    if nodes == [] then 0
    else
      var m := |nodes| - 1;
      TwoMinuteSum(nodes[..m], hs[..m], k, b, now)
        + if Contributes(nodes[m], k, b) then TwoMinutesBefore(Runs.Reports(hs[m].es), now, hs[m].ty) else 0
  }

  lemma {:induction false} TracksTwoMinutes(n: NodeRef, h: History, now: nat)
    requires TracksPre(n, h, now)
    ensures Adapt(n.window, now, MinuteOfDay(now)).pre == TwoMinutesBefore(Runs.Reports(h.es), now, h.ty)
  {
    hide Runs.Run, Runs.Reports, Runs.Chronological, Adapt, TwoMinutesBefore, Misread, MinuteOfDay, FirstMinutes,
         Dropped;
    ReaderSeesTwoBefore(h.es, now, h.ty);
  }

  lemma {:induction false} PreContributionsAreMinutes(nodes: seq<NodeRef>, hs: seq<History>, k: Key, b: Bindings,
      now: nat)
    requires |nodes| == |hs|
    requires forall i :: 0 <= i < |nodes| && Contributes(nodes[i], k, b) ==> TracksPre(nodes[i], hs[i], now)
    ensures PreContributions(nodes, k, b, now) == TwoMinuteSum(nodes, hs, k, b, now)
  {
    hide TracksPre, Contributes, Adapt, TwoMinutesBefore, MinuteOfDay, Runs.Reports;
    if nodes != [] {
      var m := |nodes| - 1;
      PreContributionsAreMinutes(nodes[..m], hs[..m], k, b, now);
      if Contributes(nodes[m], k, b) { TracksTwoMinutes(nodes[m], hs[m], now); }
    }
  }

  /**
   The previous value of a view is its last value of the pass before plus the machines' own previous
   values. When that pass was in the minute before and showed their reports, they are counted twice.
   */
  lemma {:induction false} PreviousCountsTwice(cfgs: map<Key, Cfg>, nodes: seq<NodeRef>, hs: seq<History>,
      b: Bindings, now: nat, k: Key, machineRows: seq<B.Row>, attrRows: seq<B.Row>)
    requires k in cfgs && DistinctIds(cfgs) && FromRows(b, machineRows, attrRows)
    requires |nodes| == |hs| && AnyContributes(nodes, k, b)
    requires forall i :: 0 <= i < |nodes| && Contributes(nodes[i], k, b) ==> TracksPre(nodes[i], hs[i], now)
    ensures var q, sum := Scan(cfgs, nodes, b, now).cfgs, TwoMinuteSum(nodes, hs, k, b, now);
      && k in q && q[k].pre == Wrap32(PreBase(cfgs[k], now) + sum)
      && (now / 60 == cfgs[k].at / 60 + 1 && cfgs[k].last == Wrap32(sum) ==> q[k].pre == Wrap32(2 * sum))
  {
    hide Scan, TracksPre, DistinctIds, FromRows, PreContributions, Contributions, Contributes, TwoMinuteSum, PreBase,
         AnyContributes, Wrap32;
    RowsAreDistinct(b, machineRows, attrRows);
    ScanSums(cfgs, nodes, b, now, k);
    PreContributionsAreMinutes(nodes, hs, k, b, now);
    var sum := TwoMinuteSum(nodes, hs, k, b, now);
    if now / 60 == cfgs[k].at / 60 + 1 && cfgs[k].last == Wrap32(sum) {
      NextMinuteBase(cfgs[k], now);
      WrapAdd(sum, sum);
    }
  }

  lemma {:induction false} NextMinuteBase(c: Cfg, now: nat)
    requires now / 60 == c.at / 60 + 1
    ensures PreBase(c, now) == c.last
  {
    MinuteOfDayIs(c.at);
    MinuteOfDayIs(now);
    assert now < c.at + 120;
  }
}
