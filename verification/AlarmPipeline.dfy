/** From reports to records: what one pass of the checker does to the alarm table for a machine's minimum. */
module AlarmPipeline {
  import opened AlarmInfo
  import opened AlarmMerge
  import opened Basics
  import opened MachineAlarms
  import opened MachinePass
  import opened ReportReader
  import opened ReportWindow
  import Runs = ReportRuns

  /** The merging run whose events from n on are the alarms of a pass at now, in order. */
  ghost predicate MergesList(hs: seq<Event>, n: nat, list: seq<Alarm>, now: nat) {
    && |hs| == n + |list| && (n > 0 ==> hs[n - 1].at <= now)
    && forall i :: n <= i < |hs| ==> hs[i].Raise? && hs[i].alarm == list[i - n] && hs[i].at == now
  }

  /** The object's minimum alarms of a machine all carry the machine mark. */
  ghost predicate MarkedMinima(list: seq<Alarm>, k: Key) {
    forall i :: 0 <= i < |list| && list[i].kind.Minimum? && list[i].key == k ==> list[i].onMachine
  }

  lemma {:induction false} CountsMinima(hs: seq<Event>, n: nat, list: seq<Alarm>, now: nat, k: Key)
    requires MergesList(hs, n, list, now) && MarkedMinima(list, k)
    ensures RaisedCount(hs, Subject(k, Minimum, true)) ==
            RaisedCount(hs[..n], Subject(k, Minimum, true)) + Minima(list, k)
    decreases |list|
  {
    if list == [] {
      assert hs[..n] == hs;
    } else {
      var m := |list| - 1;
      var g := hs[..|hs| - 1];
      assert g[..n] == hs[..n];
      CountsMinima(g, n, list[..m], now, k);
      assert hs[|hs| - 1] == hs[n + m];
    }
  }

  lemma {:induction false} ListRaises(hs: seq<Event>, n: nat, list: seq<Alarm>, now: nat)
    requires MergesList(hs, n, list, now)
    ensures RaisesAt(hs, n, now) && (hs != [] ==> hs[|hs| - 1].at <= now)
  {
  }

  lemma {:induction false} MinimumIn(list: seq<Alarm>, k: Key)
    requires Minima(list, k) > 0
    ensures exists i :: 0 <= i < |list| && list[i].kind.Minimum? && list[i].key == k
  {
    var m := |list| - 1;
    if Minima(list[..m], k) > 0 {
      MinimumIn(list[..m], k);
      var i :| 0 <= i < m && list[..m][i].kind.Minimum? && list[..m][i].key == k;
      assert list[i] == list[..m][i];
    }
  }

  lemma {:induction false} NodeMarks(nodes: seq<NodeRef>, s: Setting, now: nat, k: Key)
    requires NodePhase(nodes, s, now).Done?
    ensures MarkedMinima(NodePhase(nodes, s, now).value, k)
  {
    hide Adapt, Change, MaskedFor;
    if nodes != [] {
      NodeMarks(nodes[..|nodes| - 1], s, now, k);
      OneNodeMarks(nodes[|nodes| - 1], s, now);
    }
  }

  lemma {:induction false} OneNodeMarks(n: NodeRef, s: Setting, now: nat)
    requires OneNode(n, s, now).Done?
    ensures forall a :: a in OneNode(n, s, now).value ==> a.onMachine
  {
    hide Adapt, Change, MaskedFor;
  }

  lemma {:induction false} ConfigMarks(keys: seq<Key>, nodes: seq<NodeRef>, s: Setting, now: nat, k: Key)
    requires forall l :: l in keys ==> l in s.cfgs
    requires k in s.cfgs && s.cfgs[k].machineType
    ensures MarkedMinima(ConfigPhase(keys, nodes, s, now), k)
  {
    hide NodeOf, MaskedFor;
    if keys != [] { ConfigMarks(keys[..|keys| - 1], nodes, s, now, k); }
  }

  /** The pass's list of alarms. */
  function PassList(nodes: seq<NodeRef>, keys: seq<Key>, s: Setting, now: nat): seq<Alarm>
    requires NodePhase(nodes, s, now).Done? && forall l :: l in keys ==> l in s.cfgs
  {
    NodePhase(nodes, s, now).value + ConfigPhase(keys, nodes, s, now)
  }

  /**
   After a pass whose alarms were merged: if the previous minute's reports of a one-minute attribute
   aggregate to less than the minimum, the machine has exactly one open record of its minimum alarm, counted
   just now and one higher than before the pass; otherwise no record of it was counted.
   */
  lemma {:induction false} LowMachineIsRecorded(es: seq<Runs.Event>, ty: DataType, nodes: seq<NodeRef>, keys: seq<Key>,
      s: Setting, now: nat, k: Key, hs: seq<Event>, n: nat)
    requires Asked(nodes, keys, s, now, k) && s.cfgs[k].machineType
    requires Readable(es, ty, 1, now) && NodeOf(nodes, k) == Runs.Run(es, ty, 1).node
    requires ValidRun(hs) && MergesList(hs, n, PassList(nodes, keys, s, now), now)
    ensures var subj := Subject(k, Minimum, true);
      var low := MinuteBefore(Runs.Reports(es), now, ty) < Unsigned(s.cfgs[k].min);
      && TimesOf(Table(hs), subj) == TimesOf(Table(hs[..n]), subj) + (if low then 1 else 0)
      && (low ==> exists i: nat :: JustCounted(Table(hs), subj, i, now))
      && forall i: nat, j: nat ::
           JustCounted(Table(hs), subj, i, now) && JustCounted(Table(hs), subj, j, now) ==> i == j
  {
    hide NodePhase, ConfigPhase, Minima, Unsigned, NodeOf, Readable, MinuteBefore, Runs.Run, Runs.Reports, ValidRun,
         Table, TimesOf, RaisedCount, DistinctKeys, NoDup;
    var list, subj := PassList(nodes, keys, s, now), Subject(k, Minimum, true);
    MinimumOfTheReports(es, ty, nodes, keys, s, now, k);
    NodeMarks(nodes, s, now, k);
    ConfigMarks(keys, nodes, s, now, k);
    CountsMinima(hs, n, list, now, k);
    ListRaises(hs, n, list, now);
    AllCounted(hs, subj);
    ValidPrefix(hs, n);
    AllCounted(hs[..n], subj);
    if Minima(list, k) > 0 {
      MinimumIn(list, k);
      var m :| 0 <= m < |list| && list[m].kind.Minimum? && list[m].key == k;
      assert hs[n + m].alarm == list[m];
      PassLeavesRecord(hs, n, now, n + m);
    }
    forall i: nat, j: nat | JustCounted(Table(hs), subj, i, now) && JustCounted(Table(hs), subj, j, now)
      ensures i == j
    {
      CountedOnce(hs, now, i, j, subj);
    }
  }

  lemma {:induction false} ValidPrefix(hs: seq<Event>, n: nat)
    requires ValidRun(hs) && n <= |hs|
    ensures ValidRun(hs[..n])
    decreases |hs|
  {
    hide Answered;
    if n < |hs| {
      ValidPrefix(hs[..|hs| - 1], n);
      assert hs[..|hs| - 1][..n] == hs[..n];
    } else {
      assert hs[..n] == hs;
    }
  }

  lemma {:induction false} CountedOnce(hs: seq<Event>, now: nat, i: nat, j: nat, subj: Subject)
    requires ValidRun(hs) && (hs != [] ==> hs[|hs| - 1].at <= now)
    requires JustCounted(Table(hs), subj, i, now) && JustCounted(Table(hs), subj, j, now)
    ensures i == j
  {
    hide ValidRun;
    if hs != [] { OneOpenRecord(hs, now, i, j); }
  }
}
