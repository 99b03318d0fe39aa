/** Which alarms of a machine one pass raises, told by the reports alone. */
module MachineReports {
  import opened AlarmInfo
  import opened Basics
  import opened MachineAlarms
  import opened MachinePass
  import opened ReportClock
  import opened ReportReader
  import opened ReportWindow
  import Runs = ReportRuns

  // ---------- whose alarms they are ----------

  /** An alarm of the node loop is one of its own node's, and every node's alarms are there. */
  lemma {:induction false} NodePhaseExactly(nodes: seq<NodeRef>, s: Setting, now: nat, a: Alarm)
    requires DistinctKeys(nodes) && NodePhase(nodes, s, now).Done?
    ensures a in NodePhase(nodes, s, now).value <==>
      && NodeOf(nodes, a.key).Some?
      && OneNode(NodeRef(a.key, NodeOf(nodes, a.key).value), s, now).Done?
      && a in OneNode(NodeRef(a.key, NodeOf(nodes, a.key).value), s, now).value
  {
    hide OneNode;
    if nodes != [] {
      var m := |nodes| - 1;
      NodePhaseExactly(nodes[..m], s, now, a);
      if OneNode(nodes[m], s, now).Done? { OwnKey(nodes[m], s, now, a); }
      if nodes[m].key == a.key { NotEarlier(nodes[..m], a.key); }
    }
  }

  lemma {:induction false} OwnKey(n: NodeRef, s: Setting, now: nat, a: Alarm)
    requires OneNode(n, s, now).Done?
    ensures a in OneNode(n, s, now).value ==> a.key == n.key
  {
    hide Adapt, MinuteOfDay, MaskedFor, Unsigned, Change;
    if a in OneNode(n, s, now).value {
      NodeAlarmsExactly(n.key, s.cfgs[n.key], s.machines[n.key.owner], n.window, now, a);
    }
  }

  lemma {:induction false} ConfigPhaseExactly(keys: seq<Key>, nodes: seq<NodeRef>, s: Setting, now: nat, a: Alarm)
    requires forall l :: l in keys ==> l in s.cfgs
    ensures a in ConfigPhase(keys, nodes, s, now) <==> a.key in keys && a in OneConfig(a.key, nodes, s, now)
  {
    hide NodeOf, MaskedFor;
    if keys != [] {
      var m := |keys| - 1;
      ConfigPhaseExactly(keys[..m], nodes, s, now, a);
      assert keys == keys[..m] + [keys[m]];
    }
  }

  /** No machine alarm without a known machine and a configuration. */
  lemma {:induction false} UnknownIsSilent(nodes: seq<NodeRef>, keys: seq<Key>, s: Setting, now: nat, a: Alarm)
    requires DistinctKeys(nodes) && (forall l :: l in keys <==> l in s.cfgs) && NodePhase(nodes, s, now).Done?
    requires a.onMachine && a in NodePhase(nodes, s, now).value + ConfigPhase(keys, nodes, s, now)
    ensures a.key in s.cfgs && a.key.owner in s.machines
  {
    hide NodePhase, ConfigPhase, NodeOf, NodeAlarms, MaskedFor;
    NodePhaseExactly(nodes, s, now, a);
    ConfigPhaseExactly(keys, nodes, s, now, a);
  }

  /** The node and configuration loops together, for one machine and attribute. */
  lemma {:induction false} PassExactly(nodes: seq<NodeRef>, keys: seq<Key>, s: Setting, now: nat, a: Alarm)
    requires DistinctKeys(nodes) && (forall l :: l in keys <==> l in s.cfgs) && NodePhase(nodes, s, now).Done?
    requires a.key in s.cfgs && a.key.owner in s.machines
    ensures var c, flag, n := s.cfgs[a.key], s.machines[a.key.owner], NodeOf(nodes, a.key);
      && (n.Some? ==> NodeAlarms(a.key, c, flag, n.value, now).Done?)
      && (a in NodePhase(nodes, s, now).value + ConfigPhase(keys, nodes, s, now) <==>
            a in AlarmsFor(a.key, c, flag, n, now).value)
  {
    hide NodePhase, ConfigPhase, NodeOf, NodeAlarms, AbsentAlarms;
    NodePhaseExactly(nodes, s, now, a);
    ConfigPhaseExactly(keys, nodes, s, now, a);
    if NodeOf(nodes, a.key).Some? { NodeDone(nodes, s, now, a.key); }
  }

  lemma {:induction false} NodeDone(nodes: seq<NodeRef>, s: Setting, now: nat, k: Key)
    requires NodePhase(nodes, s, now).Done? && NodeOf(nodes, k).Some?
    ensures OneNode(NodeRef(k, NodeOf(nodes, k).value), s, now).Done?
  {
    hide OneNode;
    if nodes[|nodes| - 1].key != k { NodeDone(nodes[..|nodes| - 1], s, now, k); }
  }

  /**
   The configuration loop looks for a machine's node under a view's id: a view's minimum alarm is raised exactly
   when no machine of that id reports the attribute, whatever the view shows.
   */
  lemma {:induction false} ViewMinimumExactly(nodes: seq<NodeRef>, keys: seq<Key>, s: Setting, now: nat, a: Alarm)
    requires DistinctKeys(nodes) && (forall l :: l in keys <==> l in s.cfgs) && NodePhase(nodes, s, now).Done?
    requires !a.onMachine
    ensures a in NodePhase(nodes, s, now).value + ConfigPhase(keys, nodes, s, now) <==>
      && a.key in s.cfgs && !s.cfgs[a.key].machineType && s.cfgs[a.key].minOn && NodeOf(nodes, a.key).None?
      && a == Alarm(Minimum, false, s.cfgs[a.key].masked, a.key, s.cfgs[a.key].min, 0, now)
  {
    hide NodePhase, ConfigPhase, NodeOf, NodeAlarms, MaskedFor;
    NodePhaseExactly(nodes, s, now, a);
    ConfigPhaseExactly(keys, nodes, s, now, a);
    if NodeOf(nodes, a.key).Some? {
      NodeDone(nodes, s, now, a.key);
      OnMachine(NodeRef(a.key, NodeOf(nodes, a.key).value), s, now, a);
    }
  }

  lemma {:induction false} OnMachine(n: NodeRef, s: Setting, now: nat, a: Alarm)
    requires !a.onMachine && OneNode(n, s, now).Done?
    ensures a !in OneNode(n, s, now).value
  {
    hide Adapt, MinuteOfDay, MaskedFor, Unsigned, Change;
    if n.key.owner in s.machines && n.key in s.cfgs {
      NodeAlarmsExactly(n.key, s.cfgs[n.key], s.machines[n.key.owner], n.window, now, a);
    }
  }

  // ---------- back to the reports ----------

  /** Neither in the first two minutes of a day with a report nor with the value two minutes back dropped. */
  ghost predicate PreReadable(es: seq<Runs.Event>, ty: DataType, now: nat) {
    var h := Runs.Reports(es);
    Runs.Run(es, ty, 1).node.Some? && h != [] ==> !FirstMinutes(h[|h| - 1].at, now) && !Dropped(h, now)
  }

  /**
   For a one-minute attribute, over any run of reports, recycling and database passes: exactly which alarms a
   pass raises. Minimum and maximum compare the previous minute's aggregate, the wave its distance to the
   minute before; a machine without a node is low whatever the minimum.
   */
  lemma {:induction false} AlarmsOfTheReports(es: seq<Runs.Event>, ty: DataType, nodes: seq<NodeRef>, keys: seq<Key>,
      s: Setting, now: nat, a: Alarm)
    requires DistinctKeys(nodes) && (forall l :: l in keys <==> l in s.cfgs) && NodePhase(nodes, s, now).Done?
    requires a.key in s.cfgs && a.key.owner in s.machines && s.cfgs[a.key].machineType
    requires Readable(es, ty, 1, now) && NodeOf(nodes, a.key) == Runs.Run(es, ty, 1).node
    requires a.kind.Wave? ==> PreReadable(es, ty, now)
    ensures var c, flag, n := s.cfgs[a.key], s.machines[a.key.owner], NodeOf(nodes, a.key);
      var v, pre := MinuteBefore(Runs.Reports(es), now, ty), TwoMinutesBefore(Runs.Reports(es), now, ty);
      a in NodePhase(nodes, s, now).value + ConfigPhase(keys, nodes, s, now) <==>
        && a.onMachine && a.at == now && a.masked == MaskedFor(c, flag)
        && match a.kind
           case Minimum => c.minOn && a.threshold == c.min && a.value == v && (v < Unsigned(c.min) || n.None?)
           case Maximum => c.maxOn && a.threshold == c.max && a.value == v > Unsigned(c.max)
           case Wave => c.waveOn && a.threshold == c.wave && pre > 0 && a.value == Distance(v, pre) * 100 / pre > c.wave
           case Exception => false
  {
    hide NodePhase, ConfigPhase, NodeOf, NodeAlarms, MaskedFor, Unsigned, Distance, Adapt, MinuteOfDay, Runs.Run,
         Runs.Reports, MinuteBefore, TwoMinutesBefore, FirstMinutes, Dropped, Misread, Runs.Chronological;
    var c, flag, n := s.cfgs[a.key], s.machines[a.key.owner], NodeOf(nodes, a.key);
    PassExactly(nodes, keys, s, now, a);
    if n.Some? {
      NodeAlarmsExactly(a.key, c, flag, n.value, now, a);
      ReaderSeesMinuteBefore(es, now, ty);
      if a.kind.Wave? { ReaderSeesTwoBefore(es, now, ty); }
    } else {
      RecycledSaysNothing(es, now, ty);
      AboveNothing(c);
    }
  }

  lemma {:induction false} AboveNothing(c: Config)
    ensures 0 <= Unsigned(c.max)
  {
  }
}
