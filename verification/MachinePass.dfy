/** One whole pass for machines, and what it says about the reports themselves. */
module MachinePass {
  import opened AlarmInfo
  import opened Basics
  import opened ReportClock
  import opened ReportWindow
  import opened ReaderLimits
  import opened ReportReader
  import opened MachineAlarms
  import Runs = ReportRuns

  /** Alarm configurations, and the warn flags of the known machines. */
  datatype Setting = Setting(cfgs: map<Key, Config>, machines: map<int, nat>)

  function NodeOf(nodes: seq<NodeRef>, k: Key): Option<Window> {
    if nodes == [] then None
    else if nodes[|nodes| - 1].key == k then Some(nodes[|nodes| - 1].window)
    else NodeOf(nodes[..|nodes| - 1], k)
  }

  ghost predicate DistinctKeys(nodes: seq<NodeRef>) {
    forall i, j :: 0 <= i < j < |nodes| ==> nodes[i].key != nodes[j].key
  }

  /** The alarms of one node: none without a known machine or a configuration. */
  function OneNode(n: NodeRef, s: Setting, now: nat): Outcome<seq<Alarm>> {
    if n.key.owner in s.machines && n.key in s.cfgs
    then NodeAlarms(n.key, s.cfgs[n.key], s.machines[n.key.owner], n.window, now)
    else Done([])
  }

  function NodePhase(nodes: seq<NodeRef>, s: Setting, now: nat): Outcome<seq<Alarm>> {
    if nodes == [] then Done([])
    else
      match NodePhase(nodes[..|nodes| - 1], s, now)
      case Undefined => Undefined
      case Done(a) =>
        match OneNode(nodes[|nodes| - 1], s, now)
        case Undefined => Undefined
        case Done(b) => Done(a + b)
  }

  /** The alarms of one configuration: none with a node, or for a machine that is not known. */
  function OneConfig(k: Key, nodes: seq<NodeRef>, s: Setting, now: nat): seq<Alarm>
    requires k in s.cfgs
  {
    if NodeOf(nodes, k).Some? || (s.cfgs[k].machineType && k.owner !in s.machines) then []
    else AbsentAlarms(k, s.cfgs[k], if k.owner in s.machines then s.machines[k.owner] else 0, now)
  }

  function ConfigPhase(keys: seq<Key>, nodes: seq<NodeRef>, s: Setting, now: nat): seq<Alarm>
    requires forall k :: k in keys ==> k in s.cfgs
  {
    if keys == [] then []
    else ConfigPhase(keys[..|keys| - 1], nodes, s, now) + OneConfig(keys[|keys| - 1], nodes, s, now)
  }

  lemma {:induction false} NodePhaseMinima(nodes: seq<NodeRef>, s: Setting, now: nat, k: Key)
    requires DistinctKeys(nodes) && k in s.cfgs && k.owner in s.machines && s.cfgs[k].minOn
    requires NodePhase(nodes, s, now).Done?
    ensures Minima(NodePhase(nodes, s, now).value, k) ==
      if NodeOf(nodes, k).Some? && Value(NodeOf(nodes, k), now) < Unsigned(s.cfgs[k].min) then 1 else 0
  {
    hide NodeAlarms, Minima, Value, Unsigned;
    if nodes == [] {
      NoMinima(k);
    } else {
      var m := |nodes| - 1;
      var n := nodes[m];
      NodePhaseMinima(nodes[..m], s, now, k);
      MinimaAdd(NodePhase(nodes[..m], s, now).value, OneNode(n, s, now).value, k);
      NoMinima(k);
      if n.key.owner in s.machines && n.key in s.cfgs {
        NodeMinima(n.key, k, s.cfgs[n.key], s.machines[n.key.owner], n.window, now);
      }
      if n.key == k { NotEarlier(nodes[..m], k); }
    }
  }

  lemma {:induction false} NoMinima(k: Key)
    ensures Minima([], k) == 0
  {
  }

  lemma {:induction false} NotEarlier(nodes: seq<NodeRef>, k: Key)
    requires forall i :: 0 <= i < |nodes| ==> nodes[i].key != k
    ensures NodeOf(nodes, k).None?
  {
    if nodes != [] { NotEarlier(nodes[..|nodes| - 1], k); }
  }

  lemma {:induction false} ConfigPhaseMinima(keys: seq<Key>, nodes: seq<NodeRef>, s: Setting, now: nat, k: Key)
    requires NoDup(keys) && (forall l :: l in keys ==> l in s.cfgs) && k in s.cfgs
    requires k.owner in s.machines && s.cfgs[k].minOn
    ensures Minima(ConfigPhase(keys, nodes, s, now), k) == if k in keys && NodeOf(nodes, k).None? then 1 else 0
  {
    hide Minima, NodeOf;
    NoMinima(k);
    if keys != [] {
      var m := |keys| - 1;
      ConfigPhaseMinima(keys[..m], nodes, s, now, k);
      MinimaAdd(ConfigPhase(keys[..m], nodes, s, now), OneConfig(keys[m], nodes, s, now), k);
      OneConfigMinima(keys[m], nodes, s, now, k);
      assert keys == keys[..m] + [keys[m]];
      if keys[m] == k { assert k !in keys[..m]; }
    }
  }

  lemma {:induction false} OneConfigMinima(l: Key, nodes: seq<NodeRef>, s: Setting, now: nat, k: Key)
    requires l in s.cfgs && k in s.cfgs && k.owner in s.machines && s.cfgs[k].minOn
    ensures Minima(OneConfig(l, nodes, s, now), k) == if k == l && NodeOf(nodes, k).None? then 1 else 0
  {
    hide Minima, NodeOf, MaskedFor;
    NoMinima(k);
    var one := OneConfig(l, nodes, s, now);
    if one != [] { MinimaOne(one[0], k); }
  }

  /** The node's wave product overflows a signed word. */
  predicate Overflows(n: NodeRef, s: Setting, now: nat) {
    n.key.owner in s.machines && n.key in s.cfgs &&
    var v := Adapt(n.window, now, MinuteOfDay(now));
    var d := ToInt32(Wrap32(v.last - v.pre));
    s.cfgs[n.key].waveOn && v.pre > 0 && (if d < 0 then -d else d) * 100 >= TWO31
  }

  /** The node loop is defined exactly when no node's wave product overflows. */
  lemma {:induction false} NodePhaseDefinedExactly(nodes: seq<NodeRef>, s: Setting, now: nat)
    ensures NodePhase(nodes, s, now).Done? <==> forall i :: 0 <= i < |nodes| ==> !Overflows(nodes[i], s, now)
  {
    hide Adapt, MinuteOfDay, Wrap32, MaskedFor;
    if nodes != [] { NodePhaseDefinedExactly(nodes[..|nodes| - 1], s, now); }
  }

  /** The pass is defined, and the configuration k asks for a minimum other than 0 of a known machine. */
  ghost predicate Asked(nodes: seq<NodeRef>, keys: seq<Key>, s: Setting, now: nat, k: Key) {
    && DistinctKeys(nodes) && NoDup(keys) && (forall l :: l in keys <==> l in s.cfgs)
    && k in s.cfgs && k.owner in s.machines && s.cfgs[k].minOn && Unsigned(s.cfgs[k].min) != 0
    && NodePhase(nodes, s, now).Done?
  }

  /** The whole pass raises one minimum alarm for a low machine and none otherwise, if the minimum is not 0. */
  lemma {:induction false} PassMinima(nodes: seq<NodeRef>, keys: seq<Key>, s: Setting, now: nat, k: Key)
    requires Asked(nodes, keys, s, now, k)
    ensures Minima(NodePhase(nodes, s, now).value + ConfigPhase(keys, nodes, s, now), k) ==
      if Value(NodeOf(nodes, k), now) < Unsigned(s.cfgs[k].min) then 1 else 0
  {
    hide NodePhase, ConfigPhase, Minima, Unsigned, NodeOf, Adapt, MinuteOfDay;
    MinimaAdd(NodePhase(nodes, s, now).value, ConfigPhase(keys, nodes, s, now), k);
    NodePhaseMinima(nodes, s, now, k);
    ConfigPhaseMinima(keys, nodes, s, now, k);
  }

  // ---------- back to the reports ----------

  /** A run of an attribute that is not cumulative, and whose node, if it has one, is not misread now. */
  ghost predicate Readable(es: seq<Runs.Event>, ty: DataType, p: Period, now: nat) {
    && es != [] && Runs.Chronological(es) && !ty.TotalType? && es[|es| - 1].at <= now
    && (Runs.Run(es, ty, p).node.Some? ==> !Misread(es, now))
  }

  /** A one-minute attribute's value is the previous minute's aggregate, whether or not the node was recycled. */
  lemma {:induction false} ValueIsMinuteBefore(es: seq<Runs.Event>, ty: DataType, now: nat)
    requires Readable(es, ty, 1, now)
    ensures Value(Runs.Run(es, ty, 1).node, now) == MinuteBefore(Runs.Reports(es), now, ty)
  {
    hide Runs.Run, Runs.Reports, Runs.Chronological, Adapt, MinuteBefore, Misread, MinuteOfDay;
    if Runs.Run(es, ty, 1).node.Some? {
      ReaderSeesMinuteBefore(es, now, ty);
    } else {
      RecycledSaysNothing(es, now, ty);
    }
  }

  /**
   Over any run of reports, recycling and database passes of a one-minute attribute: the pass raises
   exactly one minimum alarm when the previous minute's aggregate is below the minimum, and none otherwise.
   */
  lemma {:induction false} MinimumOfTheReports(es: seq<Runs.Event>, ty: DataType, nodes: seq<NodeRef>, keys: seq<Key>,
      s: Setting, now: nat, k: Key)
    requires Asked(nodes, keys, s, now, k)
    requires Readable(es, ty, 1, now) && NodeOf(nodes, k) == Runs.Run(es, ty, 1).node
    ensures Minima(NodePhase(nodes, s, now).value + ConfigPhase(keys, nodes, s, now), k) ==
      if MinuteBefore(Runs.Reports(es), now, ty) < Unsigned(s.cfgs[k].min) then 1 else 0
  {
    hide NodePhase, ConfigPhase, Minima, Unsigned, NodeOf, Readable, Value, MinuteBefore, Runs.Run, Runs.Reports;
    PassMinima(nodes, keys, s, now, k);
    ValueIsMinuteBefore(es, ty, now);
  }

  /** One pass for an attribute of period p raises its minimum alarm when the aggregate of the period before is low. */
  ghost predicate MinimumTrue(es: seq<Runs.Event>, ty: DataType, nodes: seq<NodeRef>, keys: seq<Key>, s: Setting,
      now: nat, k: Key, p: Period)
    requires Asked(nodes, keys, s, now, k)
  {
    Minima(NodePhase(nodes, s, now).value + ConfigPhase(keys, nodes, s, now), k) ==
      if PeriodBefore(Runs.Reports(es), now, ty, p) < Unsigned(s.cfgs[k].min) then 1 else 0
  }

  ghost predicate MinimumTrueFor(p: Period) {
    forall es: seq<Runs.Event>, ty: DataType, nodes: seq<NodeRef>, keys: seq<Key>, s: Setting, now: nat, k: Key
      | Asked(nodes, keys, s, now, k) && Readable(es, ty, p, now) && NodeOf(nodes, k) == Runs.Run(es, ty, p).node
      :: MinimumTrue(es, ty, nodes, keys, s, now, k, p)
  }

  /** A minimum of 5 and nothing else, for machine 1 and attribute 1. */
  function OnlyMinimum(): Setting {
    Setting(map[Key(1, 1) := Config(5, 0, 0, true, false, false, true, false, false)], map[1 := 0])
  }

  /** An alarm is raised although the period before had 5, the minimum. */
  lemma {:induction false} FalseMinimum(p: Period)
    requires p > 1
    ensures var es, k, now := Lone(), Key(1, 1), NextPeriod(p);
      var n := Runs.Run(es, SumType, p).node;
      && n.Some? && Asked([NodeRef(k, n.value)], [k], OnlyMinimum(), now, k) && Readable(es, SumType, p, now)
      && NodeOf([NodeRef(k, n.value)], k) == n
      && !MinimumTrue(es, SumType, [NodeRef(k, n.value)], [k], OnlyMinimum(), now, k, p)
  {
    hide Runs.Run, Runs.Reports, Adapt, PeriodBefore, MinuteOfDay, Misread, NextPeriod, Minima;
    LonePeriodLost(p);
    var k, now := Key(1, 1), NextPeriod(p);
    var nodes := [NodeRef(k, Runs.Run(Lone(), SumType, p).node.value)];
    var s := OnlyMinimum();
    assert nodes[..0] == [] && NodePhase([], s, now) == Done([]);
    assert NodePhase(nodes, s, now).Done?;
    PassMinima(nodes, [k], s, now, k);
  }

  /** Minimum alarms tell the truth over all runs and passes if and only if the period is one minute. */
  lemma {:induction false} MinimumTrueIffOneMinute(p: Period)
    ensures MinimumTrueFor(p) <==> p == 1
  {
    hide Runs.Run, Runs.Reports, Minima, NodePhase, ConfigPhase, Readable, Asked, MinimumTrue, NodeOf;
    if p == 1 {
      forall es: seq<Runs.Event>, ty: DataType, nodes: seq<NodeRef>, keys: seq<Key>, s: Setting, now: nat, k: Key
        | Asked(nodes, keys, s, now, k) && Readable(es, ty, p, now) && NodeOf(nodes, k) == Runs.Run(es, ty, p).node
        ensures MinimumTrue(es, ty, nodes, keys, s, now, k, p)
      {
        OneMinuteTrue(es, ty, nodes, keys, s, now, k);
      }
    } else {
      FalseMinimum(p);
    }
  }

  lemma {:induction false} OneMinuteTrue(es: seq<Runs.Event>, ty: DataType, nodes: seq<NodeRef>, keys: seq<Key>,
      s: Setting, now: nat, k: Key)
    requires Asked(nodes, keys, s, now, k) && Readable(es, ty, 1, now)
    requires NodeOf(nodes, k) == Runs.Run(es, ty, 1).node
    ensures MinimumTrue(es, ty, nodes, keys, s, now, k, 1)
  {
    hide NodePhase, ConfigPhase, Minima, Unsigned, NodeOf, Readable, Runs.Run, Runs.Reports, PeriodBefore, MinuteBefore;
    MinimumOfTheReports(es, ty, nodes, keys, s, now, k);
    PeriodIsMinute(Runs.Reports(es), now, ty);
  }

  // ---------- the loops ----------

  class AlarmChecker {
    var listWarn: seq<Alarm>

    method Push(kind: Kind, onMachine: bool, masked: bool, k: Key, threshold: int, value: int, at: nat)
      modifies this
      ensures listWarn == old(listWarn) + [Alarm(kind, onMachine, masked, k, threshold, value, at)]
    {
      listWarn := listWarn + [Alarm(kind, onMachine, masked, k, threshold, value, at)];
    }

    /** CheckMachineWarn; ok is false where the source's product overflows. */
    method CheckMachine(k: Key, c: Config, machineFlag: nat, w: Window, now: nat) returns (ok: bool)
      modifies this
      ensures ok == NodeAlarms(k, c, machineFlag, w, now).Done?
      ensures ok ==> listWarn == old(listWarn) + NodeAlarms(k, c, machineFlag, w, now).value
    {
      hide Adapt, MinuteOfDay, Change, MaskedFor, Unsigned;
      var v := Adapt(w, now, MinuteOfDay(now));
      if c.minOn && v.last < Unsigned(c.min) {
        Push(Minimum, true, MaskedFor(c, machineFlag), k, c.min, v.last, now);
      }
      if c.maxOn && v.last > Unsigned(c.max) {
        Push(Maximum, true, MaskedFor(c, machineFlag), k, c.max, v.last, now);
      }
      if c.waveOn && v.pre > 0 {
        var x := Change(v.last, v.pre);
        if x.Undefined? {
          return false;
        }
        if x.value > c.wave {
          Push(Wave, true, MaskedFor(c, machineFlag), k, c.wave, x.value, now);
        }
      }
      return true;
    }

    /** The node loop of CheckAttrWarn, for machines. */
    method CheckNodes(nodes: seq<NodeRef>, s: Setting, now: nat) returns (ok: bool)
      modifies this
      ensures ok == NodePhase(nodes, s, now).Done?
      ensures ok ==> listWarn == old(listWarn) + NodePhase(nodes, s, now).value
    {
      hide NodeAlarms;
      var i := 0;
      assert nodes[..0] == [];
      while i < |nodes|
        invariant 0 <= i <= |nodes| && NodePhase(nodes[..i], s, now).Done?
        invariant listWarn == old(listWarn) + NodePhase(nodes[..i], s, now).value
      {
        var n := nodes[i];
        assert nodes[..i + 1][..i] == nodes[..i];
        if n.key.owner in s.machines && n.key in s.cfgs {
          ok := CheckMachine(n.key, s.cfgs[n.key], s.machines[n.key.owner], n.window, now);
          if !ok {
            UndefinedStays(nodes, i + 1, s, now);
            return;
          }
        }
        i := i + 1;
      }
      assert nodes[..i] == nodes;
      return true;
    }

    /** CheckWarnConfig. */
    method CheckConfigs(keys: seq<Key>, nodes: seq<NodeRef>, s: Setting, now: nat)
      requires forall k :: k in keys ==> k in s.cfgs
      modifies this
      ensures listWarn == old(listWarn) + ConfigPhase(keys, nodes, s, now)
    {
      hide NodeOf, MaskedFor;
      var i := 0;
      while i < |keys|
        invariant 0 <= i <= |keys| && listWarn == old(listWarn) + ConfigPhase(keys[..i], nodes, s, now)
      {
        var k := keys[i];
        var c := s.cfgs[k];
        assert keys[..i + 1][..i] == keys[..i];
        if c.minOn && NodeOf(nodes, k).None? && !(c.machineType && k.owner !in s.machines) {
          var masked := c.masked;
          if c.machineType && MaskedFor(c, s.machines[k.owner]) {
            masked := true;
          }
          MaskKept(c, if k.owner in s.machines then s.machines[k.owner] else 0);
          Push(Minimum, c.machineType, masked, k, c.min, 0, now);
        }
        i := i + 1;
      }
      assert keys[..i] == keys;
    }
  }

  lemma {:induction false} MaskKept(c: Config, machineFlag: nat)
    ensures c.masked ==> MaskedFor(c, machineFlag)
  {
  }

  lemma {:induction false} UndefinedStays(nodes: seq<NodeRef>, i: nat, s: Setting, now: nat)
    requires i <= |nodes| && NodePhase(nodes[..i], s, now).Undefined?
    ensures NodePhase(nodes, s, now).Undefined?
    decreases |nodes|
  {
    hide OneNode;
    if i < |nodes| {
      assert nodes[..|nodes| - 1][..i] == nodes[..i];
      UndefinedStays(nodes[..|nodes| - 1], i, s, now);
    } else {
      assert nodes[..i] == nodes;
    }
  }
}
