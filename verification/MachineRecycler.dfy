/** The recycling of silent report nodes, and why machine alarms do not notice it. */
module MachineRecycler {
  import opened AlarmInfo
  import opened Basics
  import opened ReportClock
  import opened ReportReader
  import opened ReportWindow
  import opened MachineAlarms
  import opened MachinePass
  import Runs = ReportRuns

  /** The node goes when its attribute is unknown, or when it has been silent for ten of the attribute's periods. */
  predicate Goes(n: NodeRef, attrs: map<int, Period>, now: nat) {
    n.key.attr !in attrs || Runs.Recyclable(n.window, now, attrs[n.key.attr])
  }

  function Kept(nodes: seq<NodeRef>, attrs: map<int, Period>, now: nat): seq<NodeRef> {
    if nodes == [] then []
    else
      var n := nodes[|nodes| - 1];
      var k := Kept(nodes[..|nodes| - 1], attrs, now);
      if Goes(n, attrs, now) then k else k + [n]
  }

  lemma {:induction false} KeptNode(nodes: seq<NodeRef>, attrs: map<int, Period>, now: nat, k: Key)
    requires DistinctKeys(nodes)
    ensures var n := NodeOf(nodes, k);
      NodeOf(Kept(nodes, attrs, now), k) == if n.Some? && Goes(NodeRef(k, n.value), attrs, now) then None else n
  {
    hide Goes;
    if nodes != [] {
      var m := |nodes| - 1;
      KeptNode(nodes[..m], attrs, now, k);
      var g := Kept(nodes[..m], attrs, now);
      assert (g + [nodes[m]])[..|g|] == g;
      if nodes[m].key == k { NotEarlier(nodes[..m], k); }
    }
  }

  /** What is left: nodes of known attributes that are cumulative or were heard of within ten periods. */
  lemma {:induction false} KeptExactly(nodes: seq<NodeRef>, attrs: map<int, Period>, now: nat, n: NodeRef)
    ensures n in Kept(nodes, attrs, now) <==>
      && n in nodes && n.key.attr in attrs
      && var p: int := attrs[n.key.attr];
         n.window.dataType.TotalType? || now < n.window.lastTime + p * 60 * 10
  {
    if nodes != [] {
      var m := |nodes| - 1;
      KeptExactly(nodes[..m], attrs, now, n);
      assert nodes == nodes[..m] + [nodes[m]];
    }
  }

  /** For the node of a run, a pass over the table is the recycling event of that run. */
  lemma {:induction false} PassIsEvent(nodes: seq<NodeRef>, attrs: map<int, Period>, now: nat, k: Key,
      es: seq<Runs.Event>, ty: DataType)
    requires DistinctKeys(nodes) && k.attr in attrs && NodeOf(nodes, k) == Runs.Run(es, ty, attrs[k.attr]).node
    ensures NodeOf(Kept(nodes, attrs, now), k) == Runs.Run(es + [Runs.Recycle(now)], ty, attrs[k.attr]).node
  {
    hide NodeOf, Kept;
    KeptNode(nodes, attrs, now, k);
    assert (es + [Runs.Recycle(now)])[..|es|] == es;
  }

  /** A one-minute node of a known attribute, outside the reader's day-old case. */
  predicate Plain(n: NodeRef, attrs: map<int, Period>, now: nat) {
    && n.key.attr in attrs && attrs[n.key.attr] == 1
    && n.window.minIdx == Slot(n.window.lastTime, 1)
    && !DayOld(n.window.lastTime, now)
  }

  /** No machine alarm of any configuration with a minimum other than 0 depends on recycling. */
  lemma {:induction false} RecyclingUnseen(nodes: seq<NodeRef>, attrs: map<int, Period>, now: nat, k: Key,
      c: Config, machineFlag: nat)
    requires DistinctKeys(nodes) && c.machineType && (c.minOn ==> Unsigned(c.min) != 0)
    requires NodeOf(nodes, k).Some? ==> Plain(NodeRef(k, NodeOf(nodes, k).value), attrs, now)
    ensures AlarmsFor(k, c, machineFlag, NodeOf(Kept(nodes, attrs, now), k), now) ==
            AlarmsFor(k, c, machineFlag, NodeOf(nodes, k), now)
  {
    hide NodeOf, Kept, AlarmsFor, Slot, Unsigned, DayOld;
    KeptNode(nodes, attrs, now, k);
    var n := NodeOf(nodes, k);
    if n.Some? && Goes(NodeRef(k, n.value), attrs, now) {
      RecyclingUnseenExactly(k, c, machineFlag, n.value, now);
    }
  }

  /** The node of any run in which recycling has not stopped for 23 hours 49 minutes is such a node. */
  lemma {:induction false} TrackedIsPlain(n: NodeRef, attrs: map<int, Period>, es: seq<Runs.Event>,
      ty: DataType, now: nat)
    requires n.key.attr in attrs && attrs[n.key.attr] == 1
    requires es != [] && Runs.Chronological(es) && !ty.TotalType? && es[|es| - 1].at <= now
    requires Runs.Run(es, ty, 1).node == Some(n.window) && RecycledLately(es, now)
    ensures Plain(n, attrs, now)
  {
    hide Runs.Run, Runs.Chronological, RecycledLately, DayOld, Slot;
    Runs.WindowAlwaysExact(es, ty, 1);
    RecyclingExcludesDayOld(es, now, ty);
  }

  class ReportTable {
    var nodes: seq<NodeRef>

    /** CheckWarnAttrHashNode; a removed node's successor takes its place in the iteration. */
    method Recycle(attrs: map<int, Period>, now: nat)
      modifies this
      ensures nodes == Kept(old(nodes), attrs, now)
    {
      ghost var was, read := nodes, 0;
      var i := 0;
      while i < |nodes|
        invariant 0 <= i <= |nodes| && 0 <= read <= |was| && nodes[i..] == was[read..]
        invariant nodes[..i] == Kept(was[..read], attrs, now)
        decreases |was| - read
      {
        var n := nodes[i];
        assert n == nodes[i..][0] == was[read];
        assert was[..read + 1][..read] == was[..read];
        assert was[read + 1..] == nodes[i..][1..];
        if n.key.attr !in attrs || Runs.Recyclable(n.window, now, attrs[n.key.attr]) {
          nodes := nodes[..i] + nodes[i + 1..];
        } else {
          i := i + 1;
        }
        read := read + 1;
      }
      assert nodes[..i] == nodes && was[..read] == was;
    }
  }
}
