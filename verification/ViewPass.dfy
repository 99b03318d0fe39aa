/** The alarm checker's pass over the report nodes, as far as views are concerned. */
module ViewPass {
  import opened AlarmInfo
  import opened ReportClock
  import opened ReportReader
  import opened ViewRuns
  import opened ViewSum

  lemma {:induction false} CommonNone(ofAttr: seq<int>)
    ensures Common([], ofAttr) == []
  {
  }

  lemma {:induction false} CommonGrows(ofMachine: seq<int>, ofAttr: seq<int>, i: nat)
    requires i < |ofMachine|
    ensures Common(ofMachine[..i + 1], ofAttr) ==
      if ofMachine[i] in ofAttr then Common(ofMachine[..i], ofAttr) + [ofMachine[i]] else Common(ofMachine[..i], ofAttr)
  {
    assert ofMachine[..i + 1][..i] == ofMachine[..i];
  }

  /** GetReportViews. */
  method GetReportViews(n: NodeRef, b: Bindings) returns (list: seq<int>)
    requires n.key.owner in b.machines
    ensures list == ViewsFor(n, b)
  {
    hide Common;
    list := [];
    if n.key.owner !in b.ofMachine || n.key.attr !in b.ofAttr {
      return;
    }
    var ofMachine, ofAttr := b.ofMachine[n.key.owner], b.ofAttr[n.key.attr];
    var i := 0;
    CommonNone(ofAttr);
    assert ofMachine[..0] == [];
    while i < |ofMachine|
      invariant 0 <= i <= |ofMachine| && list == Common(ofMachine[..i], ofAttr)
    {
      CommonGrows(ofMachine, ofAttr, i);
      var j := 0;
      while j < |ofAttr| && ofMachine[i] != ofAttr[j]
        invariant 0 <= j <= |ofAttr| && ofMachine[i] !in ofAttr[..j]
      {
        j := j + 1;
      }
      if j < |ofAttr| {
        list := list + [ofMachine[i]];
      } else {
        assert ofAttr[..j] == ofAttr;
      }
      i := i + 1;
    }
    assert ofMachine[..i] == ofMachine;
  }

  class ViewChecker {
    var cfgs: map<Key, Cfg>
    var seen: set<int>    // the keys of mapViewWarnCfgs
    var lastMinute: nat   // s_iLastCheckMinIdx

    /** AdaptViewReportValue. */
    method Prepare(k: Key, now: nat)
      requires k in cfgs
      modifies `cfgs
      ensures cfgs == old(cfgs)[k := Prepared(old(cfgs)[k], now)]
    {
      hide MinuteOfDay;
      var c := cfgs[k];
      var pre, last := c.pre, c.last;
      var minute, minuteView := MinuteOfDay(now), MinuteOfDay(c.at);
      if now >= c.at + 1440 * 60 {
        last, pre := 0, 0;
      } else if minuteView != minute {
        if (minuteView + 1) % 1440 == minute {
          pre := last;
          last := 0;
        } else {
          pre, last := 0, 0;
        }
      }
      cfgs := cfgs[k := Cfg(c.id, pre, last, now)];
    }

    /** The views of one node. */
    method AddNode(n: NodeRef, list: seq<int>, now: nat)
      modifies `cfgs, `seen
      ensures Pass(cfgs, seen) == AddToViews(old(Pass(cfgs, seen)), list, n, now)
    {
      hide Adapt, MinuteOfDay, Prepared;
      var i := 0;
      while i < |list|
        invariant 0 <= i <= |list|
        invariant Pass(cfgs, seen) == AddToViews(old(Pass(cfgs, seen)), list[..i], n, now)
      {
        assert list[..i + 1][..i] == list[..i];
        var k := Key(list[i], n.key.attr);
        if k in cfgs {
          if cfgs[k].id !in seen {
            seen := seen + {cfgs[k].id};
            Prepare(k, now);
          } else {
            assert seen + {cfgs[k].id} == seen;
            assert cfgs[k := cfgs[k]] == cfgs;
          }
          var a := Adapt(n.window, now, MinuteOfDay(now));
          cfgs := cfgs[k := Added(cfgs[k], a)];
        }
        i := i + 1;
      }
      assert list[..i] == list;
    }

    /** CheckAttrWarn's loop over the nodes. */
    method CheckNodes(nodes: seq<NodeRef>, b: Bindings, now: nat)
      modifies `cfgs, `seen
      ensures Pass(cfgs, seen) == Scan(old(cfgs), nodes, b, now)
    {
      hide AddToViews, ViewsFor;
      seen := {};
      var i := 0;
      while i < |nodes|
        invariant 0 <= i <= |nodes| && Pass(cfgs, seen) == Scan(old(cfgs), nodes[..i], b, now)
      {
        assert nodes[..i + 1][..i] == nodes[..i];
        if nodes[i].key.owner !in b.machines {
          NoViews(Pass(cfgs, seen), nodes[i], b, now);
        } else {
          var list := GetReportViews(nodes[i], b);
          AddNode(nodes[i], list, now);
        }
        i := i + 1;
      }
      assert nodes[..i] == nodes;
    }

    /** CheckAttrWarn: at most one pass a minute. */
    method CheckAttrWarn(nodes: seq<NodeRef>, b: Bindings, now: nat)
      modifies this
      ensures Checker(cfgs, lastMinute) == Step(old(Checker(cfgs, lastMinute)), Check(nodes, b, now))
    {
      hide Scan, MinuteOfDay;
      var minute := MinuteOfDay(now);
      if lastMinute == minute {
        return;
      }
      lastMinute := minute;
      CheckNodes(nodes, b, now);
    }
  }

  lemma {:induction false} NoViews(p: Pass, n: NodeRef, b: Bindings, now: nat)
    requires n.key.owner !in b.machines
    ensures AddToViews(p, ViewsFor(n, b), n, now) == p
  {
  }
}
