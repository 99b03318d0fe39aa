/** The value of a view: one pass of the alarm checker over the report nodes. */
module ViewSum {
  import opened AlarmInfo
  import opened Basics
  import opened ReportClock
  import opened ReportWindow
  import opened ReportReader

  /** Known machines and the two binding tables. */
  datatype Bindings = Bindings(machines: set<int>, ofMachine: map<int, seq<int>>, ofAttr: map<int, seq<int>>)

  /** iWarnConfigId and dwReserved1 to dwReserved3. */
  datatype Cfg = Cfg(id: int, pre: Uint32, last: Uint32, at: nat)

  /** The configurations by view and attribute, and the ids already prepared in this pass. */
  datatype Pass = Pass(cfgs: map<Key, Cfg>, seen: set<int>)

  // ---------- the pass ----------

  /** AdaptViewReportValue. */
  function Prepared(c: Cfg, now: nat): Cfg {
    if now >= c.at + DAY_SEC then c.(pre := 0, last := 0, at := now)
    else if MinuteOfDay(c.at) == MinuteOfDay(now) then c.(at := now)
    else if (MinuteOfDay(c.at) + 1) % DAY_MIN == MinuteOfDay(now) then c.(pre := c.last, last := 0, at := now)
    else c.(pre := 0, last := 0, at := now)
  }

  /** AddReportValForViewWarn. */
  function Added(c: Cfg, a: Adapted): Cfg {
    c.(pre := Wrap32(c.pre + a.pre), last := Wrap32(c.last + a.last))
  }

  /** One view of a node's list. */
  function AddToView(p: Pass, view: int, n: NodeRef, now: nat): Pass {
    var k := Key(view, n.key.attr);
    if k !in p.cfgs then p
    else
      var c := p.cfgs[k];
      var d := if c.id in p.seen then c else Prepared(c, now);
      Pass(p.cfgs[k := Added(d, Adapt(n.window, now, MinuteOfDay(now)))], p.seen + {c.id})
  }

  function AddToViews(p: Pass, views: seq<int>, n: NodeRef, now: nat): Pass {
    if views == [] then p else AddToView(AddToViews(p, views[..|views| - 1], n, now), views[|views| - 1], n, now)
  }

  /** GetReportViews: the machine's views that the attribute is bound to as well. */
  function Common(ofMachine: seq<int>, ofAttr: seq<int>): seq<int> {
    if ofMachine == [] then []
    else
      var v := ofMachine[|ofMachine| - 1];
      var c := Common(ofMachine[..|ofMachine| - 1], ofAttr);
      if v in ofAttr then c + [v] else c
  }

  function ViewsFor(n: NodeRef, b: Bindings): seq<int> {
    if n.key.owner in b.machines && n.key.owner in b.ofMachine && n.key.attr in b.ofAttr
    then Common(b.ofMachine[n.key.owner], b.ofAttr[n.key.attr])
    else []
  }

  function Scan(cfgs: map<Key, Cfg>, nodes: seq<NodeRef>, b: Bindings, now: nat): Pass {
    if nodes == [] then Pass(cfgs, {})
    else
      var n := nodes[|nodes| - 1];
      AddToViews(Scan(cfgs, nodes[..|nodes| - 1], b, now), ViewsFor(n, b), n, now)
  }

  // ---------- what a view should show ----------

  /** The node's machine is known and bound to a view that binds the attribute. */
  predicate Contributes(n: NodeRef, k: Key, b: Bindings) {
    && n.key.attr == k.attr && n.key.owner in b.machines
    && n.key.owner in b.ofMachine && k.owner in b.ofMachine[n.key.owner]
    && n.key.attr in b.ofAttr && k.owner in b.ofAttr[n.key.attr]
  }

  function Contributions(nodes: seq<NodeRef>, k: Key, b: Bindings, now: nat): nat {
    if nodes == [] then 0
    else
      var n := nodes[|nodes| - 1];
      Contributions(nodes[..|nodes| - 1], k, b, now)
        + if Contributes(n, k, b) then Adapt(n.window, now, MinuteOfDay(now)).last else 0
  }

  /** The same for the adapted previous values. */
  function PreContributions(nodes: seq<NodeRef>, k: Key, b: Bindings, now: nat): nat {
    if nodes == [] then 0
    else
      var n := nodes[|nodes| - 1];
      PreContributions(nodes[..|nodes| - 1], k, b, now)
        + if Contributes(n, k, b) then Adapt(n.window, now, MinuteOfDay(now)).pre else 0
  }

  predicate AnyContributes(nodes: seq<NodeRef>, k: Key, b: Bindings) {
    exists i :: 0 <= i < |nodes| && Contributes(nodes[i], k, b)
  }

  /** What the pass starts from: nothing, unless the last pass was in this very minute of the day. */
  function Base(c: Cfg, now: nat): Uint32 {
    if now < c.at + DAY_SEC && MinuteOfDay(c.at) == MinuteOfDay(now) then c.last else 0
  }

  /** What the previous value starts from: the last pass's value when that was in the minute of the day before. */
  function PreBase(c: Cfg, now: nat): Uint32 {
    if now >= c.at + DAY_SEC then 0
    else if MinuteOfDay(c.at) == MinuteOfDay(now) then c.pre
    else if (MinuteOfDay(c.at) + 1) % DAY_MIN == MinuteOfDay(now) then c.last
    else 0
  }

  /** The minute of the day comes round within a minute, or when almost a day has passed. */
  lemma {:induction false} BaseIsZeroUnless(c: Cfg, now: nat)
    requires c.at <= now
    ensures Base(c, now) != 0 ==> now < c.at + 60 || c.at + DAY_SEC - 60 < now < c.at + DAY_SEC
  {
    var x, y := c.at % DAY_SEC, now % DAY_SEC;
    var days := now / DAY_SEC - c.at / DAY_SEC;
    assert x / 60 == y / 60 ==> -60 < y - x < 60;
    assert now - c.at == days * DAY_SEC + y - x;
  }

  ghost predicate DistinctIds(cfgs: map<Key, Cfg>) {
    forall k, l :: k in cfgs && l in cfgs && cfgs[k].id == cfgs[l].id ==> k == l
  }

  ghost predicate ArraysDistinct(b: Bindings) {
    forall m :: m in b.ofMachine ==> NoDup(b.ofMachine[m])
  }

  lemma {:induction false} CommonIs(ofMachine: seq<int>, ofAttr: seq<int>)
    requires NoDup(ofMachine)
    ensures NoDup(Common(ofMachine, ofAttr))
    ensures forall v :: v in Common(ofMachine, ofAttr) <==> v in ofMachine && v in ofAttr
  {
    if ofMachine != [] {
      var n := |ofMachine| - 1;
      CommonIs(ofMachine[..n], ofAttr);
      assert ofMachine == ofMachine[..n] + [ofMachine[n]];
      assert ofMachine[n] !in ofMachine[..n];
    }
  }

  lemma {:induction false} ViewsForIs(n: NodeRef, b: Bindings, k: Key)
    requires ArraysDistinct(b) && n.key.attr == k.attr
    ensures NoDup(ViewsFor(n, b))
    ensures k.owner in ViewsFor(n, b) <==> Contributes(n, k, b)
  {
    if n.key.owner in b.ofMachine && n.key.attr in b.ofAttr {
      CommonIs(b.ofMachine[n.key.owner], b.ofAttr[n.key.attr]);
    }
  }

  /** Ids are kept, and exactly the prepared ones are marked. */
  ghost predicate Coherent(p: Pass, cfgs: map<Key, Cfg>) {
    && p.cfgs.Keys == cfgs.Keys
    && forall k :: k in cfgs ==> p.cfgs[k].id == cfgs[k].id
  }

  /** The view k of p is the one of cfgs, prepared once if anything was ever added, plus last and pre. */
  ghost predicate Shows(p: Pass, cfgs: map<Key, Cfg>, k: Key, touched: bool, last: nat, pre: nat, now: nat)
    requires k in cfgs
  {
    && k in p.cfgs
    && (cfgs[k].id in p.seen <==> touched)
    && if touched then
         && p.cfgs[k].last == Wrap32(Base(cfgs[k], now) + last)
         && p.cfgs[k].pre == Wrap32(PreBase(cfgs[k], now) + pre)
         && p.cfgs[k].at == now
       else p.cfgs[k] == cfgs[k]
  }

  lemma {:induction false} AddOne(p: Pass, cfgs: map<Key, Cfg>, k: Key, view: int, n: NodeRef,
      touched: bool, last: nat, pre: nat, now: nat)
    requires k in cfgs && DistinctIds(cfgs) && Coherent(p, cfgs) && Shows(p, cfgs, k, touched, last, pre, now)
    requires !touched ==> last == pre == 0
    ensures var q, a := AddToView(p, view, n, now), Adapt(n.window, now, MinuteOfDay(now));
      && Coherent(q, cfgs)
      && if k == Key(view, n.key.attr) then Shows(q, cfgs, k, true, last + a.last, pre + a.pre, now)
         else Shows(q, cfgs, k, touched, last, pre, now)
  {
    hide Adapt, MinuteOfDay, Wrap32;
    var a := Adapt(n.window, now, MinuteOfDay(now));
    WrapAdd(Base(cfgs[k], now) + last, a.last);
    WrapAdd(PreBase(cfgs[k], now) + pre, a.pre);
    WrapSmall(Base(cfgs[k], now));
    WrapSmall(PreBase(cfgs[k], now));
  }

  lemma {:induction false} AddAll(p: Pass, cfgs: map<Key, Cfg>, k: Key, views: seq<int>, n: NodeRef,
      touched: bool, last: nat, pre: nat, now: nat)
    requires k in cfgs && DistinctIds(cfgs) && Coherent(p, cfgs) && Shows(p, cfgs, k, touched, last, pre, now)
    requires NoDup(views) && (!touched ==> last == pre == 0)
    ensures var q, a := AddToViews(p, views, n, now), Adapt(n.window, now, MinuteOfDay(now));
      && Coherent(q, cfgs)
      && if k.attr == n.key.attr && k.owner in views then Shows(q, cfgs, k, true, last + a.last, pre + a.pre, now)
         else Shows(q, cfgs, k, touched, last, pre, now)
  {
    hide AddToView, Adapt, MinuteOfDay, Shows, Coherent, DistinctIds;
    if views != [] {
      var m := |views| - 1;
      assert views == views[..m] + [views[m]];
      AddAll(p, cfgs, k, views[..m], n, touched, last, pre, now);
      var q, a := AddToViews(p, views[..m], n, now), Adapt(n.window, now, MinuteOfDay(now));
      if k.attr == n.key.attr && k.owner in views[..m] {
        assert k.owner != views[m];
        AddOne(q, cfgs, k, views[m], n, true, last + a.last, pre + a.pre, now);
      } else {
        AddOne(q, cfgs, k, views[m], n, touched, last, pre, now);
      }
    }
  }

  /**
   After a pass a view's values are what they started from plus the adapted values of exactly
   the nodes that contribute, each once; a view no node contributes to is not touched.
   */
  lemma {:induction false} ScanSums(cfgs: map<Key, Cfg>, nodes: seq<NodeRef>, b: Bindings, now: nat, k: Key)
    requires k in cfgs && DistinctIds(cfgs) && ArraysDistinct(b)
    ensures Coherent(Scan(cfgs, nodes, b, now), cfgs)
    ensures Shows(Scan(cfgs, nodes, b, now), cfgs, k, AnyContributes(nodes, k, b),
                  Contributions(nodes, k, b, now), PreContributions(nodes, k, b, now), now)
    ensures !AnyContributes(nodes, k, b) ==> Contributions(nodes, k, b, now) == PreContributions(nodes, k, b, now) == 0
  {
    hide AddToViews, Adapt, MinuteOfDay, DistinctIds, ArraysDistinct, ViewsFor, Contributes;
    if nodes != [] {
      var m := |nodes| - 1;
      var n := nodes[m];
      ScanSums(cfgs, nodes[..m], b, now, k);
      ViewsDistinct(n, b);
      if n.key.attr == k.attr { ViewsForIs(n, b, k); }
      AddAll(Scan(cfgs, nodes[..m], b, now), cfgs, k, ViewsFor(n, b), n,
             AnyContributes(nodes[..m], k, b), Contributions(nodes[..m], k, b, now),
             PreContributions(nodes[..m], k, b, now), now);
      AnyGrows(nodes, k, b);
    }
  }

  lemma {:induction false} ViewsDistinct(n: NodeRef, b: Bindings)
    requires ArraysDistinct(b)
    ensures NoDup(ViewsFor(n, b))
  {
    ViewsForIs(n, b, Key(0, n.key.attr));
  }

  lemma {:induction false} AnyGrows(nodes: seq<NodeRef>, k: Key, b: Bindings)
    requires nodes != []
    ensures var m := |nodes| - 1;
      AnyContributes(nodes, k, b) <==> AnyContributes(nodes[..m], k, b) || Contributes(nodes[m], k, b)
    ensures Contributes(nodes[|nodes| - 1], k, b) ==> nodes[|nodes| - 1].key.attr == k.attr
  {
    hide Contributes;
    ContributesAttr(nodes[|nodes| - 1], k, b);
    if i :| 0 <= i < |nodes| - 1 && Contributes(nodes[i], k, b) {
      assert Contributes(nodes[..|nodes| - 1][i], k, b);
    }
    if AnyContributes(nodes[..|nodes| - 1], k, b) {
      var i :| 0 <= i < |nodes| - 1 && Contributes(nodes[..|nodes| - 1][i], k, b);
      assert Contributes(nodes[i], k, b);
    }
  }

  lemma {:induction false} ContributesAttr(n: NodeRef, k: Key, b: Bindings)
    ensures Contributes(n, k, b) ==> n.key.attr == k.attr
  {
  }
}
