/** Eviction on a full chain, for every position of node 0. */
module StrPoolEviction {
  import opened Basics
  import opened StableOrder
  import opened StrPoolState
  import opened StrPoolProofs
  import StrCounter

  /** The part of a chain before node 0. */
  function UntilZero(c: seq<Index>): (d: seq<Index>)
    ensures d <= c
    ensures 0 !in c ==> d == c
    ensures 0 in c ==> |d| < |c|
  {
    if c == [] || c[0] == 0 then [] else [c[0]] + UntilZero(c[1..])
  }

  /** The collecting loop sees the chain up to node 0 only. */
  lemma {:induction false} EvictWalkLinked(nodes: Nodes, c: seq<Index>, head: int, n: nat)
    requires Linked(nodes, c, head) && n >= |c|
    ensures EvictWalk(nodes, head, n) == UntilZero(c)
  {
    if c != [] {
      assert nodes[c[0]].next == NextOf(c, 0);
      if c[0] != 0 {
        var d := c[1..];
        forall i | 0 <= i < |d| ensures nodes[d[i]].next == NextOf(d, i) {
          assert d[i] == c[i + 1] && NextOf(d, i) == NextOf(c, i + 1);
        }
        EvictWalkLinked(nodes, d, nodes[c[0]].next, n - 1);
      }
    }
  }

  lemma {:induction false} ByValuePermutes(nodes: Nodes, c: seq<Index>)
    requires NoDup(c)
    ensures NoDup(ByValue(nodes, c))
    ensures forall i :: i in ByValue(nodes, c) <==> i in c
  {
    var vals := StrCounter.Values(EntriesOf(nodes, c));
    var o := SortOrder(vals);
    SortOrderPermutes(vals);
    hide SortOrder, EntriesOf, StrCounter.Values;
    var r := ByValue(nodes, c);
    assert forall i :: 0 <= i < |r| ==> r[i] == c[o[i]];
    forall i | i in c ensures i in r {
      var a: nat :| a < |c| && c[a] == i;
      assert a in o;
      var j :| 0 <= j < |o| && o[j] == a;
      assert r[j] == i;
    }
  }

  lemma {:induction false} SuccessorAt(s: seq<Index>, i: nat)
    requires NoDup(s) && i < |s|
    ensures Successor(s, s[i]) == NextOf(s, i)
  {
    if |s| > 1 && i > 0 {
      assert s[i] == s[1..][i - 1];
      SuccessorAt(s[1..], i - 1);
    }
  }

  lemma {:induction false} RelinkedAt(nodes: Nodes, r: seq<Index>)
    requires |r| >= SELECT
    ensures forall i: Index :: Relinked(nodes, r)[i] == RelinkedNode(nodes[i], r, i)
  {
  }

  /** After relinking, the survivors are threaded in the multimap's order. */
  lemma {:induction false} RelinkedLinked(nodes: Nodes, r: seq<Index>)
    requires NoDup(r) && |r| > SELECT
    ensures Linked(Relinked(nodes, r), r[SELECT..], r[SELECT])
  {
    var s := r[SELECT..];
    var nodes' := Relinked(nodes, r);
    RelinkedAt(nodes, r);
    forall i | 0 <= i < |s| ensures nodes'[s[i]].next == NextOf(s, i) {
      assert s[i] in s && s[i] == r[i + SELECT];
      assert s[i] !in r[..SELECT];
      SuccessorAt(s, i);
    }
  }

  lemma {:induction false} RelinkedTakes(nodes: Nodes, c: seq<Index>, r: seq<Index>)
    requires NoDup(r) && |r| > SELECT
    requires forall i :: i in r <==> i in c
    requires forall i :: i in c ==> nodes[i].val > 0
    ensures Confined(nodes, Relinked(nodes, r), c)
    ensures Takes(nodes, Relinked(nodes, r), c, r[SELECT..])
    ensures forall i :: 0 <= i < |r| - SELECT ==> Relinked(nodes, r)[r[SELECT..][i]].val > 0
    ensures forall i :: 0 <= i < |r| - SELECT ==> Relinked(nodes, r)[r[SELECT..][i]].str == nodes[r[SELECT..][i]].str
    ensures forall i :: 0 <= i < |r| - SELECT ==> Relinked(nodes, r)[r[SELECT..][i]].val == nodes[r[SELECT..][i]].val
  {
    var s := r[SELECT..];
    RelinkedAt(nodes, r);
    assert r == r[..SELECT] + s;
    assert forall i :: i in r <==> i in r[..SELECT] || i in s;
    forall i | 0 <= i < |s| ensures s[i] !in r[..SELECT] && s[i] in r {
      assert s[i] == r[i + SELECT];
    }
  }

  /** What the survivors hold is what the abstract eviction keeps. */
  lemma {:induction false} SurvivorEntries(nodes: Nodes, c: seq<Index>)
    requires |c| >= SELECT
    ensures EntriesOf(nodes, ByValue(nodes, c)[SELECT..]) == StrCounter.Survivors(EntriesOf(nodes, c))
  {
    var es := EntriesOf(nodes, c);
    assert EntriesOf(nodes, ByValue(nodes, c)) == StrCounter.Sorted(es) by { hide SortOrder; }
    hide SortOrder, ByValue, StrCounter.Sorted;
    assert EntriesOf(nodes, ByValue(nodes, c)[SELECT..]) == EntriesOf(nodes, ByValue(nodes, c))[SELECT..];
  }

  /** Without node 0 on the chain, eviction keeps the invariant and exactly the survivors. */
  lemma {:induction false} EvictKeeps(p: Pool, k: Key)
    requires WellFormed(p) && k in p.attrs && p.attrs[k].count >= MAX_CHAIN
    requires 0 !in Chain(p, k)
    ensures Evict(p, k).Done?
    ensures var q := Evict(p, k).value;
      && WellFormed(q)
      && Contents(q) == Contents(p)[k := StrCounter.Survivors(Entries(p, k))]
      && |Chain(q, k)| == StrCounter.KEEP_COUNT
      && q.writeIdx == p.writeIdx && q.nodeUse == p.nodeUse - SELECT
  {
    hide WellFormed, Chains, Chain, Contents, EntriesOf, Confined, Takes, ByValue, EvictWalk, Relinked;
    ChainFacts(p, k);
    var c := Chain(p, k);
    EvictWalkLinked(p.nodes, c, p.attrs[k].head, p.attrs[k].count);
    hide Linked;
    var r := ByValue(p.nodes, c);
    ByValuePermutes(p.nodes, c);
    var q := Evict(p, k).value;
    RelinkedLinked(p.nodes, r);
    assert forall i :: i in c ==> p.nodes[i].val > 0;
    RelinkedTakes(p.nodes, c, r);
    Replaced(p, k, q, r[SELECT..]);
    SurvivorEntries(p.nodes, c);
    SameEntries(p.nodes, q.nodes, r[SELECT..]);
  }

  lemma {:induction false} SameEntries(nodes: Nodes, nodes': Nodes, c: seq<Index>)
    requires forall i :: 0 <= i < |c| ==> nodes'[c[i]].str == nodes[c[i]].str
    requires forall i :: 0 <= i < |c| ==> nodes'[c[i]].val == nodes[c[i]].val
    ensures EntriesOf(nodes', c) == EntriesOf(nodes, c)
  {
  }
}
