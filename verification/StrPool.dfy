/** The string-counter pool as the monitor server runs it: loops over shared memory, in place. */
module StrPoolMemory {
  import opened Basics
  import opened StableOrder
  import opened State = StrPoolState
  import opened StrPoolProofs
  import opened StrPoolEviction
  import opened StrPoolRuns
  import StrCounter

  /** An element of the eviction's multimap. */
  datatype Rep = Rep(val: int, idx: Index)

  function Keys(reps: seq<Rep>): (ks: seq<int>)
    ensures |ks| == |reps|
  {
    seq(|reps|, i requires 0 <= i < |reps| => reps[i].val)
  }

  /** The multimap filled with the nodes of c, one after the other. */
  function RepsOf(nodes: Nodes, c: seq<Index>): (reps: seq<Rep>)
    ensures |reps| == |c|
  {
    var r := ByValue(nodes, c);
    seq(|r|, i requires 0 <= i < |r| => Rep(nodes[r[i]].val, r[i]))
  }

  lemma {:induction false} KeysArePicked(nodes: Nodes, c: seq<Index>)
    ensures var vals := StrCounter.Values(EntriesOf(nodes, c));
      Keys(RepsOf(nodes, c)) == Picked(vals, SortOrder(vals))
  {
    hide SortOrder;
  }

  lemma {:induction false} ByValueGrow(nodes: Nodes, c: seq<Index>, idx: Index)
    ensures ByValue(nodes, c + [idx])
         == InsertAt(ByValue(nodes, c), UpperBound(Keys(RepsOf(nodes, c)), nodes[idx].val), idx)
  {
    hide UpperBound, RepsOf, Picked;
    var d := c + [idx];
    var vals, wals := StrCounter.Values(EntriesOf(nodes, c)), StrCounter.Values(EntriesOf(nodes, d));
    assert d[..|c|] == c && wals[..|c|] == vals;
    KeysArePicked(nodes, c);
    var o := SortOrder(vals);
    assert SortOrder(wals) == InsertAt(o, UpperBound(Picked(vals, o), wals[|c|]), |c|);
  }

  lemma {:induction false} RepsGrow(nodes: Nodes, c: seq<Index>, idx: Index)
    ensures var reps, rep := RepsOf(nodes, c), Rep(nodes[idx].val, idx);
      RepsOf(nodes, c + [idx]) == InsertAt(reps, UpperBound(Keys(reps), rep.val), rep)
  {
    hide UpperBound, ByValue;
    ByValueGrow(nodes, c, idx);
  }

  lemma {:induction false} EmptyReps(nodes: Nodes)
    ensures RepsOf(nodes, []) == []
  {
  }

  /** The multimap's order of the nodes that an eviction collects. */
  ghost function Plan(p: State.Pool, k: Key): seq<Index>
    requires k in p.attrs
  {
    ByValue(p.nodes, EvictWalk(p.nodes, p.attrs[k].head, p.attrs[k].count))
  }

  lemma {:induction false} EvictPlan(p: State.Pool, k: Key)
    requires WellFormed(p) && k in p.attrs && p.attrs[k].count >= MAX_CHAIN
    ensures var r := Plan(p, k);
      && NoDup(r) && |r| <= p.attrs[k].count
      && (|r| > SELECT ==> Linked(Relinked(p.nodes, r), r[SELECT..], r[SELECT]))
      && Evict(p, k) == if |r| <= SELECT then Undefined else
        Done(State.Pool(Relinked(p.nodes, r), p.nodeUse - SELECT, p.writeIdx,
                        p.attrs[k := p.attrs[k].(head := r[SELECT], count := p.attrs[k].count - SELECT)]))
  {
    hide WellFormed, Chain, Chains, ByValue, EvictWalk, Relinked;
    ChainFacts(p, k);
    var c := Chain(p, k);
    EvictWalkLinked(p.nodes, c, p.attrs[k].head, p.attrs[k].count);
    var d := UntilZero(c);
    assert forall i :: 0 <= i < |d| ==> d[i] == c[i];
    ByValuePermutes(p.nodes, d);
    var r := ByValue(p.nodes, d);
    if |r| > SELECT { RelinkedLinked(p.nodes, r); }
  }

  lemma {:induction false} RepsIndices(nodes: Nodes, c: seq<Index>)
    ensures |RepsOf(nodes, c)| == |c| == |ByValue(nodes, c)|
    ensures forall i :: 0 <= i < |c| ==> RepsOf(nodes, c)[i].idx == ByValue(nodes, c)[i]
  {
  }

  lemma {:induction false} ChainTail(p: State.Pool, k: Key, c: seq<Index>)
    requires k in p.attrs && Linked(p.nodes, c, p.attrs[k].head) && 0 < |c| <= p.attrs[k].count
    ensures LastOf(Chain(p, k)) == c[|c| - 1]
  {
    WalkLinked(p.nodes, c, p.attrs[k].head, p.attrs[k].count);
  }

  lemma {:induction false} CircularNext(start: Index, i: nat)
    requires i < CAPACITY
    ensures Circular(start, i + 1) == if Circular(start, i) + 1 >= CAPACITY then 0 else Circular(start, i) + 1
  {
  }

  lemma {:induction false} CircularTurn(start: Index)
    ensures Circular(start, 0) == Circular(start, CAPACITY) == start
  {
  }

  class StrPool {
    const nodes: array<Node>   // stInfo
    var nodeUse: int           // iNodeUse
    var writeIdx: int          // iWriteIdx
    var attrs: map<Key, Attr>  // the attribute hash table

    ghost predicate Shaped()
      reads this
    {
      nodes.Length == CAPACITY && 0 <= writeIdx < CAPACITY
    }

    ghost function Pool(): Pool
      requires Shaped()
      reads this, nodes
    {
      State.Pool(nodes[..], nodeUse, writeIdx, attrs)
    }

    ghost predicate Valid()
      reads this, nodes
    {
      Shaped() && WellFormed(Pool())
    }

    /** Zero-filled shared memory. */
    constructor ()
      ensures Shaped() && fresh(nodes) && nodeUse == 0 && writeIdx == 0 && attrs == map[]
      ensures forall i :: 0 <= i < CAPACITY ==> nodes[i] == Node("", 0, 0)
    {
      nodes := new Node[CAPACITY](_ => Node("", 0, 0));
      nodeUse, writeIdx, attrs := 0, 0, map[];
    }

    /** Frees every node from head on; the next-indices stay. */
    method FreeChain(head: int, ghost c: seq<Index>)
      requires nodes.Length == CAPACITY && Linked(nodes[..], c, head) && NoDup(c)
      modifies nodes
      ensures nodes[..] == Freed(old(nodes[..]), c)
    {
      ghost var was: Nodes := nodes[..];
      var idx := head;
      ghost var i := 0;
      while 0 <= idx < CAPACITY
        invariant 0 <= i <= |c| && idx == (if i < |c| then c[i] else -1)
        invariant forall j: Index :: nodes[j] == if j in c[..i] then was[j].(val := -1) else was[j]
        decreases |c| - i
      {
        assert was[c[i]].next == NextOf(c, i);
        assert c[..i + 1] == c[..i] + [c[i]];
        nodes[idx] := nodes[idx].(val := -1);
        idx := nodes[idx].next;
        i := i + 1;
      }
      assert c[..i] == c;
    }

    /** The day reset; returns whether the chain's day is over. */
    method CheckClear(k: Key, now: int, mday: int) returns (stale: bool)
      requires Valid() && k in attrs
      modifies this, nodes
      ensures Shaped() && Pool() == State.CheckClear(old(Pool()), k, now, mday)
      ensures stale == Stale(old(attrs[k]), now, mday)
    {
      hide WellFormed, Walk, Freed, Chains;
      stale := Stale(attrs[k], now, mday);
      if stale && attrs[k].count > 0 {
        ChainFacts(Pool(), k);
        ghost var c := Chain(Pool(), k);
        var idx := attrs[k].head;
        nodeUse := nodeUse - attrs[k].count;
        attrs := attrs[k := attrs[k].(count := 0, head := -1)];
        FreeChain(idx, c);
      }
    }

    /**
     The search for str along the chain: the node that holds it, or -1 and the chain's last
     node. (The source also leaves on an index outside the array; a valid pool has none.)
     */
    method Search(k: Key, str: string) returns (hit: int, last: int)
      requires Valid() && k in attrs
      ensures var c := Chain(Pool(), k);
        var p := StrCounter.Find(EntriesOf(nodes[..], c), str);
        if p < |c| then hit == c[p] else hit == -1 && last == LastOf(c)
    {
      hide WellFormed, Chain, Chains;
      ChainFacts(Pool(), k);
      ghost var c := Chain(Pool(), k);
      ghost var es := EntriesOf(nodes[..], c);
      hit, last := -1, -1;
      var idx, i := attrs[k].head, 0;
      while i < attrs[k].count
        invariant 0 <= i <= |c| && (i < |c| ==> idx == c[i])
        invariant forall j :: 0 <= j < i ==> es[j].str != str
        invariant hit == last == -1 && (i == |c| ==> c == [])
      {
        if nodes[idx].str == str {
          hit := idx;
          assert StrCounter.Find(es, str) == i;
          return;
        }
        if i + 1 >= attrs[k].count {
          last := idx;
          assert forall j :: 0 <= j < |c| ==> es[j].str != str;
          return;
        }
        assert nodes[..][c[i]].next == NextOf(c, i);
        idx := nodes[idx].next;
        i := i + 1;
      }
    }

    /** Fills the multimap; the loop leaves the chain at node 0. */
    method Collect(head: int, count: nat) returns (reps: seq<Rep>)
      requires nodes.Length == CAPACITY
      ensures reps == RepsOf(nodes[..], EvictWalk(nodes[..], head, count))
    {
      hide RepsOf;
      reps := [];
      ghost var c: seq<Index> := [];
      EmptyReps(nodes[..]);
      var idx, i := head, 0;
      while i < count && 0 < idx < CAPACITY
        invariant 0 <= i <= count
        invariant EvictWalk(nodes[..], head, count) == c + EvictWalk(nodes[..], idx, count - i)
        invariant reps == RepsOf(nodes[..], c)
      {
        RepsGrow(nodes[..], c, idx);
        var rep := Rep(nodes[idx].val, idx);
        reps := InsertAt(reps, UpperBound(Keys(reps), rep.val), rep);
        assert c + ([idx] + EvictWalk(nodes[..], nodes[idx].next, count - i - 1))
            == (c + [idx]) + EvictWalk(nodes[..], nodes[idx].next, count - i - 1);
        c := c + [idx];
        idx := nodes[idx].next;
        i := i + 1;
      }
      assert c + [] == c;
    }

    /** Frees the first SELECT nodes of the multimap. */
    method FreeSmallest(reps: seq<Rep>, ghost r: seq<Index>)
      requires nodes.Length == CAPACITY && |reps| == |r| > SELECT
      requires forall i :: 0 <= i < |r| ==> reps[i].idx == r[i]
      modifies nodes
      ensures forall j: Index ::
        nodes[j] == if j in r[..SELECT] then old(nodes[j]).(val := -1, next := -1) else old(nodes[j])
    {
      var i := 0;
      while i < SELECT
        invariant 0 <= i <= SELECT
        invariant forall j: Index ::
          nodes[j] == if j in r[..i] then old(nodes[j]).(val := -1, next := -1) else old(nodes[j])
      {
        assert r[..i + 1] == r[..i] + [r[i]];
        nodes[reps[i].idx] := nodes[reps[i].idx].(val := -1, next := -1);
        i := i + 1;
      }
    }

    /** Threads the other nodes in the multimap's order. */
    method Thread(reps: seq<Rep>, ghost r: seq<Index>) returns (last: int)
      requires nodes.Length == CAPACITY && |reps| == |r| > SELECT && NoDup(r)
      requires forall i :: 0 <= i < |r| ==> reps[i].idx == r[i]
      modifies nodes
      ensures last == r[|r| - 1]
      ensures forall j: Index ::
        nodes[j] == if j in r[SELECT..] then old(nodes[j]).(next := Successor(r[SELECT..], j)) else old(nodes[j])
    {
      ghost var s := r[SELECT..];
      assert forall j :: 0 <= j < |s| ==> s[j] == r[j + SELECT];
      var i := SELECT;
      while i < |reps|
        invariant SELECT <= i <= |r|
        invariant forall j: Index ::
          nodes[j] == if j in s[..i - SELECT] then old(nodes[j]).(next := Successor(s, j)) else old(nodes[j])
      {
        assert s[..i + 1 - SELECT] == s[..i - SELECT] + [r[i]];
        SuccessorAt(s, i - SELECT);
        var idx := reps[i].idx;
        i := i + 1;
        nodes[idx] := nodes[idx].(next := if i < |reps| then reps[i].idx else -1);
      }
      assert s[..i - SELECT] == s;
      last := reps[|reps| - 1].idx;
    }

    method Relink(reps: seq<Rep>, ghost r: seq<Index>) returns (last: int)
      requires nodes.Length == CAPACITY && |reps| == |r| > SELECT && NoDup(r)
      requires forall i :: 0 <= i < |r| ==> reps[i].idx == r[i]
      modifies nodes
      ensures nodes[..] == Relinked(old(nodes[..]), r) && last == r[|r| - 1]
    {
      hide Successor;
      assert forall i :: 0 <= i < |r| - SELECT ==> r[SELECT..][i] == r[i + SELECT];
      assert forall j :: j in r[SELECT..] ==> j !in r[..SELECT];
      FreeSmallest(reps, r);
      last := Thread(reps, r);
    }

    /** Collects from head, then frees and relinks; ok is false when too few were collected. */
    method Thin(head: int, count: nat, ghost r: seq<Index>) returns (ok: bool, first: int, last: int)
      requires nodes.Length == CAPACITY && NoDup(r)
      requires r == ByValue(nodes[..], EvictWalk(nodes[..], head, count))
      modifies nodes
      ensures ok == (|r| > SELECT)
      ensures ok ==> nodes[..] == Relinked(old(nodes[..]), r) && first == r[SELECT] && last == r[|r| - 1]
      ensures !ok ==> nodes[..] == old(nodes[..])
    {
      var reps := Collect(head, count);
      RepsIndices(nodes[..], EvictWalk(nodes[..], head, count));
      hide ByValue, EvictWalk, Relinked, RepsOf;
      ok, first, last := |reps| > SELECT, -1, -1;
      if ok {
        first := reps[SELECT].idx;
        last := Relink(reps, r);
      }
    }

    /**
     Eviction on a full chain. ok is false where the source dereferences the multimap's end;
     otherwise last is the tail of what remains.
     */
    method Evict(k: Key) returns (ok: bool, last: int)
      requires Valid() && k in attrs && attrs[k].count >= MAX_CHAIN
      modifies this, nodes
      ensures ok == State.Evict(old(Pool()), k).Done?
      ensures ok ==> Shaped() && Pool() == State.Evict(old(Pool()), k).value
      ensures ok ==> 0 <= last < CAPACITY && last == LastOf(Chain(Pool(), k))
    {
      hide WellFormed, WellFormedWith, AllGood, AllApart, LiveCovered, Chain, Chains, ByValue, EvictWalk,
           Relinked, Linked, NoDup, State.Evict, LastOf;
      ghost var p := Pool();
      var a := attrs[k];
      EvictPlan(p, k);
      var first;
      ok, first, last := Thin(a.head, a.count, Plan(p, k));
      if ok {
        nodeUse := nodeUse - SELECT;
        attrs := attrs[k := a.(head := first, count := a.count - SELECT)];
        ChainTail(Pool(), k, Plan(p, k)[SELECT..]);
      }
    }

    /** The circular scan for a free node; -1 after a full circle. */
    method FindFree() returns (idx: int)
      requires Shaped()
      modifies `writeIdx
      ensures Shaped()
      ensures var n := ScanFree(nodes[..], old(writeIdx), CAPACITY);
        if n < CAPACITY then idx == Circular(old(writeIdx), n) && writeIdx == Circular(old(writeIdx), n + 1)
        else idx == -1 && writeIdx == old(writeIdx)
    {
      hide ScanFree, Circular;
      ghost var start := writeIdx;
      CircularTurn(start);
      var i := 0;
      while i < CAPACITY
        invariant 0 <= i <= CAPACITY && Shaped() && writeIdx == Circular(start, i)
        invariant forall j :: 0 <= j < i ==> nodes[Circular(start, j)].val > 0
      {
        CircularNext(start, i);
        idx := writeIdx;
        writeIdx := writeIdx + 1;
        if writeIdx >= CAPACITY {
          writeIdx := 0;
        }
        if nodes[idx].val <= 0 {
          assert ScanFree(nodes[..], start, CAPACITY) == i;
          return;
        }
        i := i + 1;
      }
      assert ScanFree(nodes[..], start, CAPACITY) == i;
      idx := -1;
    }

    /** Stores a new string in a free node, if there is one. */
    method Append(k: Key, last: int, str: string, v: Uint32, mday: int)
      requires Shaped() && k in attrs && (last == -1 || 0 <= last < CAPACITY)
      modifies this, nodes
      ensures Shaped() && Pool() == State.Append(old(Pool()), k, last, str, v, mday)
    {
      hide ScanFree, StrCounter.Trunc;
      var idx := FindFree();
      if idx >= 0 {
        Store(k, idx, last, str, v, mday);
      }
    }

    /** Fills the free node idx and links it behind last, or as the whole chain. */
    method Store(k: Key, idx: Index, last: int, str: string, v: Uint32, mday: int)
      requires Shaped() && k in attrs && (last == -1 || 0 <= last < CAPACITY)
      modifies this, nodes
      ensures Shaped() && writeIdx == old(writeIdx) && nodeUse == old(nodeUse) + 1
      ensures var n: Nodes := old(nodes[..])[idx := Node(StrCounter.Trunc(str), ToInt32(v), -1)];
        nodes[..] == if last >= 0 then n[last := n[last].(next := idx)] else n
      ensures var a := old(attrs[k]);
        attrs == old(attrs)[k := if last >= 0 then a.(count := a.count + 1, lastDay := mday)
                                 else a.(head := idx, count := 1, lastDay := mday)]
    {
      nodeUse := nodeUse + 1;
      nodes[idx] := Node(StrCounter.Trunc(str), ToInt32(v), -1);
      var a := attrs[k];
      if 0 <= last < CAPACITY {
        nodes[last] := nodes[last].(next := idx);
        attrs := attrs[k := a.(count := a.count + 1, lastDay := mday)];
      } else {
        attrs := attrs[k := a.(head := idx, count := 1, lastDay := mday)];
      }
    }

    /**
     AddStrAttrReportToShm with its caller's time update. ok is false for undefined
     behaviour. By StrPoolRuns.SafeExactly the pool stays valid exactly when Safe holds.
     */
    method AddReport(r: Report) returns (ok: bool)
      requires Valid()
      modifies this, nodes
      ensures ok == Step(old(Pool()), r).Done?
      ensures ok ==> Shaped() && Pool() == Step(old(Pool()), r).value
      ensures ok && Valid() <==> Safe(old(Pool()), r)
    {
      hide WellFormed, Chain, Chains, EntriesOf, State.CheckClear, State.Append, State.Evict, StrCounter.Find, Safe;
      SafeExactly(Pool(), r);
      ok := true;
      if r.key !in attrs && !r.slotFree {
        return;
      }
      PreparedKeeps(Pool(), r);
      if r.key in attrs {
        var _ := CheckClear(r.key, r.now, r.mday);
      } else {
        attrs := attrs[r.key := Attr(r.dataType, 0, -1, 0, 0)];
      }
      attrs := attrs[r.key := attrs[r.key].(dataType := r.dataType)];
      ghost var q := Prepared(old(Pool()), r);
      assert Pool() == q;
      ChainFacts(q, r.key);
      var hit, last := Search(r.key, r.str);
      if hit >= 0 {
        nodes[hit] := nodes[hit].(val := StrCounter.Merged(nodes[hit].val, r.v));
        attrs := attrs[r.key := attrs[r.key].(lastDay := r.mday)];
        assert Pool() == Merge(q, r.key, hit, r.v, r.mday);
      } else {
        if attrs[r.key].count >= MAX_CHAIN {
          ok, last := Evict(r.key);
          if !ok {
            return;
          }
        }
        Append(r.key, last, r.str, r.v, r.mday);
      }
      attrs := attrs[r.key := attrs[r.key].(lastTime := r.now)];
    }
  }
}
