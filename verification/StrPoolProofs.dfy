/** Every operation on the string-counter array keeps the chains disjoint, acyclic and counted. */
module StrPoolProofs {
  import opened Basics
  import opened MapSum
  import opened StrPoolState
  import StrCounter

  // ---------- chains are determined by the links ----------

  lemma {:induction false} WalkLinked(nodes: Nodes, c: seq<Index>, head: int, n: nat)
    requires Linked(nodes, c, head) && n >= |c|
    ensures Walk(nodes, head, n) == c
  {
    if c != [] {
      var d := c[1..];
      forall i | 0 <= i < |d| ensures nodes[d[i]].next == NextOf(d, i) {
        assert d[i] == c[i + 1] && NextOf(d, i) == NextOf(c, i + 1);
      }
      assert nodes[c[0]].next == NextOf(c, 0);
      WalkLinked(nodes, d, nodes[c[0]].next, n - 1);
    }
  }

  lemma {:induction false} ChainsDetermined(p: Pool, ch: map<Key, seq<Index>>)
    requires WellFormedWith(p, ch)
    ensures Chains(p) == ch && WellFormed(p)
  {
    forall k | k in ch ensures Chain(p, k) == ch[k] {
      WalkLinked(p.nodes, ch[k], p.attrs[k].head, p.attrs[k].count);
    }
  }

  // ---------- the node count ----------

  lemma {:induction false} SumCountsUpdate(attrs: map<Key, Attr>, k: Key, a: Attr)
    ensures SumCounts(attrs[k := a]) == SumCounts(attrs) + a.count - if k in attrs then attrs[k].count else 0
  {
    SumUpdate(Counts(attrs), k, a.count);
    assert Counts(attrs[k := a]) == Counts(attrs)[k := a.count];
  }

  ghost function LiveNodes(nodes: seq<Node>): set<int> {
    set i | 0 <= i < |nodes| && nodes[i].val > 0
  }

  ghost function Members(c: seq<Index>): set<int> {
    set i | i in c
  }

  lemma {:induction false} MembersCount(c: seq<Index>)
    requires NoDup(c)
    ensures |Members(c)| == |c|
  {
    if c != [] {
      var n := |c| - 1;
      MembersCount(c[..n]);
      assert Members(c) == Members(c[..n]) + {c[n]};
    }
  }

  ghost function AllMembers(ch: map<Key, seq<Index>>): set<int> {
    set k, i | k in ch && i in ch[k] :: i
  }

  lemma {:induction false} SumIsUnion(counts: map<Key, nat>, ch: map<Key, seq<Index>>)
    requires ch.Keys == counts.Keys
    requires forall k :: k in ch ==> NoDup(ch[k]) && |ch[k]| == counts[k]
    requires forall k, l :: k in ch && l in ch && k != l ==> Apart(ch[k], ch[l])
    ensures Sum(counts) == |AllMembers(ch)|
    decreases |counts|
  {
    if counts == map[] {
      assert AllMembers(ch) == {};
    } else {
      var k :| k in counts;
      SumWithout(counts, k);
      SmallerWithout(counts, k);
      SumIsUnion(counts - {k}, ch - {k});
      MembersCount(ch[k]);
      var rest := AllMembers(ch - {k});
      SplitMembers(ch, k);
      forall l, i | l in ch - {k} && i in ch[l] ensures i !in Members(ch[k]) {
        assert Apart(ch[l], ch[k]);
      }
      assert Members(ch[k]) !! rest;
    }
  }

  lemma {:induction false} SplitMembers(ch: map<Key, seq<Index>>, k: Key)
    requires k in ch
    ensures AllMembers(ch) == Members(ch[k]) + AllMembers(ch - {k})
  {
    forall i | i in AllMembers(ch) ensures i in Members(ch[k]) + AllMembers(ch - {k}) {
      var l :| l in ch && i in ch[l];
      if l != k { assert l in ch - {k} && i in (ch - {k})[l]; }
    }
  }

  /**
   iNodeUse is both the number of live nodes and the sum of all bStrCount, and the live
   nodes are exactly those on chains, each on one only.
   */
  lemma {:induction false} NodeUseCounts(p: Pool)
    requires WellFormed(p)
    ensures p.nodeUse == SumCounts(p.attrs) == |LiveNodes(p.nodes)|
    ensures forall i: Index :: p.nodes[i].val > 0 <==> exists k :: k in p.attrs && i in Chain(p, k)
    ensures forall k, l, i :: k in p.attrs && l in p.attrs && i in Chain(p, k) && i in Chain(p, l) ==> k == l
  {
    var ch := Chains(p);
    SumIsUnion(Counts(p.attrs), ch);
    forall i: Index ensures i in LiveNodes(p.nodes) <==> i in AllMembers(ch) {
      if i in AllMembers(ch) {
        var k :| k in ch && i in ch[k];
        assert GoodChain(p.nodes, p.attrs[k], ch[k]);
      }
    }
    assert LiveNodes(p.nodes) == AllMembers(ch);
    forall i: Index ensures p.nodes[i].val > 0 <==> exists k :: k in p.attrs && i in Chain(p, k) {
      if p.nodes[i].val > 0 {
        var k :| k in ch && i in ch[k];
        assert i in Chain(p, k);
      }
      if k :| k in p.attrs && i in Chain(p, k) {
        assert i in ch[k];
        assert GoodChain(p.nodes, p.attrs[k], ch[k]);
      }
    }
    forall k, l, i | k in p.attrs && l in p.attrs && k != l && i in Chain(p, k) ensures i !in Chain(p, l) {
      assert Apart(ch[k], ch[l]);
    }
  }

  ghost function UpTo(n: nat): (r: set<int>)
    ensures |r| == n
    ensures forall i :: i in r <==> 0 <= i < n
  {
    if n == 0 then {} else UpTo(n - 1) + {n - 1}
  }

  /** The step at which a circular scan from start meets i. */
  function Distance(start: Index, i: Index): (d: nat)
    ensures d < CAPACITY && Circular(start, d) == i
  {
    if i >= start then i - start else i + CAPACITY - start
  }

  lemma {:induction false} ScanPasses(nodes: Nodes, start: Index, n: nat, i: Index)
    requires Distance(start, i) < ScanFree(nodes, start, n)
    ensures nodes[i].val > 0
  {
  }

  lemma {:induction false} LiveCount(nodes: seq<Node>)
    ensures |LiveNodes(nodes)| <= |nodes|
    ensures |LiveNodes(nodes)| == |nodes| <==> forall i :: 0 <= i < |nodes| ==> nodes[i].val > 0
  {
    var live := LiveNodes(nodes);
    var all := UpTo(|nodes|);
    if i :| 0 <= i < |nodes| && nodes[i].val <= 0 {
      assert i in all - live;
      SubsetCount(live, all);
    } else {
      assert live == all;
    }
  }

  lemma {:induction false} ScanAll(nodes: Nodes, start: Index)
    ensures ScanFree(nodes, start, |nodes|) == |nodes| <==> forall i :: 0 <= i < |nodes| ==> nodes[i].val > 0
  {
    if ScanFree(nodes, start, |nodes|) == |nodes| {
      forall i | 0 <= i < |nodes| ensures nodes[i].val > 0 {
        ScanPasses(nodes, start, |nodes|, i);
      }
    }
  }

  /** The circular scan finds a free node exactly when fewer than CAPACITY nodes are in use. */
  lemma {:induction false} ScanFindsFree(p: Pool)
    requires WellFormed(p)
    ensures ScanFree(p.nodes, p.writeIdx, |p.nodes|) < |p.nodes| <==> p.nodeUse < CAPACITY
  {
    NodeUseCounts(p);
    LiveCount(p.nodes);
    ScanAll(p.nodes, p.writeIdx);
  }

  lemma {:induction false} SubsetCount<T>(a: set<T>, b: set<T>)
    requires a < b
    ensures |a| < |b|
  {
    assert b == a + (b - a);
    assert b - a != {};
  }

  // ---------- one chain is replaced, the others keep their nodes ----------

  ghost function OldChain(ch: map<Key, seq<Index>>, k: Key): seq<Index> {
    if k in ch then ch[k] else []
  }

  /** A node that an operation on the attribute with chain c may touch: its own or a free one. */
  ghost predicate Mine(nodes: Nodes, c: seq<Index>, i: Index) {
    i in c || nodes[i].val <= 0
  }

  ghost predicate Confined(nodes: Nodes, nodes': Nodes, c: seq<Index>) {
    forall i: Index :: nodes'[i] == nodes[i] || Mine(nodes, c, i)
  }

  /** The new chain takes only such nodes, and every one of them that is live. */
  ghost predicate Takes(nodes: Nodes, nodes': Nodes, c: seq<Index>, c': seq<Index>) {
    && (forall i :: 0 <= i < |c'| ==> Mine(nodes, c, c'[i]))
    && (forall i: Index :: nodes'[i].val > 0 && Mine(nodes, c, i) ==> i in c')
  }

  lemma {:induction false} OtherKeeps(nodes: Nodes, nodes': Nodes, c: seq<Index>, c': seq<Index>, a: Attr,
      d: seq<Index>)
    requires GoodChain(nodes, a, d) && Apart(d, c)
    requires Confined(nodes, nodes', c) && Takes(nodes, nodes', c, c')
    ensures GoodChain(nodes', a, d) && EntriesOf(nodes', d) == EntriesOf(nodes, d)
    ensures Apart(d, c') && Apart(c', d)
  {
    forall i | 0 <= i < |d| ensures nodes'[d[i]] == nodes[d[i]] && !Mine(nodes, c, d[i]) {
      assert d[i] in d;
    }
    forall i | i in d ensures i !in c' {
      var j :| 0 <= j < |d| && d[j] == i;
    }
  }

  lemma {:induction false} OthersKeep(p: Pool, ch: map<Key, seq<Index>>, k: Key, nodes: Nodes, c: seq<Index>)
    requires ch.Keys == p.attrs.Keys && AllGood(p, ch) && AllApart(ch)
    requires Confined(p.nodes, nodes, OldChain(ch, k)) && Takes(p.nodes, nodes, OldChain(ch, k), c)
    ensures forall l :: l in ch && l != k ==> GoodChain(nodes, p.attrs[l], ch[l])
    ensures forall l :: l in ch && l != k ==> EntriesOf(nodes, ch[l]) == EntriesOf(p.nodes, ch[l])
    ensures AllApart(ch[k := c])
  {
    forall l | l in ch && l != k
      ensures GoodChain(nodes, p.attrs[l], ch[l]) && EntriesOf(nodes, ch[l]) == EntriesOf(p.nodes, ch[l])
      ensures Apart(ch[l], c) && Apart(c, ch[l])
    {
      assert Apart(ch[l], OldChain(ch, k));
      OtherKeeps(p.nodes, nodes, OldChain(ch, k), c, p.attrs[l], ch[l]);
    }
  }

  lemma {:induction false} StillCovered(nodes: Nodes, nodes': Nodes, ch: map<Key, seq<Index>>, k: Key, c: seq<Index>)
    requires LiveCovered(nodes, ch)
    requires Confined(nodes, nodes', OldChain(ch, k)) && Takes(nodes, nodes', OldChain(ch, k), c)
    ensures LiveCovered(nodes', ch[k := c])
  {
    var dh := ch[k := c];
    forall i: Index | nodes'[i].val > 0 ensures Covered(dh, i) {
      if Mine(nodes, OldChain(ch, k), i) {
        assert k in dh && i in dh[k];
      } else {
        assert Covered(ch, i);
        var l :| l in ch && i in ch[l];
        assert l in dh && i in dh[l];
      }
    }
  }

  lemma {:induction false} ReplaceChain(p: Pool, ch: map<Key, seq<Index>>, k: Key, q: Pool, c: seq<Index>)
    requires WellFormedWith(p, ch)
    requires k in q.attrs && q.attrs == p.attrs[k := q.attrs[k]]
    requires GoodChain(q.nodes, q.attrs[k], c)
    requires Confined(p.nodes, q.nodes, OldChain(ch, k)) && Takes(p.nodes, q.nodes, OldChain(ch, k), c)
    requires q.nodeUse == p.nodeUse + |c| - |OldChain(ch, k)|
    ensures WellFormedWith(q, ch[k := c])
    ensures forall l :: l in ch && l != k ==> EntriesOf(q.nodes, ch[l]) == EntriesOf(p.nodes, ch[l])
  {
    var dh := ch[k := c];
    assert AllGood(p, ch) && AllApart(ch) && LiveCovered(p.nodes, ch) && p.nodeUse == SumCounts(p.attrs);
    assert |c| == q.attrs[k].count;
    OldCount(p, ch, k);
    hide *;
    OthersKeep(p, ch, k, q.nodes, c);
    NewGood(p, ch, k, q, c);
    SumCountsUpdate(p.attrs, k, q.attrs[k]);
    StillCovered(p.nodes, q.nodes, ch, k, c);
    Assemble(q, dh);
  }

  lemma {:induction false} NewGood(p: Pool, ch: map<Key, seq<Index>>, k: Key, q: Pool, c: seq<Index>)
    requires ch.Keys == p.attrs.Keys
    requires k in q.attrs && q.attrs == p.attrs[k := q.attrs[k]]
    requires GoodChain(q.nodes, q.attrs[k], c)
    requires forall l :: l in ch && l != k ==> GoodChain(q.nodes, p.attrs[l], ch[l])
    ensures ch[k := c].Keys == q.attrs.Keys && AllGood(q, ch[k := c])
  {
    hide GoodChain;
  }

  lemma {:induction false} Assemble(p: Pool, ch: map<Key, seq<Index>>)
    requires ch.Keys == p.attrs.Keys && AllGood(p, ch) && AllApart(ch) && LiveCovered(p.nodes, ch)
    requires p.nodeUse == SumCounts(p.attrs)
    ensures WellFormedWith(p, ch)
  {
  }

  lemma {:induction false} OldCount(p: Pool, ch: map<Key, seq<Index>>, k: Key)
    requires ch.Keys == p.attrs.Keys && AllGood(p, ch)
    ensures |OldChain(ch, k)| == if k in p.attrs then p.attrs[k].count else 0
  {
    assert k in ch ==> GoodChain(p.nodes, p.attrs[k], ch[k]);
  }

  lemma {:induction false} ContentsFrom(p: Pool, k: Key, q: Pool, c: seq<Index>)
    requires Chains(q) == Chains(p)[k := c]
    requires forall l :: l in Chains(p) && l != k ==>
      EntriesOf(q.nodes, Chains(p)[l]) == EntriesOf(p.nodes, Chains(p)[l])
    ensures k in q.attrs && Chain(q, k) == c
    ensures Contents(q) == Contents(p)[k := EntriesOf(q.nodes, c)]
  {
    hide Walk, EntriesOf;
    var m := Contents(p)[k := EntriesOf(q.nodes, c)];
    assert q.attrs.Keys == p.attrs.Keys + {k} by {
      assert q.attrs.Keys == Chains(q).Keys;
      assert p.attrs.Keys == Chains(p).Keys;
    }
    forall l | l in q.attrs ensures Chain(q, l) == if l == k then c else Chain(p, l) {
      assert Chains(q)[l] == Chain(q, l);
    }
    hide Chain;
    forall l | l in q.attrs ensures Entries(q, l) == m[l] {
      if l != k { assert l in Chains(p) && Chains(p)[l] == Chain(p, l); }
    }
    assert Contents(q).Keys == m.Keys;
  }

  /** The form in which every operation uses the lemma: only the contents of k change. */
  lemma {:induction false} Replaced(p: Pool, k: Key, q: Pool, c: seq<Index>)
    requires WellFormed(p)
    requires k in q.attrs && q.attrs == p.attrs[k := q.attrs[k]]
    requires GoodChain(q.nodes, q.attrs[k], c)
    requires Confined(p.nodes, q.nodes, OldChain(Chains(p), k)) && Takes(p.nodes, q.nodes, OldChain(Chains(p), k), c)
    requires q.nodeUse == p.nodeUse + |c| - |OldChain(Chains(p), k)|
    ensures WellFormed(q) && Chain(q, k) == c
    ensures Contents(q) == Contents(p)[k := EntriesOf(q.nodes, c)]
  {
    hide *;
    Unfolded(p);
    ReplaceChain(p, Chains(p), k, q, c);
    ChainsDetermined(q, Chains(p)[k := c]);
    ContentsFrom(p, k, q, c);
  }

  lemma {:induction false} Unfolded(p: Pool)
    requires WellFormed(p)
    ensures WellFormedWith(p, Chains(p))
  {
  }

  /** What the invariant says of one attribute. */
  lemma {:induction false} ChainFacts(p: Pool, k: Key)
    requires WellFormed(p) && k in p.attrs
    ensures GoodChain(p.nodes, p.attrs[k], Chain(p, k))
    ensures OldChain(Chains(p), k) == Chain(p, k) && k in Contents(p)
  {
    assert k in Chains(p);
  }

  // ---------- the attribute table ----------

  /** A new attribute starts with an empty chain. */
  lemma {:induction false} NewAttrKeeps(p: Pool, k: Key, a: Attr)
    requires WellFormed(p) && k !in p.attrs && a.count == 0 && a.head == -1
    ensures var q := p.(attrs := p.attrs[k := a]);
      WellFormed(q) && Contents(q) == Contents(p)[k := []]
  {
    hide WellFormed, Walk, Chains, Contents;
    assert OldChain(Chains(p), k) == [] by { assert k !in Chains(p) by { KeysOfChains(p); } }
    Replaced(p, k, p.(attrs := p.attrs[k := a]), []);
  }

  lemma {:induction false} KeysOfChains(p: Pool)
    ensures Chains(p).Keys == p.attrs.Keys == Contents(p).Keys
  {
  }

  /** Type, time and day of an attribute are not part of its chain. */
  lemma {:induction false} TouchAttrKeeps(p: Pool, k: Key, a: Attr)
    requires WellFormed(p) && k in p.attrs && a.count == p.attrs[k].count && a.head == p.attrs[k].head
    ensures var q := p.(attrs := p.attrs[k := a]);
      WellFormed(q) && Contents(q) == Contents(p) && Chain(q, k) == Chain(p, k)
  {
    hide WellFormed, Walk, EntriesOf, Chains, Chain, Linked;
    ChainFacts(p, k);
    var c := Chain(p, k);
    Replaced(p, k, p.(attrs := p.attrs[k := a]), c);
    assert Contents(p)[k := EntriesOf(p.nodes, c)] == Contents(p);
  }

  // ---------- day reset ----------

  lemma {:induction false} FreedTakes(nodes: Nodes, c: seq<Index>)
    ensures Confined(nodes, Freed(nodes, c), c) && Takes(nodes, Freed(nodes, c), c, [])
  {
  }

  lemma {:induction false} ClearKeeps(p: Pool, k: Key)
    requires WellFormed(p) && k in p.attrs
    ensures WellFormed(Clear(p, k)) && Contents(Clear(p, k)) == Contents(p)[k := []]
  {
    hide WellFormed, Chains, Chain, Contents, Freed, EntriesOf, Confined, Takes;
    ChainFacts(p, k);
    FreedTakes(p.nodes, Chain(p, k));
    Replaced(p, k, Clear(p, k), []);
  }

  // ---------- merge ----------

  lemma {:induction false} MergeTakes(nodes: Nodes, a: Attr, c: seq<Index>, i: nat, n: Node)
    requires GoodChain(nodes, a, c) && i < |c| && n.val > 0 && n.next == nodes[c[i]].next && n.str == nodes[c[i]].str
    ensures var nodes': Nodes := nodes[c[i] := n];
      && GoodChain(nodes', a, c) && Confined(nodes, nodes', c) && Takes(nodes, nodes', c, c)
      && EntriesOf(nodes', c) == EntriesOf(nodes, c)[i := StrCounter.Entry(n.str, n.val)]
  {
    assert c[i] in c;
    var nodes': Nodes := nodes[c[i] := n];
    forall j | 0 <= j < |c| ensures nodes'[c[j]].next == NextOf(c, j) {
      assert nodes[c[j]].next == NextOf(c, j);
    }
  }

  lemma {:induction false} MergeKeeps(p: Pool, k: Key, i: nat, v: Uint32, mday: int)
    requires WellFormed(p) && k in p.attrs && i < |Chain(p, k)|
    requires StrCounter.Merged(p.nodes[Chain(p, k)[i]].val, v) > 0
    ensures var q := Merge(p, k, Chain(p, k)[i], v, mday);
      var n := p.nodes[Chain(p, k)[i]];
      && WellFormed(q)
      && Contents(q) == Contents(p)[k := Entries(p, k)[i := StrCounter.Entry(n.str, StrCounter.Merged(n.val, v))]]
  {
    hide WellFormed, Chains, Chain, Contents, EntriesOf, Linked, Confined, Takes;
    var c := Chain(p, k);
    var q := Merge(p, k, c[i], v, mday);
    ChainFacts(p, k);
    MergeTakes(p.nodes, p.attrs[k], c, i, q.nodes[c[i]]);
    Replaced(p, k, q, c);
  }

  // ---------- append ----------

  lemma {:induction false} AppendLinked(nodes: Nodes, nodes': Nodes, c: seq<Index>, head: int, idx: Index)
    requires Linked(nodes, c, head) && NoDup(c) && idx !in c
    requires nodes'[idx].next == -1
    requires forall i: Index :: i != idx ==> nodes'[i] == if i == LastOf(c) then nodes[i].(next := idx) else nodes[i]
    ensures Linked(nodes', c + [idx], if c == [] then idx else head)
  {
    var d := c + [idx];
    forall i | 0 <= i < |d| ensures nodes'[d[i]].next == NextOf(d, i) {
      if i < |c| {
        assert nodes[c[i]].next == NextOf(c, i);
        assert c[i] in c;
        assert i + 1 < |c| ==> c[i] != c[|c| - 1];
      }
    }
  }

  lemma {:induction false} AppendTouches(nodes: Nodes, nodes': Nodes, a: Attr, c: seq<Index>, idx: Index)
    requires GoodChain(nodes, a, c) && nodes[idx].val <= 0
    requires forall i: Index :: i != idx ==> nodes'[i] == if i == LastOf(c) then nodes[i].(next := idx) else nodes[i]
    ensures idx !in c
    ensures Confined(nodes, nodes', c) && Takes(nodes, nodes', c, c + [idx])
    ensures EntriesOf(nodes', c + [idx]) == EntriesOf(nodes, c) + [StrCounter.Entry(nodes'[idx].str, nodes'[idx].val)]
    ensures forall i :: 0 <= i < |c| ==> nodes'[c[i]].val > 0
  {
    hide Linked;
    assert c != [] ==> c[|c| - 1] in c;
    assert forall i :: 0 <= i < |c| ==> c[i] != idx;
  }

  lemma {:induction false} AppendKeeps(p: Pool, k: Key, str: string, v: Uint32, mday: int)
    requires WellFormed(p) && k in p.attrs && |Chain(p, k)| < MAX_CHAIN
    requires ToInt32(v) > 0
    requires ScanFree(p.nodes, p.writeIdx, |p.nodes|) < |p.nodes|
    ensures var q := Append(p, k, LastOf(Chain(p, k)), str, v, mday);
      && WellFormed(q)
      && Contents(q) == Contents(p)[k := Entries(p, k) + [StrCounter.Entry(StrCounter.Trunc(str), ToInt32(v))]]
      && Chain(q, k) == Chain(p, k) + [Circular(p.writeIdx, ScanFree(p.nodes, p.writeIdx, |p.nodes|))]
      && q.writeIdx == (Circular(p.writeIdx, ScanFree(p.nodes, p.writeIdx, |p.nodes|)) + 1) % CAPACITY
  {
    hide WellFormed, Chains, Chain, Contents, EntriesOf, Linked, Confined, Takes;
    ChainFacts(p, k);
    var c := Chain(p, k);
    var q := Append(p, k, LastOf(c), str, v, mday);
    var idx := Circular(p.writeIdx, ScanFree(p.nodes, p.writeIdx, |p.nodes|));
    AppendTouches(p.nodes, q.nodes, p.attrs[k], c, idx);
    AppendLinked(p.nodes, q.nodes, c, p.attrs[k].head, idx);
    assert p.attrs[k].head == q.attrs[k].head || c == [];
    Replaced(p, k, q, c + [idx]);
  }
}
