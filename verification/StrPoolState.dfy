/**
 The shared array of string counters as a value: many attribute chains threaded
 through one array of nodes by next-indices, a circular write cursor, and the
 table of attributes. Each operation is given by the state it must leave.
 */
module StrPoolState {
  import opened Basics
  import opened MapSum
  import opened StableOrder
  import StrCounter

  const CAPACITY := 15000   // MAX_STR_ATTR_ARRY_NODE_VAL_COUNT
  const SELECT := StrCounter.SELECT_COUNT
  const MAX_CHAIN := StrCounter.MAX_CHAIN

  /** StrAttrNodeVal: a node is free exactly when val <= 0. */
  datatype Node = Node(str: string, val: int, next: int)

  datatype Key = Key(attrId: int, machineId: int)

  /** TStrAttrReportInfo. */
  datatype Attr = Attr(dataType: int, count: nat, head: int, lastTime: int, lastDay: int)

  /** A position in the array; next-indices and heads use -1 for none. */
  type Index = i: int | 0 <= i < CAPACITY

  /** stInfo. */
  type Nodes = s: seq<Node> | |s| == CAPACITY witness seq(CAPACITY, _ => Node("", 0, -1))

  datatype Pool = Pool(nodes: Nodes, nodeUse: int, writeIdx: Index, attrs: map<Key, Attr>)

  // ---------- chains ----------

  /** The first n nodes met from idx along the next-indices. */
  function Walk(nodes: Nodes, idx: int, n: nat): (c: seq<Index>)
    ensures |c| <= n
    decreases n
  {
    if n == 0 || !(0 <= idx < CAPACITY) then [] else [idx] + Walk(nodes, nodes[idx].next, n - 1)
  }

  function Chain(p: Pool, k: Key): (c: seq<Index>)
    requires k in p.attrs
  {
    Walk(p.nodes, p.attrs[k].head, p.attrs[k].count)
  }

  function NextOf(c: seq<Index>, i: nat): int {
    if i + 1 < |c| then c[i + 1] else -1
  }

  /** c is threaded through the nodes from head and ends in -1. */
  ghost predicate Linked(nodes: Nodes, c: seq<Index>, head: int) {
    && head == (if c == [] then -1 else c[0])
    && forall i {:trigger NextOf(c, i)} :: 0 <= i < |c| ==> nodes[c[i]].next == NextOf(c, i)
  }

  ghost predicate GoodChain(nodes: Nodes, a: Attr, c: seq<Index>) {
    && Linked(nodes, c, a.head)
    && |c| == a.count <= MAX_CHAIN
    && NoDup(c)
    && forall i :: 0 <= i < |c| ==> nodes[c[i]].val > 0
  }

  ghost predicate Apart(c: seq<Index>, d: seq<Index>) {
    forall i :: i in c ==> i !in d
  }

  ghost function Counts(attrs: map<Key, Attr>): map<Key, nat> {
    map k | k in attrs :: attrs[k].count
  }

  /** The sum of all bStrCount. */
  ghost function SumCounts(attrs: map<Key, Attr>): nat {
    Sum(Counts(attrs))
  }

  ghost predicate AllGood(p: Pool, ch: map<Key, seq<Index>>)
    requires ch.Keys == p.attrs.Keys
  {
    forall k :: k in ch ==> GoodChain(p.nodes, p.attrs[k], ch[k])
  }

  ghost predicate AllApart(ch: map<Key, seq<Index>>) {
    forall k, l :: k in ch && l in ch && k != l ==> Apart(ch[k], ch[l])
  }

  ghost predicate Covered(ch: map<Key, seq<Index>>, i: Index) {
    exists k :: k in ch && i in ch[k]
  }

  ghost predicate LiveCovered(nodes: Nodes, ch: map<Key, seq<Index>>) {
    forall i: Index :: nodes[i].val > 0 ==> Covered(ch, i)
  }

  /** The pool invariant, with the chains given. */
  ghost predicate WellFormedWith(p: Pool, ch: map<Key, seq<Index>>) {
    && ch.Keys == p.attrs.Keys
    && AllGood(p, ch)
    && AllApart(ch)
    && LiveCovered(p.nodes, ch)
    && p.nodeUse == SumCounts(p.attrs)
  }

  ghost function Chains(p: Pool): map<Key, seq<Index>> {
    map k | k in p.attrs :: Chain(p, k)
  }

  ghost predicate WellFormed(p: Pool) {
    WellFormedWith(p, Chains(p))
  }

  function EntriesOf(nodes: Nodes, c: seq<Index>): (es: seq<StrCounter.Entry>)
    ensures |es| == |c|
    ensures forall i :: 0 <= i < |c| ==> es[i] == StrCounter.Entry(nodes[c[i]].str, nodes[c[i]].val)
  {
    seq(|c|, i requires 0 <= i < |c| => StrCounter.Entry(nodes[c[i]].str, nodes[c[i]].val))
  }

  function Entries(p: Pool, k: Key): seq<StrCounter.Entry>
    requires k in p.attrs
  {
    EntriesOf(p.nodes, Chain(p, k))
  }

  /** The pool read as one list of pairs per attribute. */
  function Contents(p: Pool): map<Key, seq<StrCounter.Entry>> {
    map k | k in p.attrs :: Entries(p, k)
  }

  // ---------- the operations ----------

  predicate Stale(a: Attr, now: int, mday: int) {
    a.lastTime + DAY_SEC < now || a.lastDay != mday
  }

  /** Every node of the chain is freed, its next-index left in place. */
  function Freed(nodes: Nodes, c: seq<Index>): (r: Nodes)
    ensures forall i: Index :: r[i] == if i in c then nodes[i].(val := -1) else nodes[i]
  {
    seq(CAPACITY, i requires 0 <= i < CAPACITY => if i in c then nodes[i].(val := -1) else nodes[i])
  }

  function Clear(p: Pool, k: Key): (q: Pool)
    requires k in p.attrs
    ensures k in q.attrs
  {
    var a := p.attrs[k];
    p.(nodes := Freed(p.nodes, Chain(p, k)), nodeUse := p.nodeUse - a.count,
       attrs := p.attrs[k := a.(count := 0, head := -1)])
  }

  /** CheckClearStrAttrNodeShm: a new day starts with an empty chain. */
  function CheckClear(p: Pool, k: Key, now: int, mday: int): (q: Pool)
    requires k in p.attrs
    ensures k in q.attrs
  {
    if Stale(p.attrs[k], now, mday) && p.attrs[k].count > 0 then Clear(p, k) else p
  }

  /** A string already on the chain, in node i, takes the report's value. */
  function Merge(p: Pool, k: Key, i: Index, v: Uint32, mday: int): (q: Pool)
    requires k in p.attrs
  {
    p.(nodes := p.nodes[i := p.nodes[i].(val := StrCounter.Merged(p.nodes[i].val, v))],
       attrs := p.attrs[k := p.attrs[k].(lastDay := mday)])
  }

  /** The nodes the eviction collects: its loop runs while idx > 0, so it stops at node 0. */
  function EvictWalk(nodes: Nodes, idx: int, n: nat): (c: seq<Index>)
    ensures |c| <= n
    decreases n
  {
    if n == 0 || !(0 < idx < CAPACITY) then [] else [idx] + EvictWalk(nodes, nodes[idx].next, n - 1)
  }

  /** The collected nodes in the order of the multimap. */
  function ByValue(nodes: Nodes, c: seq<Index>): (r: seq<Index>)
    ensures |r| == |c|
  {
    var o := SortOrder(StrCounter.Values(EntriesOf(nodes, c)));
    seq(|o|, i requires 0 <= i < |o| => c[o[i]])
  }

  /** The first SELECT nodes of r freed, the others relinked in order. */
  function Relinked(nodes: Nodes, r: seq<Index>): (q: Nodes)
    requires |r| >= SELECT
  {
    seq(CAPACITY, i requires 0 <= i < CAPACITY => RelinkedNode(nodes[i], r, i))
  }

  function RelinkedNode(n: Node, r: seq<Index>, i: Index): Node
    requires |r| >= SELECT
  {
    if i in r[..SELECT] then n.(val := -1, next := -1)
    else if i in r[SELECT..] then n.(next := Successor(r[SELECT..], i))
    else n
  }

  /** The element after the first i in s, or -1. */
  function Successor(s: seq<Index>, i: int): int {
    if |s| <= 1 then -1 else if s[0] == i then s[1] else Successor(s[1..], i)
  }

  /** Eviction on a full chain; undefined when the multimap iterator is dereferenced at its end. */
  function Evict(p: Pool, k: Key): (r: Outcome<Pool>)
    requires k in p.attrs && p.attrs[k].count >= MAX_CHAIN
    ensures r.Done? ==> k in r.value.attrs
  {
    var a := p.attrs[k];
    var reps := ByValue(p.nodes, EvictWalk(p.nodes, a.head, a.count));
    if |reps| <= SELECT then Undefined
    else Done(p.(nodes := Relinked(p.nodes, reps), nodeUse := p.nodeUse - SELECT,
                 attrs := p.attrs[k := a.(head := reps[SELECT], count := a.count - SELECT)]))
  }

  /** The i-th position of a circular scan. */
  function Circular(start: Index, i: nat): Index {
    (start + i) % CAPACITY
  }

  /** Steps of the circular scan before a free node, or n when there is none within n. */
  function ScanFree(nodes: Nodes, start: Index, n: nat): (j: nat)
    ensures j <= n
    ensures j < n ==> nodes[Circular(start, j)].val <= 0
    ensures forall i :: 0 <= i < j ==> nodes[Circular(start, i)].val > 0
  {
    if n == 0 then 0
    else
      var j := ScanFree(nodes, start, n - 1);
      if j < n - 1 || nodes[Circular(start, n - 1)].val <= 0 then j else n
  }

  /** A free node is appended behind last (the whole chain when last is -1), if there is one. */
  function Append(p: Pool, k: Key, last: int, str: string, v: Uint32, mday: int): (q: Pool)
    requires k in p.attrs
    requires last == -1 || 0 <= last < CAPACITY
    ensures k in q.attrs
  {
    var j := ScanFree(p.nodes, p.writeIdx, |p.nodes|);
    if j == |p.nodes| then p
    else
      var idx := Circular(p.writeIdx, j);
      var a := p.attrs[k];
      var nodes := p.nodes[idx := Node(StrCounter.Trunc(str), ToInt32(v), -1)];
      Pool(if last >= 0 then nodes[last := nodes[last].(next := idx)] else nodes,
           p.nodeUse + 1, (idx + 1) % CAPACITY,
           p.attrs[k := if last >= 0 then a.(count := a.count + 1, lastDay := mday)
                        else a.(head := idx, count := 1, lastDay := mday)])
  }

  /** A report as it reaches the pool; slotFree: the attribute table can take a new key. */
  datatype Report = Report(key: Key, dataType: int, str: string, v: Uint32, now: int, mday: int, slotFree: bool)

  function LastOf(c: seq<Index>): int {
    if c == [] then -1 else c[|c| - 1]
  }

  /** A new string: evict when the chain is full, then append. */
  function AddString(p: Pool, r: Report): (res: Outcome<Pool>)
    requires r.key in p.attrs
    ensures res.Done? ==> r.key in res.value.attrs
  {
    if p.attrs[r.key].count >= MAX_CHAIN then
      match Evict(p, r.key)
      case Undefined => Undefined
      case Done(q) => Done(Append(q, r.key, LastOf(Chain(q, r.key)), r.str, r.v, r.mday))
    else Done(Append(p, r.key, LastOf(Chain(p, r.key)), r.str, r.v, r.mday))
  }

  /** The pool when the search for the string starts. */
  function Prepared(p: Pool, r: Report): (q: Pool)
    ensures r.key in q.attrs
  {
    var q := if r.key in p.attrs then CheckClear(p, r.key, r.now, r.mday)
             else p.(attrs := p.attrs[r.key := Attr(r.dataType, 0, -1, 0, 0)]);
    q.(attrs := q.attrs[r.key := q.attrs[r.key].(dataType := r.dataType)])
  }

  /** AddStrAttrReportToShm, then the caller's update of the last report time. */
  function Step(p: Pool, r: Report): Outcome<Pool> {
    if r.key !in p.attrs && !r.slotFree then Done(p)
    else
      var q := Prepared(p, r);
      var c := Chain(q, r.key);
      var i := StrCounter.Find(EntriesOf(q.nodes, c), r.str);
      var res := if i < |c| then Done(Merge(q, r.key, c[i], r.v, r.mday)) else AddString(q, r);
      if res.Undefined? then Undefined
      else Done(res.value.(attrs := res.value.attrs[r.key := res.value.attrs[r.key].(lastTime := r.now)]))
  }
}
