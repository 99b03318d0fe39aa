/** Index-linked doubly linked lists inside one table of nodes: the ILINK macros on values. */
module RecentLinks {
  import opened Basics
  import opened RecentList

  /** WARN_INFO_HASH_NODE_COUNT. */
  const TABLE := 10000

  type Index = i: int | 0 <= i < TABLE

  datatype Node = Node(rec: Rec, pre: int, next: int)

  function At(order: seq<Index>, i: int): int {
    if 0 <= i < |order| then order[i] else -1
  }

  /** The forward and backward links both follow order. */
  ghost predicate Chain(n: seq<Node>, order: seq<Index>)
    requires |n| == TABLE
  {
    && NoDup(order)
    && forall i :: 0 <= i < |order| ==> n[order[i]].pre == At(order, i - 1) && n[order[i]].next == At(order, i + 1)
  }

  function RecordsOf(n: seq<Node>, order: seq<Index>): (r: seq<Rec>)
    requires |n| == TABLE
    ensures |r| == |order|
  {
    seq(|order|, i requires 0 <= i < |order| => n[order[i]].rec)
  }

  function Detached(a: Node): Node {
    a.(pre := -1, next := -1)
  }

  /** ILINK_DELETE_NODE; an index of -1 stands for a null neighbour. */
  function Unlink(n: seq<Node>, idx: Index): (r: seq<Node>)
    requires |n| == TABLE
    ensures |r| == TABLE
  {
    seq(TABLE, j requires 0 <= j < TABLE =>
      if j == idx then Detached(n[j])
      else n[j].(next := if j == n[idx].pre then n[idx].next else n[j].next,
                 pre := if j == n[idx].next then n[idx].pre else n[j].pre))
  }

  /** ILINK_INSERT_FIRST before the node first, or ILINK_SET_FIRST when that is -1. */
  function LinkFirst(n: seq<Node>, idx: Index, first: int): (r: seq<Node>)
    requires |n| == TABLE
    ensures |r| == TABLE
  {
    seq(TABLE, j requires 0 <= j < TABLE =>
      if j == idx then n[j].(pre := -1, next := first)
      else if j == first then n[j].(pre := idx)
      else n[j])
  }

  /** ILINK_INSERT_LAST behind the node last, or ILINK_SET_FIRST when that is -1. */
  function LinkLast(n: seq<Node>, idx: Index, last: int): (r: seq<Node>)
    requires |n| == TABLE
    ensures |r| == TABLE
  {
    seq(TABLE, j requires 0 <= j < TABLE =>
      if j == idx then n[j].(pre := last, next := -1)
      else if j == last then n[j].(next := idx)
      else n[j])
  }

  ghost predicate SameRecs(n: seq<Node>, m: seq<Node>) {
    |n| == |m| && forall i :: 0 <= i < |n| ==> n[i].rec == m[i].rec
  }

  lemma {:induction false} WithoutAt<T>(l: seq<T>, p: nat)
    requires p < |l|
    ensures forall i :: 0 <= i < |l| - 1 ==> Without(l, p)[i] == l[if i < p then i else i + 1]
    ensures NoDup(l) ==> NoDup(Without(l, p)) && l[p] !in Without(l, p)
    ensures forall x :: x in l <==> x in Without(l, p) || x == l[p]
  {
    var o := Without(l, p);
    forall j | 0 <= j < |l| && j != p
      ensures l[j] in o
    {
      assert l[j] == o[if j < p then j else j - 1];
    }
  }

  lemma {:induction false} ChainAt(n: seq<Node>, order: seq<Index>, i: nat)
    requires |n| == TABLE && Chain(n, order) && i < |order|
    ensures n[order[i]].pre == At(order, i - 1) && n[order[i]].next == At(order, i + 1)
  {
  }

  lemma {:induction false} AtOnce(order: seq<Index>, i: int, j: nat)
    requires NoDup(order) && j < |order|
    ensures order[j] == At(order, i) <==> i == j
  {
  }

  lemma {:induction false} UnlinkAt(n: seq<Node>, order: seq<Index>, p: nat, j: nat)
    requires |n| == TABLE && Chain(n, order) && p < |order| && j < |order| && j != p
    ensures var m := Unlink(n, order[p])[order[j]];
      && m.pre == (if j == p + 1 then At(order, p - 1) else At(order, j - 1))
      && m.next == (if j == p - 1 then At(order, p + 1) else At(order, j + 1))
  {
    hide NoDup, At;
    ChainAt(n, order, p);
    ChainAt(n, order, j);
    AtOnce(order, p, j);
    AtOnce(order, p - 1, j);
    AtOnce(order, p + 1, j);
    assert At(order, p) == order[p] by { AtOnce(order, p, p); }
  }

  lemma {:induction false} UnlinkRecs(n: seq<Node>, idx: Index)
    requires |n| == TABLE
    ensures SameRecs(n, Unlink(n, idx))
  {
  }

  lemma {:induction false} AtWithout(order: seq<Index>, p: nat, i: int)
    requires p < |order| && -1 <= i < |order|
    ensures At(Without(order, p), i) == At(order, if i < p then i else i + 1)
  {
  }

  lemma {:induction false} UnlinkChainAt(n: seq<Node>, order: seq<Index>, p: nat, i: nat)
    requires |n| == TABLE && Chain(n, order) && p < |order| && i < |order| - 1
    ensures var o, m := Without(order, p), Unlink(n, order[p]);
      m[o[i]].pre == At(o, i - 1) && m[o[i]].next == At(o, i + 1)
  {
    hide Unlink, Chain, At;
    AtWithout(order, p, i - 1);
    AtWithout(order, p, i + 1);
    UnlinkAt(n, order, p, if i < p then i else i + 1);
  }

  lemma {:induction false} UnlinkChain(n: seq<Node>, order: seq<Index>, p: nat)
    requires |n| == TABLE && Chain(n, order) && p < |order|
    ensures Chain(Unlink(n, order[p]), Without(order, p)) && SameRecs(n, Unlink(n, order[p]))
  {
    hide Unlink, Without, NoDup, At;
    WithoutAt(order, p);
    UnlinkRecs(n, order[p]);
    forall i | 0 <= i < |order| - 1
      ensures var o, m := Without(order, p), Unlink(n, order[p]);
        m[o[i]].pre == At(o, i - 1) && m[o[i]].next == At(o, i + 1)
    {
      UnlinkChainAt(n, order, p, i);
    }
  }

  lemma {:induction false} LinkFirstChain(n: seq<Node>, order: seq<Index>, idx: Index)
    requires |n| == TABLE && Chain(n, order) && idx !in order
    ensures Chain(LinkFirst(n, idx, At(order, 0)), [idx] + order) && SameRecs(n, LinkFirst(n, idx, At(order, 0)))
  {
    var o, m := [idx] + order, LinkFirst(n, idx, At(order, 0));
    forall i | 0 <= i < |o|
      ensures m[o[i]].pre == At(o, i - 1) && m[o[i]].next == At(o, i + 1)
    {
      if i > 0 { assert o[i] == order[i - 1] != idx; }
    }
  }

  lemma {:induction false} LinkLastChain(n: seq<Node>, order: seq<Index>, idx: Index)
    requires |n| == TABLE && Chain(n, order) && idx !in order
    ensures Chain(LinkLast(n, idx, At(order, |order| - 1)), order + [idx])
    ensures SameRecs(n, LinkLast(n, idx, At(order, |order| - 1)))
  {
    var o, m := order + [idx], LinkLast(n, idx, At(order, |order| - 1));
    forall i | 0 <= i < |o|
      ensures m[o[i]].pre == At(o, i - 1) && m[o[i]].next == At(o, i + 1)
    {
      if i < |order| { assert o[i] == order[i] != idx; }
    }
  }

  // ---------- walks ----------

  /** The indices met from one on; fuel bounds the walk. */
  function WalkForward(n: seq<Node>, from: int, fuel: nat): seq<int>
    requires |n| == TABLE
    decreases fuel
  {
    if fuel == 0 || !(0 <= from < TABLE) then [] else [from] + WalkForward(n, n[from].next, fuel - 1)
  }

  function WalkBack(n: seq<Node>, from: int, fuel: nat): seq<int>
    requires |n| == TABLE
    decreases fuel
  {
    if fuel == 0 || !(0 <= from < TABLE) then [] else [from] + WalkBack(n, n[from].pre, fuel - 1)
  }

  function Reversed<T>(s: seq<T>): (r: seq<T>)
    ensures |r| == |s|
  {
    seq(|s|, i requires 0 <= i < |s| => s[|s| - 1 - i])
  }

  lemma {:induction false} ForwardIs(n: seq<Node>, order: seq<Index>, i: nat, fuel: nat)
    requires |n| == TABLE && Chain(n, order) && i <= |order| <= i + fuel
    ensures WalkForward(n, At(order, i), fuel) == order[i..]
    decreases fuel
  {
    hide Chain;
    if i < |order| {
      ChainAt(n, order, i);
      ForwardIs(n, order, i + 1, fuel - 1);
    }
  }

  lemma {:induction false} BackIs(n: seq<Node>, order: seq<Index>, i: int, fuel: nat)
    requires |n| == TABLE && Chain(n, order) && -1 <= i < |order| && i + 1 <= fuel
    ensures WalkBack(n, At(order, i), fuel) == Reversed(order[..i + 1])
    decreases fuel
  {
    hide Chain;
    if i >= 0 {
      ChainAt(n, order, i);
      BackIs(n, order, i - 1, fuel - 1);
      assert Reversed(order[..i + 1]) == [order[i]] + Reversed(order[..i]);
    }
  }

  /** Both walks end by themselves, and one is the other reversed. */
  lemma {:induction false} WalksAreReverses(n: seq<Node>, order: seq<Index>, fuel: nat)
    requires |n| == TABLE && Chain(n, order) && |order| <= fuel
    ensures WalkForward(n, At(order, 0), fuel) == order
    ensures WalkBack(n, At(order, |order| - 1), fuel) == Reversed(order)
  {
    ForwardIs(n, order, 0, fuel);
    BackIs(n, order, |order| - 1, fuel);
    assert order[..|order|] == order;
  }
}
