/** The recent-alarm list in shared memory: index links, a count and two ends. */
module RecentShm {
  import opened Basics
  import opened RecentList
  import opened RecentLinks

  /** A node has an id exactly when it is linked. */
  ghost predicate Live(n: seq<Node>, order: seq<Index>)
    requires |n| == TABLE
  {
    forall i: Index :: n[i].rec.id != 0 <==> i in order
  }

  /** The hash table's answer for an id: its node, a free one, or -1. */
  ghost predicate Answer(n: seq<Node>, order: seq<Index>, id: nat, find: bool, slot: int)
    requires |n| == TABLE
  {
    var p := PosOf(RecordsOf(n, order), id);
    if p < |order| then find && slot == order[p]
    else !find && (slot == -1 || (0 <= slot < TABLE && slot !in order))
  }

  // ---------- records after a change of links ----------

  lemma {:induction false} SameRecords(n: seq<Node>, m: seq<Node>, order: seq<Index>)
    requires |n| == |m| == TABLE && SameRecs(n, m)
    ensures RecordsOf(n, order) == RecordsOf(m, order)
    ensures Live(n, order) ==> Live(m, order)
  {
  }

  lemma {:induction false} RecordsWithout(n: seq<Node>, order: seq<Index>, p: nat)
    requires |n| == TABLE && p < |order|
    ensures RecordsOf(n, Without(order, p)) == Without(RecordsOf(n, order), p)
  {
  }

  lemma {:induction false} RecordsPlus(n: seq<Node>, order: seq<Index>, idx: Index)
    requires |n| == TABLE
    ensures RecordsOf(n, [idx] + order) == [n[idx].rec] + RecordsOf(n, order)
    ensures RecordsOf(n, order + [idx]) == RecordsOf(n, order) + [n[idx].rec]
  {
  }

  lemma {:induction false} LiveWithout(n: seq<Node>, m: seq<Node>, order: seq<Index>, p: nat)
    requires |n| == |m| == TABLE && Live(n, order) && Chain(n, order) && p < |order|
    requires forall i: Index :: m[i].rec == if i == order[p] then n[i].rec.(id := 0) else n[i].rec
    ensures Live(m, Without(order, p))
    ensures RecordsOf(m, Without(order, p)) == Without(RecordsOf(n, order), p)
  {
    hide Without;
    WithoutAt(order, p);
    RecordsWithout(n, order, p);
    assert forall i :: 0 <= i < |order| - 1 ==> Without(order, p)[i] != order[p];
  }

  lemma {:induction false} LivePlus(n: seq<Node>, m: seq<Node>, order: seq<Index>, idx: Index, rec: Rec)
    requires |n| == |m| == TABLE && Live(n, order) && idx !in order && rec.id != 0
    requires forall i: Index :: m[i].rec == if i == idx then rec else n[i].rec
    ensures Live(m, [idx] + order) && Live(m, order + [idx])
    ensures RecordsOf(m, [idx] + order) == [rec] + RecordsOf(n, order)
    ensures RecordsOf(m, order + [idx]) == RecordsOf(n, order) + [rec]
  {
    RecordsPlus(m, order, idx);
    assert RecordsOf(m, order) == RecordsOf(n, order);
  }

  class RecentAlarms {
    const nodes: array<Node>
    var count: int      // bLastWarnCount
    var start: int      // iWarnIndexStart
    var end: int        // iWarnIndexEnd
    ghost var order: seq<Index>

    ghost predicate Linked()
      reads this, nodes
    {
      && nodes.Length == TABLE
      && count == |order|
      && Chain(nodes[..], order)
      && (order != [] ==> start == order[0] && end == order[|order| - 1])
    }

    ghost predicate Valid()
      reads this, nodes
    {
      && Linked()
      && count <= MAX_RECENT
      && Live(nodes[..], order)
      && DistinctIds(Records())
    }

    ghost function Records(): (l: seq<Rec>)
      requires nodes.Length == TABLE
      reads this, nodes
      ensures |l| == |order|
    {
      RecordsOf(nodes[..], order)
    }

    /** Zero-filled memory. */
    constructor (empty: Rec)
      requires empty.id == 0
      ensures Valid() && fresh(nodes) && Records() == []
    {
      nodes := new Node[TABLE](_ => Node(empty, 0, 0));
      count, start, end := 0, 0, 0;
      order := [];
    }

    /** ILINK_DELETE_NODE and the count. */
    method Detach(idx: Index, ghost p: nat)
      requires Linked() && p < |order| && idx == order[p]
      modifies this, nodes
      ensures Linked() && order == Without(old(order), p)
      ensures nodes[..] == Unlink(old(nodes[..]), idx)
    {
      hide Chain, NoDup, Without;
      UnlinkChain(nodes[..], order, p);
      NeighboursAt(nodes[..], order, p);
      var pre, next := nodes[idx].pre, nodes[idx].next;
      count := count - 1;
      if pre < 0 {
        start := next;
      } else {
        nodes[pre] := nodes[pre].(next := next);
      }
      if next < 0 {
        end := pre;
      } else {
        nodes[next] := nodes[next].(pre := pre);
      }
      nodes[idx] := nodes[idx].(pre := -1, next := -1);
      order := Without(order, p);
      assert nodes[..] == Unlink(old(nodes[..]), idx);
    }

    /** ILINK_SET_FIRST or ILINK_INSERT_FIRST, and the count. */
    method AttachFirst(idx: Index)
      requires Linked() && idx !in order
      modifies this, nodes
      ensures Linked() && order == [idx] + old(order)
      ensures SameRecs(old(nodes[..]), nodes[..])
    {
      hide Chain, NoDup;
      LinkFirstChain(nodes[..], order, idx);
      if count == 0 || start < 0 {
        nodes[idx] := nodes[idx].(pre := -1, next := -1);
        start, end := idx, idx;
      } else {
        nodes[idx] := nodes[idx].(pre := -1, next := start);
        nodes[start] := nodes[start].(pre := idx);
        start := idx;
      }
      assert nodes[..] == LinkFirst(old(nodes[..]), idx, At(order, 0));
      count := count + 1;
      order := [idx] + order;
    }

    /** ILINK_SET_FIRST or ILINK_INSERT_LAST, and the count. */
    method AttachLast(idx: Index)
      requires Linked() && idx !in order
      modifies this, nodes
      ensures Linked() && order == old(order) + [idx]
      ensures SameRecs(old(nodes[..]), nodes[..])
    {
      hide Chain, NoDup;
      LinkLastChain(nodes[..], order, idx);
      if count == 0 || start < 0 {
        nodes[idx] := nodes[idx].(pre := -1, next := -1);
        start, end := idx, idx;
      } else {
        nodes[idx] := nodes[idx].(pre := end, next := -1);
        nodes[end] := nodes[end].(next := idx);
        end := idx;
      }
      assert nodes[..] == LinkLast(old(nodes[..]), idx, At(order, |order| - 1));
      count := count + 1;
      order := order + [idx];
    }

    /** Takes a node out of the list and gives it back to the hash table. */
    method Release(idx: Index, ghost p: nat)
      requires Valid() && p < |order| && idx == order[p]
      modifies this, nodes
      ensures Valid() && order == Without(old(order), p) && Records() == Without(old(Records()), p)
    {
      hide Chain, Live, Without;
      RefreshKeeps(Records(), p, Records()[p], false);
      ghost var was := nodes[..];
      Detach(idx, p);
      UnlinkRecs(was, idx);
      nodes[idx] := nodes[idx].(rec := nodes[idx].rec.(id := 0));
      LiveWithout(was, nodes[..], old(order), p);
      SameLinks(Unlink(was, idx), nodes[..], order);
    }

    /** Links a free node in front or at the back, and fills it. */
    method Add(row: Rec, front: bool, slot: Index)
      requires Valid() && row.id != 0 && slot !in order && count < MAX_RECENT
      requires PosOf(Records(), row.id) == |order|
      modifies this, nodes
      ensures Valid() && Records() == if front then [row] + old(Records()) else old(Records()) + [row]
    {
      hide Chain, Live;
      ghost var l, was := Records(), nodes[..];
      InsertKeeps(l, row, !front, true);
      if front || count == 0 || start < 0 {
        AttachFirst(slot);
      } else {
        AttachLast(slot);
      }
      ghost var linked := nodes[..];
      nodes[slot] := nodes[slot].(rec := row);
      SameLinks(linked, nodes[..], order);
      LivePlus(was, nodes[..], old(order), slot, row);
    }

    /** A row the list does not hold: the oldest entry makes room, except on a reload. */
    method InsertRow(row: Rec, reload: bool, slot: int)
      requires Valid() && row.id != 0 && Answer(nodes[..], order, row.id, false, slot)
      modifies this, nodes
      ensures Valid() && Records() == Insert(old(Records()), row, reload, slot >= 0)
    {
      hide Chain, Live, Without, PosOf;
      if slot < 0 {
        return;
      }
      if (count >= MAX_RECENT && !reload) || count < MAX_RECENT {
        if count >= MAX_RECENT {
          ghost var was, l := order, Records();
          Release(end, |order| - 1);
          LastOut(l);
          LastOut(was);
          PosIs(Records(), row.id, |order|);
        }
        Add(row, !reload, slot);
      }
    }

    /** A row the list holds at slot: copied when its update time differs, moved when its alarm time does. */
    method RefreshRow(row: Rec, reload: bool, slot: Index, ghost p: nat)
      requires Valid() && p < |order| && slot == order[p] && Records()[p].id == row.id
      modifies this, nodes
      ensures Valid() && Records() == Refresh(old(Records()), p, row, reload)
    {
      hide Chain, Without, NoDup, DistinctIds;
      ghost var l := Records();
      NoDupOf(nodes[..], order);
      RefreshKeeps(l, p, row, reload);
      WithoutUpdate(l, p, Updated(l[p], row));
      if nodes[slot].rec.updateTime == row.updateTime {
        return;
      }
      var moved := nodes[slot].rec.lastTime != row.lastTime && start != slot;
      StartsFirst(order, p);
      ghost var was := nodes[..];
      nodes[slot] := nodes[slot].(rec := Updated(nodes[slot].rec, row));
      SameLinks(was, nodes[..], order);
      OneRecord(was, nodes[..], order, p);
      if moved {
        MoveRow(reload, slot, p);
      }
    }

    method MoveRow(reload: bool, slot: Index, ghost p: nat)
      requires Linked() && Live(nodes[..], order) && p < |order| && slot == order[p]
      modifies this, nodes
      ensures Linked() && Live(nodes[..], order) && count == old(count)
      ensures var l := old(Records());
        Records() == if reload then Without(l, p) + [l[p]] else [l[p]] + Without(l, p)
    {
      hide Chain, Without, NoDup;
      ghost var was := nodes[..];
      RecordsWithout(was, order, p);
      WithoutAt(order, p);
      NoDupOf(was, order);
      Detach(slot, p);
      UnlinkRecs(was, slot);
      SameRecords(was, nodes[..], order);
      RecordsPlus(was, order, slot);
      ghost var rest := order;
      if !reload {
        AttachFirst(slot);
      } else {
        AttachLast(slot);
      }
      SameRecords(was, nodes[..], order);
      Reordered(was, old(order), order, slot, rest);
    }

    /** One row of ReadTableWarnInfo. */
    method ReadRow(row: Rec, inUse: bool, reload: bool, find: bool, slot: int)
      requires Valid() && row.id != 0 && Answer(nodes[..], order, row.id, find, slot)
      modifies this, nodes
      ensures Valid() && Records() == Apply(old(Records()), row, inUse, reload, slot >= 0)
    {
      hide Chain, Live, Without, PosOf, NoDup, DistinctIds, Insert, Refresh;
      ghost var p := PosOf(Records(), row.id);
      if inUse && !find {
        InsertRow(row, reload, slot);
      } else if inUse && find {
        RefreshRow(row, reload, slot, p);
      }
      if find && !inUse {
        Release(slot, p);
      }
    }

    /** From the two ends, forward and backward links visit the same count nodes in opposite orders. */
    lemma {:induction false} Walks()
      requires Valid() && count > 0
      ensures |WalkForward(nodes[..], start, TABLE)| == count
      ensures WalkBack(nodes[..], end, TABLE) == Reversed(WalkForward(nodes[..], start, TABLE))
      ensures forall i: Index :: nodes[i].rec.id != 0 <==> i in WalkForward(nodes[..], start, TABLE)
    {
      hide Chain, WalkForward, WalkBack;
      WalksAreReverses(nodes[..], order, TABLE);
    }

    /** Follows the links past the first n entries. */
    method Skip(n: nat) returns (idx: int)
      requires Valid()
      ensures n < count ==> idx == order[n]
    {
      hide Chain, Live, NoDup, DistinctIds;
      idx := start;
      var i := 0;
      while i < n && i < count
        invariant 0 <= i <= n && (i < count ==> idx == order[i])
      {
        NeighboursAt(nodes[..], order, i);
        idx := nodes[idx].next;
        i := i + 1;
      }
    }

    /** Collects up to n entries behind the first from ones. */
    method Collect(first: int, from: nat, n: nat) returns (list: seq<Rec>)
      requires Valid() && (from < count ==> first == order[from])
      ensures list == Slice(Records(), from, n)
    {
      hide Chain, Live, NoDup, DistinctIds;
      list := [];
      var idx, i := first, from;
      while i < from + n && i < count
        invariant from <= i <= from + n && (i < count ==> idx == order[i])
        invariant if from <= count then i <= count && list == Records()[from..i] else list == []
      {
        NeighboursAt(nodes[..], order, i);
        list := list + [nodes[idx].rec];
        idx := nodes[idx].next;
        i := i + 1;
      }
    }

    /** GetWarnListFromShm: ok is false when the page has to come from the database. */
    method ReadPage(page: nat, perPage: nat, total: nat) returns (ok: bool, list: seq<Rec>)
      requires Valid() && page >= 1
      ensures ok == Page(Records(), page, perPage, total).Some?
      ensures ok ==> list == Page(Records(), page, perPage, total).value
    {
      hide Chain, Live, NoDup, DistinctIds, Slice;
      list := [];
      ok := !(count < perPage * page && total > count);
      if ok {
        PageEnd(page, perPage);
        var from := perPage * (page - 1);
        var first := Skip(from);
        list := Collect(first, from, perPage);
      }
    }
  }

  lemma {:induction false} WithoutUpdate<T>(l: seq<T>, p: nat, x: T)
    requires p < |l|
    ensures Without(l[p := x], p) == Without(l, p)
  {
  }

  lemma {:induction false} LastOut<T>(l: seq<T>)
    requires l != []
    ensures Without(l, |l| - 1) == l[..|l| - 1]
  {
  }

  lemma {:induction false} StartsFirst(order: seq<Index>, p: nat)
    requires NoDup(order) && p < |order|
    ensures order[0] == order[p] <==> p == 0
  {
  }

  lemma {:induction false} NoDupOf(n: seq<Node>, order: seq<Index>)
    requires |n| == TABLE && Chain(n, order)
    ensures NoDup(order)
  {
  }

  lemma {:induction false} OneRecord(n: seq<Node>, m: seq<Node>, order: seq<Index>, p: nat)
    requires |n| == |m| == TABLE && Live(n, order) && NoDup(order) && p < |order|
    requires forall i: Index :: i != order[p] ==> m[i] == n[i]
    requires m[order[p]].rec.id == n[order[p]].rec.id
    ensures Live(m, order) && RecordsOf(m, order) == RecordsOf(n, order)[p := m[order[p]].rec]
  {
  }

  lemma {:induction false} Reordered(n: seq<Node>, order: seq<Index>, next: seq<Index>, slot: Index, rest: seq<Index>)
    requires |n| == TABLE && Live(n, order) && (next == [slot] + rest || next == rest + [slot])
    requires forall x :: x in order <==> x in rest || x == slot
    ensures Live(n, next)
  {
  }

  /** Records may change without touching the links. */
  lemma {:induction false} SameLinks(n: seq<Node>, m: seq<Node>, order: seq<Index>)
    requires |n| == |m| == TABLE && Chain(n, order)
    requires forall i: Index :: m[i].pre == n[i].pre && m[i].next == n[i].next
    ensures Chain(m, order)
  {
  }

  lemma {:induction false} NeighboursAt(n: seq<Node>, order: seq<Index>, p: nat)
    requires |n| == TABLE && Chain(n, order) && p < |order|
    ensures var a := n[order[p]];
      && a.pre == At(order, p - 1) && a.next == At(order, p + 1)
      && a.pre != order[p] && a.next != order[p] && (a.pre >= 0 ==> a.pre != a.next)
    ensures var o := Without(order, p);
      && (p > 0 ==> o[0] == order[0])
      && (p == 0 && o != [] ==> o[0] == order[1])
      && (p + 1 < |order| ==> o[|o| - 1] == order[|order| - 1])
      && (p + 1 == |order| && o != [] ==> o[|o| - 1] == order[p - 1])
  {
  }
}
