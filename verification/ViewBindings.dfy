/** Which views a machine, or an attribute, is bound to: small arrays kept by database rows. */
module ViewBindings {
  import opened Basics

  /** MAX_MACHINE_BIND_VIEW_COUNT and MAX_ATTR_BIND_VIEW_COUNT. */
  const MAX_VIEWS := 20

  /** A row in use: a known view stays where it is; a 21st is written behind the array. */
  function Bound(s: seq<int>, v: int): Outcome<seq<int>> {
    if v in s then Done(s)
    else if |s| >= MAX_VIEWS then Undefined
    else Done(s + [v])
  }

  /** A deleted row: the later views move up. */
  function Unbound(s: seq<int>, v: int): seq<int> {
    var i := IndexOf(s, v);
    if i < |s| then s[..i] + s[i + 1..] else s
  }

  /** A row of mt_view_bmach or mt_view_battr; slotFree says whether the hash table can take a new owner. */
  datatype Row = Row(owner: int, view: int, inUse: bool, slotFree: bool)

  function ViewsOf(m: map<int, seq<int>>, owner: int): seq<int> {
    if owner in m then m[owner] else []
  }

  /** A row in use whose owner the table does not know and cannot take. */
  predicate Refused(m: map<int, seq<int>>, row: Row) {
    row.inUse && row.owner !in m && !row.slotFree
  }

  function Apply(m: map<int, seq<int>>, row: Row): Outcome<map<int, seq<int>>> {
    if row.inUse then
      if Refused(m, row) then Done(m)
      else
        match Bound(ViewsOf(m, row.owner), row.view)
        case Undefined => Undefined
        case Done(s) => Done(m[row.owner := s])
    else if row.owner in m then
      var s := Unbound(m[row.owner], row.view);
      Done(if s == [] then m - {row.owner} else m[row.owner := s])
    else Done(m)
  }

  function ApplyAll(rows: seq<Row>): Outcome<map<int, seq<int>>> {
    if rows == [] then Done(map[])
    else
      match ApplyAll(rows[..|rows| - 1])
      case Undefined => Undefined
      case Done(m) => Apply(m, rows[|rows| - 1])
  }

  /** Whether the latest row for the pair is in use. */
  predicate InUse(rows: seq<Row>, owner: int, view: int) {
    rows != [] &&
    var r := rows[|rows| - 1];
    if r.owner == owner && r.view == view then r.inUse else InUse(rows[..|rows| - 1], owner, view)
  }

  ghost predicate Known(rows: seq<Row>, owner: int) {
    exists v :: InUse(rows, owner, v)
  }

  /** All rows but those in use for an owner that has no view in use yet and finds no room. */
  ghost function Accepted(rows: seq<Row>): seq<Row> {
    if rows == [] then []
    else
      var h, row := Accepted(rows[..|rows| - 1]), rows[|rows| - 1];
      if row.inUse && !row.slotFree && !Known(h, row.owner) then h else h + [row]
  }

  /** Nothing is refused while there is room. */
  lemma {:induction false} AllAccepted(rows: seq<Row>)
    requires forall i :: 0 <= i < |rows| && rows[i].inUse ==> rows[i].slotFree
    ensures Accepted(rows) == rows
  {
    if rows != [] {
      AllAccepted(rows[..|rows| - 1]);
      assert rows == rows[..|rows| - 1] + [rows[|rows| - 1]];
    }
  }

  /** An owner has an entry in the table exactly when one of its views is in use. */
  lemma {:induction false} EntryIsKnown(m: map<int, seq<int>>, h: seq<Row>, owner: int)
    requires forall o :: o in m ==> m[o] != []
    requires forall o, v :: v in ViewsOf(m, o) <==> InUse(h, o, v)
    ensures owner in m <==> Known(h, owner)
  {
    hide InUse;
    if owner in m {
      var v := m[owner][0];
      assert v in ViewsOf(m, owner) <==> InUse(h, owner, v);
    } else {
      assert ViewsOf(m, owner) == [];
    }
  }

  lemma {:induction false} UnboundIs(s: seq<int>, v: int)
    requires NoDup(s)
    ensures NoDup(Unbound(s, v))
    ensures forall x :: x in Unbound(s, v) <==> x in s && x != v
  {
    hide IndexOf;
    var i, u := IndexOf(s, v), Unbound(s, v);
    forall x | x in s && x != v
      ensures x in u
    {
      var j :| 0 <= j < |s| && s[j] == x;
      if i < |s| { assert x == u[if j < i then j else j - 1]; }
    }
  }

  lemma {:induction false} BoundIs(s: seq<int>, v: int)
    requires NoDup(s) && Bound(s, v).Done?
    ensures NoDup(Bound(s, v).value)
    ensures forall x :: x in Bound(s, v).value <==> x in s || x == v
  {
  }

  /** No view twice, no empty entry, and exactly the views in use by the rows. */
  ghost predicate Holds(m: map<int, seq<int>>, rows: seq<Row>) {
    && (forall o :: o in m ==> NoDup(m[o]) && m[o] != [])
    && (forall o, v :: v in ViewsOf(m, o) <==> InUse(rows, o, v))
  }

  lemma {:induction false} RowHolds(m: map<int, seq<int>>, h: seq<Row>, row: Row)
    requires Holds(m, h) && !Refused(m, row) && Apply(m, row).Done?
    ensures Holds(Apply(m, row).value, h + [row])
  {
    hide Bound, Unbound, NoDup;
    var s, n := ViewsOf(m, row.owner), Apply(m, row).value;
    EmptyDistinct();
    BoundOrUnbound(s, row);
    assert (h + [row])[..|h|] == h;
    assert ViewsOf(n, row.owner) == if row.inUse then Bound(s, row.view).value
                                    else if row.owner in m then Unbound(s, row.view) else s;
    assert forall o :: o != row.owner ==> ViewsOf(n, o) == ViewsOf(m, o);
    forall o, v
      ensures v in ViewsOf(n, o) <==> InUse(h + [row], o, v)
    {
      assert v in ViewsOf(m, o) <==> InUse(h, o, v);
    }
  }

  /** After any rows that fit the table holds exactly the views in use by the accepted rows. */
  lemma {:induction false} BindingsFollowRows(rows: seq<Row>)
    requires ApplyAll(rows).Done?
    ensures Holds(ApplyAll(rows).value, Accepted(rows))
  {
    hide Apply, Known, Holds;
    if rows == [] {
      NothingHeld();
    } else {
      var g, row := rows[..|rows| - 1], rows[|rows| - 1];
      BindingsFollowRows(g);
      var m, h := ApplyAll(g).value, Accepted(g);
      RefusedExactly(m, h, row);
      if Refused(m, row) { RefusedStays(m, row); } else { RowHolds(m, h, row); }
    }
  }

  lemma {:induction false} NothingHeld()
    ensures Holds(map[], [])
  {
  }

  lemma {:induction false} RefusedExactly(m: map<int, seq<int>>, h: seq<Row>, row: Row)
    requires Holds(m, h)
    ensures Refused(m, row) <==> row.inUse && !row.slotFree && !Known(h, row.owner)
  {
    hide InUse, NoDup;
    EntryIsKnown(m, h, row.owner);
  }

  lemma {:induction false} RefusedStays(m: map<int, seq<int>>, row: Row)
    requires Refused(m, row)
    ensures Apply(m, row) == Done(m)
  {
  }

  lemma {:induction false} EmptyDistinct()
    ensures NoDup<int>([])
  {
  }

  lemma {:induction false} BoundOrUnbound(s: seq<int>, row: Row)
    requires NoDup(s)
    ensures row.inUse && Bound(s, row.view).Done? ==> Bound(s, row.view).value != []
    ensures var t := if row.inUse then Bound(s, row.view) else Done(Unbound(s, row.view));
      t.Done? ==> NoDup(t.value) && forall x :: x in t.value <==> if x == row.view then row.inUse else x in s
  {
    hide NoDup;
    if !row.inUse {
      UnboundIs(s, row.view);
    } else if Bound(s, row.view).Done? {
      BoundIs(s, row.view);
    }
  }

  /** Row i finds 20 other views of its owner in use. */
  ghost predicate Overflows(rows: seq<Row>, i: nat) {
    && i < |rows| && rows[i].inUse && ApplyAll(rows[..i]).Done?
    && var s := ViewsOf(ApplyAll(rows[..i]).value, rows[i].owner);
       |s| == MAX_VIEWS && rows[i].view !in s
  }

  lemma {:induction false} FewViews(rows: seq<Row>, o: int)
    requires ApplyAll(rows).Done?
    ensures |ViewsOf(ApplyAll(rows).value, o)| <= MAX_VIEWS
  {
    hide IndexOf;
    if rows != [] { FewViews(rows[..|rows| - 1], o); }
  }

  lemma {:induction false} OverflowsBefore(rows: seq<Row>, i: nat)
    requires i < |rows| - 1
    ensures Overflows(rows, i) <==> Overflows(rows[..|rows| - 1], i)
  {
    assert rows[..|rows| - 1][..i] == rows[..i];
  }

  /** The arrays overflow exactly when some row brings an owner's 21st view. */
  lemma {:induction false} OverflowsExactly(rows: seq<Row>)
    ensures ApplyAll(rows).Undefined? <==> exists i: nat :: Overflows(rows, i)
  {
    if rows != [] {
      var n := |rows| - 1;
      OverflowsExactly(rows[..n]);
      LastOverflows(rows);
      hide Overflows, ApplyAll;
      forall i: nat | i < n
        ensures Overflows(rows, i) <==> Overflows(rows[..n], i)
      {
        OverflowsBefore(rows, i);
      }
      forall i: nat
        ensures (Overflows(rows, i) ==> i <= n) && (Overflows(rows[..n], i) ==> i < n)
      {
        Inside(rows, i);
        Inside(rows[..n], i);
      }
    }
  }

  lemma {:induction false} Inside(rows: seq<Row>, i: nat)
    ensures Overflows(rows, i) ==> i < |rows|
  {
  }

  lemma {:induction false} LastOverflows(rows: seq<Row>)
    requires rows != []
    ensures var g := rows[..|rows| - 1];
      ApplyAll(rows).Undefined? <==> ApplyAll(g).Undefined? || Overflows(rows, |rows| - 1)
  {
    hide Unbound;
    var n := |rows| - 1;
    if ApplyAll(rows[..n]).Done? { FewViews(rows[..n], rows[n].owner); }
  }

  /** TMachineViewConfigInfo and TAttrViewConfigInfo: a fixed array and a count. */
  class BoundViews {
    const aryView: array<int>
    var count: int  // iBindViewCount

    ghost predicate Valid()
      reads this, aryView
    {
      aryView.Length == MAX_VIEWS && 0 <= count <= MAX_VIEWS && NoDup(aryView[..count])
    }

    constructor (view: int)
      ensures Valid() && fresh(aryView) && aryView[..count] == [view]
    {
      aryView := new int[MAX_VIEWS](_ => view);
      count := 1;
    }

    /** ok is false where the source writes behind the array. */
    method Bind(view: int) returns (ok: bool)
      requires Valid()
      modifies this, aryView
      ensures Valid() && ok == Bound(old(aryView[..count]), view).Done?
      ensures aryView[..count] == if ok then Bound(old(aryView[..count]), view).value else old(aryView[..count])
    {
      var i := 0;
      while i < count
        invariant 0 <= i <= count && view !in aryView[..i]
      {
        if view == aryView[i] {
          return true;
        }
        i := i + 1;
      }
      if i >= MAX_VIEWS {
        return false;
      }
      aryView[i] := view;
      count := count + 1;
      assert aryView[..count] == old(aryView[..count]) + [view];
      return true;
    }

    /** The first match is closed by moving the rest up. */
    method Unbind(view: int)
      requires Valid()
      modifies this, aryView
      ensures Valid() && aryView[..count] == Unbound(old(aryView[..count]), view)
    {
      hide IndexOf, NoDup;
      ghost var s := aryView[..count];
      UnboundIs(s, view);
      var i := 0;
      while i < count && view != aryView[i]
        invariant 0 <= i <= count && forall j :: 0 <= j < i ==> aryView[j] != view
      {
        i := i + 1;
      }
      if i < count {
        assert IndexOf(s, view) == i;
        assert aryView[..i] == s[..i] && aryView[i + 1..count] == s[i + 1..];
        MoveUp(i);
      }
    }

    /** Everything behind position at moves up by one. */
    method MoveUp(at: nat)
      requires aryView.Length == MAX_VIEWS && at < count <= MAX_VIEWS
      modifies this, aryView
      ensures count == old(count) - 1 && aryView[..count] == old(aryView[..at]) + old(aryView[at + 1..count])
    {
      ghost var s := aryView[..count];
      var i := at;
      while i + 1 < count
        invariant at <= i < count == old(count)
        invariant forall j :: 0 <= j < at || i <= j < count ==> aryView[j] == s[j]
        invariant forall j :: at <= j < i ==> aryView[j] == s[j + 1]
      {
        aryView[i] := aryView[i + 1];
        i := i + 1;
      }
      count := count - 1;
    }
  }
}
