/**
 The order in which a std::multimap keyed by value iterates over pairs inserted
 one after the other: ascending by key, equal keys in insertion order.
 */
module StableOrder {
  import opened Basics

  /** The order of two positions: by value, ties by position. */
  predicate Precedes(vals: seq<int>, a: nat, b: nat)
    requires a < |vals| && b < |vals|
  {
    vals[a] < vals[b] || (vals[a] == vals[b] && a < b)
  }

  ghost predicate InRange(o: seq<nat>, n: nat) {
    forall i :: 0 <= i < |o| ==> o[i] < n
  }

  ghost predicate Ascending(vals: seq<int>, o: seq<nat>)
    requires InRange(o, |vals|)
  {
    forall i, j :: 0 <= i < j < |o| ==> Precedes(vals, o[i], o[j])
  }

  /** Where multimap::insert puts a key: behind every key that is not larger. */
  function UpperBound(keys: seq<int>, v: int): (p: nat)
    ensures p <= |keys|
  {
    if keys == [] || keys[0] > v then 0 else 1 + UpperBound(keys[1..], v)
  }

  lemma {:induction false} UpperBoundSplits(keys: seq<int>, v: int)
    requires forall i, j :: 0 <= i < j < |keys| ==> keys[i] <= keys[j]
    ensures forall i :: 0 <= i < |keys| ==> (i < UpperBound(keys, v) <==> keys[i] <= v)
  {
    if keys != [] && keys[0] <= v {
      UpperBoundSplits(keys[1..], v);
      forall i | 0 <= i < |keys| ensures i < UpperBound(keys, v) <==> keys[i] <= v {
        if i > 0 { assert keys[i] == keys[1..][i - 1]; }
      }
    }
  }

  function InsertAt<T>(s: seq<T>, p: nat, x: T): (r: seq<T>)
    requires p <= |s|
    ensures |r| == |s| + 1
  {
    s[..p] + [x] + s[p..]
  }

  /** Positions 0 .. |vals| in iteration order. */
  function SortOrder(vals: seq<int>): (o: seq<nat>)
    ensures |o| == |vals|
    ensures forall i :: 0 <= i < |o| ==> o[i] < |vals|
  {
    if vals == [] then []
    else
      var n := |vals| - 1;
      var o := SortOrder(vals[..n]);
      InsertAt(o, UpperBound(Picked(vals[..n], o), vals[n]), n)
  }

  /** Putting the newest position n behind the keys that are not larger keeps the order. */
  lemma {:induction false} InsertAscending(vals: seq<int>, o: seq<nat>, n: nat)
    requires |vals| == n + 1
    requires forall i :: 0 <= i < |o| ==> o[i] < n
    requires Ascending(vals, o)
    ensures Ascending(vals, InsertAt(o, UpperBound(Picked(vals[..n], o), vals[n]), n))
  {
    var ks := Picked(vals[..n], o);
    forall i, j | 0 <= i < j < |ks| ensures ks[i] <= ks[j] {
      assert Precedes(vals, o[i], o[j]);
    }
    UpperBoundSplits(ks, vals[n]);
    var p := UpperBound(ks, vals[n]);
    forall i | 0 <= i < |o| ensures if i < p then vals[o[i]] <= vals[n] else vals[o[i]] > vals[n] {
      assert ks[i] == vals[o[i]];
    }
  }

  /** Iteration is ascending and stable. */
  lemma {:induction false} SortOrderAscending(vals: seq<int>)
    ensures Ascending(vals, SortOrder(vals))
  {
    if vals != [] {
      var n := |vals| - 1;
      var o := SortOrder(vals[..n]);
      SortOrderAscending(vals[..n]);
      forall i, j | 0 <= i < j < |o| ensures Precedes(vals, o[i], o[j]) {
        assert Precedes(vals[..n], o[i], o[j]);
      }
      InsertAscending(vals, o, n);
    }
  }

  /** Iteration visits every position exactly once. */
  lemma {:induction false} SortOrderPermutes(vals: seq<int>)
    ensures NoDup(SortOrder(vals))
    ensures forall a: nat :: a < |vals| ==> a in SortOrder(vals)
  {
    SortOrderAscending(vals);
    forall i, j | 0 <= i < j < |vals| ensures SortOrder(vals)[i] != SortOrder(vals)[j] {
      assert Precedes(vals, SortOrder(vals)[i], SortOrder(vals)[j]);
    }
    if vals != [] {
      var n := |vals| - 1;
      var o := SortOrder(vals[..n]);
      SortOrderPermutes(vals[..n]);
      var p := UpperBound(Picked(vals[..n], o), vals[n]);
      var r := SortOrder(vals);
      forall a: nat | a < |vals| ensures a in r {
        if a == n {
          assert r[p] == n;
        } else {
          assert a in o;
          var i :| 0 <= i < |o| && o[i] == a;
          assert r[if i < p then i else i + 1] == a;
        }
      }
    }
  }
}
