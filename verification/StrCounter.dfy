/**
 What one string attribute's chain means: the list of (string, value) pairs of the
 current day. Reports merge into a pair or append one; a full list first drops the
 smallest SELECT_COUNT values. The lemmas compare it with exact counting.
 */
module StrCounter {
  import opened Basics
  import opened StableOrder

  const SELECT_COUNT := 8   // STR_ATTR_COUNT_FOR_SELECT_STR
  const KEEP_COUNT := 20    // MAX_STR_ATTR_STR_COUNT
  const MAX_CHAIN := SELECT_COUNT + KEEP_COUNT
  const STR_MAX := 64       // sizeof(szStrInfo) - 1

  datatype Entry = Entry(str: string, val: int)

  /** strncpy into szStrInfo. */
  function Trunc(s: string): string {
    if |s| <= STR_MAX then s else s[..STR_MAX]
  }

  /** The first pair holding str, or the length of the list. */
  function Find(es: seq<Entry>, str: string): (p: nat)
    ensures p <= |es|
    ensures p < |es| ==> es[p].str == str
    ensures forall i :: 0 <= i < p ==> es[i].str != str
  {
    if es == [] || es[0].str == str then 0 else 1 + Find(es[1..], str)
  }

  function Values(es: seq<Entry>): (vs: seq<int>)
    ensures |vs| == |es|
    ensures forall i :: 0 <= i < |es| ==> vs[i] == es[i].val
  {
    seq(|es|, i requires 0 <= i < |es| => es[i].val)
  }

  /** The pairs in the multimap's order. */
  function Sorted(es: seq<Entry>): (r: seq<Entry>)
    ensures |r| == |es|
  {
    Picked(es, SortOrder(Values(es)))
  }

  function Survivors(es: seq<Entry>): (r: seq<Entry>)
    requires |es| >= SELECT_COUNT
    ensures |r| == |es| - SELECT_COUNT
  {
    Sorted(es)[SELECT_COUNT..]
  }

  /** Signed 32-bit addition of a report to a stored value. */
  function Merged(val: int, v: Uint32): int {
    ToInt32(Wrap32(val + v))
  }

  /** One report. room: the shared array has a free node for a new string. */
  function Add(es: seq<Entry>, str: string, v: Uint32, room: bool): seq<Entry> {
    var p := Find(es, str);
    if p < |es| then es[p := es[p].(val := Merged(es[p].val, v))]
    else if |es| >= MAX_CHAIN then Survivors(es) + [Entry(Trunc(str), ToInt32(v))]
    else if room then es + [Entry(Trunc(str), ToInt32(v))]
    else es
  }

  // ---------- eviction ----------

  lemma {:induction false} MultisetInsert<T>(s: seq<T>, p: nat, x: T)
    requires p <= |s|
    ensures multiset(InsertAt(s, p, x)) == multiset(s) + multiset{x}
  {
    assert s == s[..p] + s[p..];
  }

  lemma {:induction false} PickedInsert(es: seq<Entry>, o: seq<nat>, p: nat)
    requires es != [] && p <= |o|
    requires forall i :: 0 <= i < |o| ==> o[i] < |es| - 1
    ensures Picked(es, InsertAt(o, p, |es| - 1)) == InsertAt(Picked(es[..|es| - 1], o), p, es[|es| - 1])
  {
  }

  lemma {:induction false} PickedMultiset(es: seq<Entry>, vals: seq<int>)
    requires |es| == |vals|
    ensures multiset(Picked(es, SortOrder(vals))) == multiset(es)
  {
    if es == [] {
      assert Picked(es, SortOrder(vals)) == [];
    } else {
      var n := |vals| - 1;
      var o := SortOrder(vals[..n]);
      var p := UpperBound(Picked(vals[..n], o), vals[n]);
      PickedMultiset(es[..n], vals[..n]);
      assert Picked(es, SortOrder(vals)) == InsertAt(Picked(es[..n], o), p, es[n]) by {
        PickedInsert(es, o, p);
      }
      hide *;
      MultisetInsert(Picked(es[..n], o), p, es[n]);
      assert es == es[..n] + [es[n]];
    }
  }

  lemma {:induction false} SortedAscends(es: seq<Entry>)
    ensures forall i, j :: 0 <= i < j < |es| ==> Sorted(es)[i].val <= Sorted(es)[j].val
  {
    var vals := Values(es);
    var o := SortOrder(vals);
    SortOrderAscending(vals);
    forall i, j | 0 <= i < j < |es| ensures Sorted(es)[i].val <= Sorted(es)[j].val {
      assert Precedes(vals, o[i], o[j]);
    }
  }

  /** Eviction splits the list into its SELECT_COUNT smallest values and the rest, the rest ascending. */
  lemma {:induction false} EvictionKeepsLargest(es: seq<Entry>)
    requires |es| >= SELECT_COUNT
    ensures multiset(es) == multiset(Sorted(es)[..SELECT_COUNT]) + multiset(Survivors(es))
    ensures forall i, j :: 0 <= i < j < |Survivors(es)| ==> Survivors(es)[i].val <= Survivors(es)[j].val
    ensures forall e, f :: e in Sorted(es)[..SELECT_COUNT] && f in Survivors(es) ==> e.val <= f.val
  {
    hide SortOrder, Picked, Values;
    PickedMultiset(es, Values(es));
    SortedAscends(es);
    hide Sorted;
    var s := Sorted(es);
    assert s == s[..SELECT_COUNT] + Survivors(es);
    forall e, f | e in s[..SELECT_COUNT] && f in Survivors(es) ensures e.val <= f.val {
      var i :| 0 <= i < SELECT_COUNT && s[i] == e;
      var j :| SELECT_COUNT <= j < |s| && s[j] == f;
    }
  }

  // ---------- a day of reports ----------

  /** A report for this attribute; room as in Add. */
  datatype DayReport = DayReport(str: string, v: Uint32, room: bool)

  function DayEntries(h: seq<DayReport>): seq<Entry> {
    if h == [] then []
    else
      var r := h[|h| - 1];
      Add(DayEntries(h[..|h| - 1]), r.str, r.v, r.room)
  }

  /** The true total of one string. */
  function Total(h: seq<DayReport>, str: string): nat {
    if h == [] then 0
    else Total(h[..|h| - 1], str) + if h[|h| - 1].str == str then h[|h| - 1].v else 0
  }

  function Strings(h: seq<DayReport>): set<string> {
    set i | 0 <= i < |h| :: h[i].str
  }

  /** Every report is positive, every string fits, every true total fits an int. */
  ghost predicate Fits(h: seq<DayReport>) {
    forall i :: 0 <= i < |h| ==> h[i].v > 0 && |h[i].str| <= STR_MAX && Total(h, h[i].str) < TWO31
  }

  ghost predicate DistinctStrings(es: seq<Entry>) {
    forall i, j :: 0 <= i < j < |es| ==> es[i].str != es[j].str
  }

  ghost predicate BoundedBy(es: seq<Entry>, h: seq<DayReport>) {
    forall e :: e in es ==> 0 < e.val <= Total(h, e.str)
  }

  lemma {:induction false} FitsPrefix(h: seq<DayReport>)
    requires h != [] && Fits(h)
    ensures Fits(h[..|h| - 1])
  {
    var g := h[..|h| - 1];
    forall i | 0 <= i < |g| ensures g[i].v > 0 && |g[i].str| <= STR_MAX && Total(g, g[i].str) < TWO31 {
      assert g[i] == h[i];
    }
  }

  lemma {:induction false} SurvivorsAreEntries(es: seq<Entry>)
    requires |es| >= SELECT_COUNT && DistinctStrings(es)
    ensures DistinctStrings(Survivors(es))
    ensures forall e :: e in Survivors(es) ==> e in es
  {
    var o := SortOrder(Values(es));
    SortOrderPermutes(Values(es));
    var s := Survivors(es);
    forall i | 0 <= i < |s| ensures s[i] == es[o[i + SELECT_COUNT]] {}
    forall i, j | 0 <= i < j < |s| ensures s[i].str != s[j].str {
      assert o[i + SELECT_COUNT] != o[j + SELECT_COUNT];
    }
  }

  lemma {:induction false} TotalGrows(g: seq<DayReport>, r: DayReport, s: string)
    ensures Total(g + [r], s) == Total(g, s) + if r.str == s then r.v else 0
  {
    assert (g + [r])[..|g|] == g;
  }

  lemma {:induction false} MergeBounded(es: seq<Entry>, g: seq<DayReport>, r: DayReport, p: nat)
    requires DistinctStrings(es) && BoundedBy(es, g)
    requires Total(g + [r], r.str) < TWO31 && r.v > 0
    requires p < |es| && p == Find(es, r.str)
    ensures BoundedBy(Add(es, r.str, r.v, r.room), g + [r])
  {
    assert es[p] in es;
    forall e | e in Add(es, r.str, r.v, r.room) ensures 0 < e.val <= Total(g + [r], e.str) {
      TotalGrows(g, r, e.str);
      var i :| 0 <= i < |es| && Add(es, r.str, r.v, r.room)[i] == e;
      assert es[i] in es;
    }
  }

  lemma {:induction false} AppendBounded(es: seq<Entry>, g: seq<DayReport>, r: DayReport)
    requires BoundedBy(es, g) && 0 < r.v <= Total(g + [r], r.str) < TWO31 && |r.str| <= STR_MAX
    ensures BoundedBy(es, g + [r]) && BoundedBy(es + [Entry(Trunc(r.str), ToInt32(r.v))], g + [r])
  {
    forall e | e in es ensures 0 < e.val <= Total(g + [r], e.str) {
      TotalGrows(g, r, e.str);
    }
  }

  lemma {:induction false} AddBounded(es: seq<Entry>, g: seq<DayReport>, r: DayReport)
    requires DistinctStrings(es) && BoundedBy(es, g) && |es| <= MAX_CHAIN
    requires 0 < r.v && Total(g + [r], r.str) < TWO31 && |r.str| <= STR_MAX
    ensures DistinctStrings(Add(es, r.str, r.v, r.room)) && BoundedBy(Add(es, r.str, r.v, r.room), g + [r])
  {
    TotalGrows(g, r, r.str);
    var p := Find(es, r.str);
    if p < |es| {
      MergeBounded(es, g, r, p);
    } else {
      AppendBounded(es, g, r);
      if |es| >= MAX_CHAIN {
        SurvivorsAreEntries(es);
        AppendBounded(Survivors(es), g, r);
      }
    }
  }

  /** Counters never overstate: stored strings are distinct and each value is at most the string's true total. */
  lemma {:induction false} NeverOverstates(h: seq<DayReport>)
    requires Fits(h)
    ensures DistinctStrings(DayEntries(h)) && BoundedBy(DayEntries(h), h)
    ensures |DayEntries(h)| <= MAX_CHAIN
  {
    if h != [] {
      var n := |h| - 1;
      FitsPrefix(h);
      NeverOverstates(h[..n]);
      assert h == h[..n] + [h[n]];
      assert h[n].v > 0;
      AddBounded(DayEntries(h[..n]), h[..n], h[n]);
    }
  }

  lemma {:induction false} DistinctCount(es: seq<Entry>, names: set<string>)
    requires DistinctStrings(es)
    requires names == set i | 0 <= i < |es| :: es[i].str
    ensures |names| == |es|
  {
    if es != [] {
      var n := |es| - 1;
      var rest := set i | 0 <= i < n :: es[..n][i].str;
      DistinctCount(es[..n], rest);
      assert names == rest + {es[n].str};
    }
  }

  /** The list read as a map is the exact per-string sum. */
  ghost predicate ExactFor(es: seq<Entry>, h: seq<DayReport>) {
    && (forall e :: e in es ==> e.str in Strings(h) && e.val == Total(h, e.str))
    && (forall s :: s in Strings(h) ==> Find(es, s) < |es|)
  }

  lemma {:induction false} TotalOfAbsent(h: seq<DayReport>, str: string)
    requires str !in Strings(h)
    ensures Total(h, str) == 0
  {
    if h != [] {
      var n := |h| - 1;
      assert h[n].str in Strings(h);
      assert Strings(h[..n]) <= Strings(h) by {
        forall s | s in Strings(h[..n]) ensures s in Strings(h) {
          var i :| 0 <= i < n && h[..n][i].str == s;
          assert h[i].str == s;
        }
      }
      TotalOfAbsent(h[..n], str);
    }
  }

  /** With at most MAX_CHAIN distinct strings and a pool that never refuses, nothing is lost. */
  lemma {:induction false} ExactWhenFewStrings(h: seq<DayReport>)
    requires Fits(h)
    requires forall i :: 0 <= i < |h| ==> h[i].room
    requires |Strings(h)| <= MAX_CHAIN
    ensures ExactFor(DayEntries(h), h)
  {
    if h != [] {
      var n := |h| - 1;
      var r, g := h[n], h[..n];
      FitsPrefix(h);
      assert Strings(h) == Strings(g) + {r.str} by {
        forall s | s in Strings(h) ensures s in Strings(g) + {r.str} {
          var i :| 0 <= i <= n && h[i].str == s;
          if i < n { assert g[i].str == s; }
        }
        forall s | s in Strings(g) ensures s in Strings(h) {
          var i :| 0 <= i < n && g[i].str == s;
          assert h[i].str == s;
        }
        assert h[n].str in Strings(h);
      }
      CardinalityMonotone(Strings(g), Strings(h));
      ExactWhenFewStrings(g);
      NeverOverstates(g);
      var es := DayEntries(g);
      var p := Find(es, r.str);
      if p < |es| {
        MergeExact(es, g, h, p);
      } else {
        NewStringHasSpace(es, g, h);
        AppendExact(es, g, h);
      }
    }
  }

  lemma {:induction false} CardinalityMonotone<T>(a: set<T>, b: set<T>)
    requires a <= b
    ensures |a| <= |b|
  {
    assert b == a + (b - a);
  }

  lemma {:induction false} NewStringHasSpace(es: seq<Entry>, g: seq<DayReport>, h: seq<DayReport>)
    requires h != [] && g == h[..|h| - 1]
    requires ExactFor(es, g) && DistinctStrings(es)
    requires Find(es, h[|h| - 1].str) == |es|
    requires Strings(h) == Strings(g) + {h[|h| - 1].str} && |Strings(h)| <= MAX_CHAIN
    ensures |es| < MAX_CHAIN
  {
    var names := set i | 0 <= i < |es| :: es[i].str;
    DistinctCount(es, names);
    var s := h[|h| - 1].str;
    assert s !in names;
    assert names + {s} <= Strings(h);
    CardinalityMonotone(names + {s}, Strings(h));
  }

  lemma {:induction false} MergeExact(es: seq<Entry>, g: seq<DayReport>, h: seq<DayReport>, p: nat)
    requires h != [] && g == h[..|h| - 1] && Fits(h)
    requires ExactFor(es, g) && DistinctStrings(es)
    requires p < |es| && p == Find(es, h[|h| - 1].str)
    requires Strings(h) == Strings(g) + {h[|h| - 1].str}
    ensures ExactFor(Add(es, h[|h| - 1].str, h[|h| - 1].v, h[|h| - 1].room), h)
  {
    var r := h[|h| - 1];
    var es' := Add(es, r.str, r.v, r.room);
    assert es[p] in es;
    assert Total(h, r.str) == Total(g, r.str) + r.v;
    forall e | e in es' ensures e.str in Strings(h) && e.val == Total(h, e.str) {
      var i :| 0 <= i < |es'| && es'[i] == e;
      assert es[i] in es;
    }
    forall s | s in Strings(h) ensures Find(es', s) < |es'| {
      var i := Find(es, s);
      assert es'[i].str == s;
    }
  }

  lemma {:induction false} AppendExact(es: seq<Entry>, g: seq<DayReport>, h: seq<DayReport>)
    requires h != [] && g == h[..|h| - 1] && Fits(h)
    requires ExactFor(es, g) && |es| < MAX_CHAIN
    requires Find(es, h[|h| - 1].str) == |es| && h[|h| - 1].room
    requires Strings(h) == Strings(g) + {h[|h| - 1].str}
    ensures ExactFor(Add(es, h[|h| - 1].str, h[|h| - 1].v, true), h)
  {
    var r := h[|h| - 1];
    var es' := Add(es, r.str, r.v, true);
    assert es' == es + [Entry(r.str, r.v)];
    assert r.str !in Strings(g);
    TotalOfAbsent(g, r.str);
    forall e | e in es' ensures e.str in Strings(h) && e.val == Total(h, e.str) {
      if e in es { assert e.str != r.str; }
    }
    forall s | s in Strings(h) ensures Find(es', s) < |es'| {
      var i := Find(es, s);
      assert es'[i].str == s;
    }
  }

  /** Names longer than the buffer break distinctness: the same long string is stored again by its second report. */
  lemma {:induction false} LongStringStoredTwice(s: string, v: Uint32, w: Uint32)
    requires |s| > STR_MAX
    ensures DayEntries([DayReport(s, v, true), DayReport(s, w, true)])
         == [Entry(s[..STR_MAX], ToInt32(v)), Entry(s[..STR_MAX], ToInt32(w))]
  {
    var h := [DayReport(s, v, true), DayReport(s, w, true)];
    assert h[..1] == [h[0]] && h[..1][..0] == [];
    assert DayEntries(h[..1]) == [Entry(s[..STR_MAX], ToInt32(v))];
  }

  lemma {:induction false} AppendDistinct(es: seq<Entry>, e: Entry)
    requires DistinctStrings(es)
    ensures DistinctStrings(es + [e]) <==> Find(es, e.str) == |es|
  {
    var q := Find(es, e.str);
    if q < |es| {
      assert (es + [e])[q].str == (es + [e])[|es|].str;
    }
  }

  /**
   Exactly when one report keeps the stored strings distinct, on any chain: it is merged,
   or the string as stored is not among the strings it joins.
   */
  lemma {:induction false} DistinctExactly(es: seq<Entry>, str: string, v: Uint32, room: bool)
    requires DistinctStrings(es)
    ensures DistinctStrings(Add(es, str, v, room)) <==>
      || Find(es, str) < |es|
      || if |es| >= MAX_CHAIN then Find(Survivors(es), Trunc(str)) == |Survivors(es)|
         else room ==> Find(es, Trunc(str)) == |es|
  {
    hide Find, Survivors, Trunc;
    AppendDistinct(es, Entry(Trunc(str), ToInt32(v)));
    if |es| >= MAX_CHAIN {
      SurvivorsAreEntries(es);
      AppendDistinct(Survivors(es), Entry(Trunc(str), ToInt32(v)));
    }
  }
}
