/** One report, and any run of reports, on the string-counter pool. */
module StrPoolRuns {
  import opened Basics
  import opened StrPoolState
  import opened StrPoolProofs
  import opened StrPoolEviction
  import StrCounter

  /** The attribute table has no entry for the report and cannot take one. */
  predicate Rejected(p: Pool, r: Report) {
    r.key !in p.attrs && !r.slotFree
  }

  predicate Room(p: Pool, r: Report) {
    Prepared(p, r).nodeUse < CAPACITY
  }

  /** The pairs that today's chain holds before the report. */
  function Base(p: Pool, r: Report): seq<StrCounter.Entry> {
    if r.key in p.attrs && !Stale(p.attrs[r.key], r.now, r.mday) then Entries(p, r.key) else []
  }

  /**
   What a caller can check before a report: the new value stays positive as an int,
   and a chain that must evict does not hold node 0.
   */
  predicate Safe(p: Pool, r: Report) {
    Rejected(p, r) ||
    var q := Prepared(p, r);
    var c := Chain(q, r.key);
    var i := StrCounter.Find(Entries(q, r.key), r.str);
    if i < |c| then StrCounter.Merged(q.nodes[c[i]].val, r.v) > 0
    else
      && (|c| >= MAX_CHAIN ==> 0 !in c)
      && (|c| >= MAX_CHAIN || Room(p, r) ==> ToInt32(r.v) > 0)
  }

  lemma {:induction false} EntriesInContents(p: Pool, k: Key)
    requires k in p.attrs
    ensures k in Contents(p) && Contents(p)[k] == Entries(p, k)
  {
  }

  /** Before the search the chain is today's, whatever day the last report was on. */
  lemma {:induction false} PreparedKeeps(p: Pool, r: Report)
    requires WellFormed(p)
    ensures WellFormed(Prepared(p, r))
    ensures Contents(Prepared(p, r)) == Contents(p)[r.key := Base(p, r)]
  {
    hide WellFormed, Chain, Contents, EntriesOf;
    var k := r.key;
    if k in p.attrs {
      var q := CheckClear(p, k, r.now, r.mday);
      EntriesInContents(p, k);
      if Stale(p.attrs[k], r.now, r.mday) && p.attrs[k].count > 0 {
        ClearKeeps(p, k);
      } else if p.attrs[k].count == 0 {
        ChainFacts(p, k);
        assert Entries(p, k) == [];
      }
      assert WellFormed(q) && Contents(q) == Contents(p)[k := Base(p, r)] by { KeysOfChains(p); }
      TouchAttrKeeps(q, k, q.attrs[k].(dataType := r.dataType));
    } else {
      var a := Attr(r.dataType, 0, -1, 0, 0);
      NewAttrKeeps(p, k, a);
      assert Prepared(p, r) == p.(attrs := p.attrs[k := a]);
    }
  }

  /** A new string on a well-formed pool. */
  lemma {:induction false} AddStringKeeps(p: Pool, r: Report)
    requires WellFormed(p) && r.key in p.attrs
    requires |Chain(p, r.key)| >= MAX_CHAIN ==> 0 !in Chain(p, r.key)
    requires |Chain(p, r.key)| >= MAX_CHAIN || p.nodeUse < CAPACITY ==> ToInt32(r.v) > 0
    requires StrCounter.Find(Entries(p, r.key), r.str) == |Entries(p, r.key)|
    ensures AddString(p, r).Done?
    ensures var q := AddString(p, r).value;
      && WellFormed(q)
      && Contents(q) == Contents(p)[r.key := StrCounter.Add(Entries(p, r.key), r.str, r.v, p.nodeUse < CAPACITY)]
  {
    hide WellFormed, Chain, Chains, Contents, EntriesOf, Evict, ScanFree, Append, StrCounter.Survivors, StrCounter.Find;
    var k := r.key;
    ChainFacts(p, k);
    EntriesInContents(p, k);
    if p.attrs[k].count >= MAX_CHAIN {
      EvictKeeps(p, k);
      var q := Evict(p, k).value;
      NodeUseBound(p);
      EntriesInContents(q, k);
      AppendNew(q, r);
    } else {
      AppendNew(p, r);
    }
  }

  lemma {:induction false} NodeUseBound(p: Pool)
    requires WellFormed(p)
    ensures p.nodeUse <= CAPACITY
  {
    NodeUseCounts(p);
    LiveCount(p.nodes);
  }

  lemma {:induction false} AppendNew(p: Pool, r: Report)
    requires WellFormed(p) && r.key in p.attrs && |Chain(p, r.key)| < MAX_CHAIN
    requires p.nodeUse < CAPACITY ==> ToInt32(r.v) > 0
    ensures var q := Append(p, r.key, LastOf(Chain(p, r.key)), r.str, r.v, r.mday);
      var e := StrCounter.Entry(StrCounter.Trunc(r.str), ToInt32(r.v));
      var es := Entries(p, r.key);
      && WellFormed(q)
      && Contents(q) == Contents(p)[r.key := if p.nodeUse < CAPACITY then es + [e] else es]
  {
    hide WellFormed, Chain, Contents, EntriesOf, ScanFree;
    ScanFindsFree(p);
    EntriesInContents(p, r.key);
    if p.nodeUse < CAPACITY {
      AppendKeeps(p, r.key, r.str, r.v, r.mday);
    } else {
      assert Append(p, r.key, LastOf(Chain(p, r.key)), r.str, r.v, r.mday) == p;
    }
  }

  /** A report changes no other attribute's record. */
  lemma {:induction false} StepTable(p: Pool, r: Report)
    requires !Rejected(p, r) && Step(p, r).Done?
    ensures var q := Step(p, r).value;
      && q.attrs.Keys == p.attrs.Keys + {r.key}
      && (forall l :: l in p.attrs && l != r.key ==> q.attrs[l] == p.attrs[l])
      && q.attrs[r.key].lastTime == r.now && q.attrs[r.key].dataType == r.dataType
  {
    hide Chain, EntriesOf, ByValue, EvictWalk, Relinked, ScanFree, Freed, StrCounter.Find;
  }

  lemma {:induction false} StepContents(p: Pool, r: Report)
    requires WellFormed(p) && Safe(p, r) && !Rejected(p, r)
    ensures Step(p, r).Done?
    ensures var q := Step(p, r).value;
      && WellFormed(q)
      && Contents(q) == Contents(p)[r.key := StrCounter.Add(Base(p, r), r.str, r.v, Room(p, r))]
  {
    hide WellFormed, Chain, Chains, Contents, EntriesOf, StrCounter.Find, Prepared, AddString, Base,
         StrCounter.Survivors;
    var k, q := r.key, Prepared(p, r);
    PreparedKeeps(p, r);
    EntriesInContents(q, k);
    assert Entries(q, k) == Base(p, r);
    var c := Chain(q, k);
    var i := StrCounter.Find(Entries(q, k), r.str);
    if i < |c| {
      MergeKeeps(q, k, i, r.v, r.mday);
      Finish(Merge(q, k, c[i], r.v, r.mday), r);
    } else {
      AddStringKeeps(q, r);
      KeysOfChains(AddString(q, r).value);
      Finish(AddString(q, r).value, r);
    }
  }

  /** After a report a chain that holds anything carries the report's day. */
  lemma {:induction false} StepDay(p: Pool, r: Report)
    requires !Rejected(p, r) && Step(p, r).Done? && r.key in Step(p, r).value.attrs
    ensures var a := Step(p, r).value.attrs[r.key]; a.lastDay == r.mday || a.count == 0
  {
    hide Chain, EntriesOf, ByValue, EvictWalk, Relinked, Freed, ScanFree, StrCounter.Find;
    var a := Prepared(p, r).attrs[r.key];
    assert a.lastDay == r.mday || a.count == 0;
  }

  /** The step of the abstract counters that an accepted report makes. */
  ghost predicate Moves(p: Pool, r: Report, q: Pool) {
    && Contents(q) == Contents(p)[r.key := StrCounter.Add(Base(p, r), r.str, r.v, Room(p, r))]
    && q.attrs.Keys == p.attrs.Keys + {r.key}
    && (forall l :: l in p.attrs && l != r.key ==> q.attrs[l] == p.attrs[l])
    && q.attrs[r.key].lastTime == r.now
    && (q.attrs[r.key].lastDay == r.mday || Contents(q)[r.key] == [])
  }

  /** A safe report keeps the invariant and changes the contents as the abstract counter says. */
  lemma {:induction false} StepRefines(p: Pool, r: Report)
    requires WellFormed(p) && Safe(p, r) && !Rejected(p, r)
    ensures Step(p, r).Done? && WellFormed(Step(p, r).value) && Moves(p, r, Step(p, r).value)
  {
    StepContents(p, r);
    hide WellFormed, Safe, Rejected, Step, Contents, Base, Room, StrCounter.Add;
    StepTable(p, r);
    StepDay(p, r);
    EmptyContents(Step(p, r).value, r.key);
  }

  lemma {:induction false} EmptyContents(p: Pool, k: Key)
    requires k in p.attrs
    ensures k in Contents(p) && (p.attrs[k].count == 0 ==> Contents(p)[k] == [])
  {
  }

  /** The caller's update of the last report time. */
  lemma {:induction false} Finish(p: Pool, r: Report)
    requires WellFormed(p) && r.key in p.attrs
    ensures var q := p.(attrs := p.attrs[r.key := p.attrs[r.key].(lastTime := r.now)]);
      WellFormed(q) && Contents(q) == Contents(p)
  {
    TouchAttrKeeps(p, r.key, p.attrs[r.key].(lastTime := r.now));
  }

  // ---------- exactly when a report is safe ----------

  lemma {:induction false} ShortNotWellFormed(p: Pool, k: Key, c: seq<Index>)
    requires k in p.attrs && Linked(p.nodes, c, p.attrs[k].head) && |c| < p.attrs[k].count
    ensures !WellFormed(p)
  {
    if WellFormed(p) {
      WalkLinked(p.nodes, c, p.attrs[k].head, p.attrs[k].count);
      ChainFacts(p, k);
    }
  }

  lemma {:induction false} DeadNotWellFormed(p: Pool, k: Key, c: seq<Index>, i: nat)
    requires k in p.attrs && Linked(p.nodes, c, p.attrs[k].head) && |c| == p.attrs[k].count
    requires i < |c| && p.nodes[c[i]].val <= 0
    ensures !WellFormed(p)
  {
    if WellFormed(p) {
      WalkLinked(p.nodes, c, p.attrs[k].head, p.attrs[k].count);
      ChainFacts(p, k);
    }
  }

  lemma {:induction false} BadMerge(p: Pool, k: Key, i: nat, v: Uint32, mday: int)
    requires WellFormed(p) && k in p.attrs && i < |Chain(p, k)|
    requires StrCounter.Merged(p.nodes[Chain(p, k)[i]].val, v) <= 0
    ensures var q := Merge(p, k, Chain(p, k)[i], v, mday);
      Linked(q.nodes, Chain(p, k), q.attrs[k].head) && |Chain(p, k)| == q.attrs[k].count
      && q.nodes[Chain(p, k)[i]].val <= 0
  {
    hide WellFormed, Chain;
    ChainFacts(p, k);
    var c := Chain(p, k);
    var q := Merge(p, k, c[i], v, mday);
    forall j | 0 <= j < |c| ensures q.nodes[c[j]].next == NextOf(c, j) {
      assert p.nodes[c[j]].next == NextOf(c, j);
    }
  }

  lemma {:induction false} BadAppend(p: Pool, r: Report)
    requires WellFormed(p) && r.key in p.attrs && ToInt32(r.v) <= 0 && p.nodeUse < CAPACITY
    ensures var q := Append(p, r.key, LastOf(Chain(p, r.key)), r.str, r.v, r.mday);
      exists c: seq<Index> :: Linked(q.nodes, c, q.attrs[r.key].head) && |c| == q.attrs[r.key].count
        && c != [] && q.nodes[c[|c| - 1]].val <= 0
  {
    hide WellFormed, Chain, Chains, EntriesOf;
    ScanFindsFree(p);
    ChainFacts(p, r.key);
    var c := Chain(p, r.key);
    var idx := Circular(p.writeIdx, ScanFree(p.nodes, p.writeIdx, |p.nodes|));
    var q := Append(p, r.key, LastOf(c), r.str, r.v, r.mday);
    assert forall i :: 0 <= i < |c| ==> c[i] != idx;
    AppendLinked(p.nodes, q.nodes, c, p.attrs[r.key].head, idx);
    assert Linked(q.nodes, c + [idx], q.attrs[r.key].head);
  }

  /** A chain that is shorter than its count stays so when a node is appended. */
  lemma {:induction false} ShortAppend(p: Pool, r: Report, c: seq<Index>)
    requires r.key in p.attrs && Linked(p.nodes, c, p.attrs[r.key].head)
    requires NoDup(c) && c != [] && |c| < p.attrs[r.key].count
    requires forall i :: 0 <= i < |c| ==> p.nodes[c[i]].val > 0
    ensures Chain(p, r.key) == c
    ensures var q := Append(p, r.key, LastOf(c), r.str, r.v, r.mday);
      exists d: seq<Index> :: Linked(q.nodes, d, q.attrs[r.key].head) && |d| < q.attrs[r.key].count
  {
    WalkLinked(p.nodes, c, p.attrs[r.key].head, p.attrs[r.key].count);
    hide Walk, Chain;
    var j := ScanFree(p.nodes, p.writeIdx, |p.nodes|);
    var q := Append(p, r.key, LastOf(c), r.str, r.v, r.mday);
    if j < |p.nodes| {
      var idx := Circular(p.writeIdx, j);
      assert forall i :: 0 <= i < |c| ==> c[i] != idx;
      AppendLinked(p.nodes, q.nodes, c, p.attrs[r.key].head, idx);
      assert Linked(q.nodes, c + [idx], q.attrs[r.key].head);
    } else {
      assert Linked(q.nodes, c, q.attrs[r.key].head);
    }
  }

  lemma {:induction false} RelinkedPart(nodes: Nodes, d: seq<Index>)
    requires NoDup(d) && |d| > SELECT
    requires forall i :: i in d ==> nodes[i].val > 0
    ensures var r := ByValue(nodes, d);
      && Linked(Relinked(nodes, r), r[SELECT..], r[SELECT])
      && NoDup(r[SELECT..])
      && forall i :: 0 <= i < |r| - SELECT ==> Relinked(nodes, r)[r[SELECT..][i]].val > 0
  {
    hide ByValue, Relinked, Linked;
    var r := ByValue(nodes, d);
    ByValuePermutes(nodes, d);
    RelinkedLinked(nodes, r);
    RelinkedTakes(nodes, d, r);
    NoDupDrop(r, SELECT);
  }

  lemma {:induction false} NoDupDrop<T>(s: seq<T>, n: nat)
    requires NoDup(s) && n <= |s|
    ensures NoDup(s[n..])
  {
  }

  lemma {:induction false} BadEvict(p: Pool, k: Key)
    requires WellFormed(p) && k in p.attrs && p.attrs[k].count >= MAX_CHAIN && 0 in Chain(p, k)
    requires Evict(p, k).Done?
    ensures var q := Evict(p, k).value;
      exists c: seq<Index> :: Linked(q.nodes, c, q.attrs[k].head) && NoDup(c) && c != [] && |c| < q.attrs[k].count
        && forall i :: 0 <= i < |c| ==> q.nodes[c[i]].val > 0
  {
    hide WellFormed, Chains, Chain, EntriesOf, ByValue, EvictWalk, Relinked, Linked;
    ChainFacts(p, k);
    var c := Chain(p, k);
    EvictWalkLinked(p.nodes, c, p.attrs[k].head, p.attrs[k].count);
    var d := UntilZero(c);
    assert forall i :: 0 <= i < |d| ==> d[i] == c[i];
    hide UntilZero;
    RelinkedPart(p.nodes, d);
  }

  /** Safe is exact: without it the report ends in undefined behaviour or leaves a broken pool. */
  lemma {:induction false} SafeExactly(p: Pool, r: Report)
    requires WellFormed(p)
    ensures Step(p, r).Done? && WellFormed(Step(p, r).value) <==> Safe(p, r)
  {
    if Safe(p, r) {
      if !Rejected(p, r) { StepContents(p, r); }
    } else {
      UnsafeBreaks(p, r);
    }
  }

  lemma {:induction false} UnsafeBreaks(p: Pool, r: Report)
    requires WellFormed(p) && !Safe(p, r)
    ensures Step(p, r).Undefined? || !WellFormed(Step(p, r).value)
  {
    hide WellFormed, Chain, Contents, EntriesOf, Prepared, Evict, Append, Linked, StrCounter.Find;
    PreparedKeeps(p, r);
    var k, q := r.key, Prepared(p, r);
    ChainFacts(q, k);
    var c := Chain(q, k);
    var i := StrCounter.Find(Entries(q, k), r.str);
    if Step(p, r).Done? {
      var s := Step(p, r).value;
      if i < |c| {
        BadMerge(q, k, i, r.v, r.mday);
        DeadNotWellFormed(s, k, c, i);
      } else if |c| >= MAX_CHAIN && 0 in c {
        BadEvict(q, k);
        var e := Evict(q, k).value;
        var d :| Linked(e.nodes, d, e.attrs[k].head) && NoDup(d) && d != [] && |d| < e.attrs[k].count
          && forall i :: 0 <= i < |d| ==> e.nodes[d[i]].val > 0;
        ShortAppend(e, r, d);
        var t :| Linked(s.nodes, t, s.attrs[k].head) && |t| < s.attrs[k].count;
        ShortNotWellFormed(s, k, t);
      } else {
        var e := q;
        if |c| >= MAX_CHAIN {
          NodeUseBound(q);
          EvictKeeps(q, k);
          e := Evict(q, k).value;
        }
        BadAppend(e, r);
        var t :| Linked(s.nodes, t, s.attrs[k].head) && |t| == s.attrs[k].count
          && t != [] && s.nodes[t[|t| - 1]].val <= 0;
        DeadNotWellFormed(s, k, t, |t| - 1);
      }
    }
  }
}
