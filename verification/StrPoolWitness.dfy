/** The failing family is reachable: the first attribute to report owns node 0. */
module StrPoolWitness {
  import opened Basics
  import opened StrPoolState
  import opened StrPoolProofs
  import opened StrPoolRuns
  import opened StrPoolHistory
  import StrCounter

  const FIRST := Key(1, 1)

  function Name(i: nat): (s: string)
    ensures |s| == i + 1
  {
    seq(i + 1, _ => 'a')
  }

  function Nth(i: nat): Report {
    Report(FIRST, 6, Name(i), 1, 0, 1, true)
  }

  /** n reports of n different strings by one attribute, all on one day. */
  function Names(n: nat): (es: seq<Event>)
    ensures |es| == n
  {
    if n == 0 then [] else Names(n - 1) + [Take(Nth(n - 1))]
  }

  ghost predicate Filled(p: Pool, n: nat) {
    && WellFormed(p)
    && p.attrs.Keys == {FIRST}
    && p.attrs[FIRST].dataType == 6 && p.attrs[FIRST].lastDay == 1 && p.attrs[FIRST].lastTime == 0
    && p.nodeUse == p.attrs[FIRST].count == n == |Chain(p, FIRST)|
    && 0 in Chain(p, FIRST)
    && forall e :: e in Entries(p, FIRST) ==> |e.str| <= n
  }

  lemma {:induction false} ScanAtOnce(nodes: Nodes)
    requires nodes[0].val <= 0
    ensures ScanFree(nodes, 0, |nodes|) == 0
  {
    assert nodes[Circular(0, 0)] == nodes[0];
  }

  /** The state after the appended report, given the state a that the append leaves. */
  lemma {:induction false} FilledAfter(a: Pool, n: nat)
    requires WellFormed(a) && a.attrs.Keys == {FIRST}
    requires a.attrs[FIRST].dataType == 6 && a.attrs[FIRST].lastDay == 1
    requires a.nodeUse == a.attrs[FIRST].count == n == |Chain(a, FIRST)|
    requires 0 in Chain(a, FIRST)
    requires forall e :: e in Contents(a)[FIRST] ==> |e.str| <= n
    ensures Filled(a.(attrs := a.attrs[FIRST := a.attrs[FIRST].(lastTime := 0)]), n)
  {
    hide WellFormed, Chain, EntriesOf, Contents;
    EntriesInContents(a, FIRST);
    TouchAttrKeeps(a, FIRST, a.attrs[FIRST].(lastTime := 0));
    EntriesInContents(a.(attrs := a.attrs[FIRST := a.attrs[FIRST].(lastTime := 0)]), FIRST);
  }

  lemma {:induction false} SafeToAppend(p: Pool, r: Report)
    requires !Rejected(p, r) && r.v == 1
    requires var q := Prepared(p, r);
      |Chain(q, r.key)| < MAX_CHAIN && StrCounter.Find(Entries(q, r.key), r.str) == |Chain(q, r.key)|
    ensures Safe(p, r)
  {
    hide Prepared, Chain, EntriesOf, StrCounter.Find;
  }

  lemma {:induction false} FirstTakesNodeZero()
    ensures Safe(Empty(), Nth(0)) && Step(Empty(), Nth(0)).Done? && Filled(Step(Empty(), Nth(0)).value, 1)
  {
    EmptyWellFormed();
    var p, r := Empty(), Nth(0);
    var q := p.(attrs := p.attrs[FIRST := Attr(6, 0, -1, 0, 0)]);
    assert q.nodes[0].val == 0 && q.nodeUse == 0 && q.writeIdx == 0;
    assert q.attrs.Keys == {FIRST};
    assert Prepared(p, r) == q by {
      assert q.attrs == q.attrs[FIRST := q.attrs[FIRST].(dataType := 6)];
    }
    NewAttrKeeps(p, FIRST, Attr(6, 0, -1, 0, 0));
    assert Chain(q, FIRST) == [] && Entries(q, FIRST) == [];
    SafeToAppend(p, r);
    StepOfNew(p, r);
    hide Empty, WellFormed, Chain, EntriesOf, Contents, Prepared, Step, Safe, Filled, ScanFree;
    ScanAtOnce(q.nodes);
    assert Circular(0, 0) == 0;
    AppendKeeps(q, FIRST, r.str, 1, 1);
    FirstAppend(q, r.str);
    hide Append;
    var a := Append(q, FIRST, -1, r.str, 1, 1);
    assert Chain(a, FIRST) == [0];
    LongerNames(Entries(q, FIRST), StrCounter.Entry(StrCounter.Trunc(r.str), ToInt32(1)), 0);
    hide Entries, StrCounter.Trunc, Nth, Circular, LastOf, Chains;
    FilledAfter(a, 1);
  }

  lemma {:induction false} FirstAppend(q: Pool, str: string)
    requires q.attrs.Keys == {FIRST} && q.attrs[FIRST] == Attr(6, 0, -1, 0, 0)
    requires ScanFree(q.nodes, q.writeIdx, |q.nodes|) < |q.nodes|
    ensures var a := Append(q, FIRST, -1, str, 1, 1);
      a.nodeUse == q.nodeUse + 1 && a.attrs.Keys == {FIRST}
      && a.attrs[FIRST].count == 1 && a.attrs[FIRST].lastDay == 1
      && a.attrs[FIRST].lastTime == 0 && a.attrs[FIRST].dataType == 6
  {
    hide ScanFree;
  }

  /** A string that is not on a chain with space is appended. */
  lemma {:induction false} StepOfNew(p: Pool, r: Report)
    requires !Rejected(p, r)
    requires var q := Prepared(p, r);
      q.attrs[r.key].count < MAX_CHAIN && StrCounter.Find(Entries(q, r.key), r.str) == |Chain(q, r.key)|
    ensures var q := Prepared(p, r);
      var a := Append(q, r.key, LastOf(Chain(q, r.key)), r.str, r.v, r.mday);
      r.key in a.attrs && Step(p, r) == Done(a.(attrs := a.attrs[r.key := a.attrs[r.key].(lastTime := r.now)]))
  {
    hide Prepared, Chain, EntriesOf, ScanFree, StrCounter.Find;
  }

  lemma {:induction false} StaysPrepared(p: Pool, n: nat)
    requires 0 < n && Filled(p, n)
    ensures Prepared(p, Nth(n)) == p
    ensures StrCounter.Find(Entries(p, FIRST), Nth(n).str) == n
  {
    hide WellFormed, Chain, EntriesOf;
    var a := p.attrs[FIRST];
    assert p.attrs == p.attrs[FIRST := a.(dataType := 6)];
    var es := Entries(p, FIRST);
    forall i | 0 <= i < |es| ensures es[i].str != Nth(n).str {
      assert es[i] in es;
    }
  }

  lemma {:induction false} NextKeepsNodeZero(p: Pool, n: nat)
    requires 0 < n < MAX_CHAIN && Filled(p, n)
    ensures Safe(p, Nth(n)) && Step(p, Nth(n)).Done? && Filled(Step(p, Nth(n)).value, n + 1)
  {
    StaysPrepared(p, n);
    var r := Nth(n);
    assert |r.str| == n + 1 && r.key == FIRST && r.v == 1 && r.mday == 1 && r.now == 0 && r.slotFree;
    hide Nth, WellFormed, Chain, EntriesOf, Append, ScanFree, Prepared, StrCounter.Find, Contents, Step, Safe;
    SafeToAppend(p, r);
    StepOfNew(p, r);
    ScanFindsFree(p);
    AppendKeeps(p, FIRST, r.str, 1, 1);
    AppendCounts(p, r.str);
    var a := Append(p, FIRST, LastOf(Chain(p, FIRST)), r.str, 1, 1);
    LongerNames(Entries(p, FIRST), StrCounter.Entry(StrCounter.Trunc(r.str), ToInt32(1)), n);
    hide Filled, Entries, StrCounter.Trunc;
    FilledAfter(a, n + 1);
  }

  lemma {:induction false} LongerNames(es: seq<StrCounter.Entry>, e: StrCounter.Entry, n: nat)
    requires forall f :: f in es ==> |f.str| <= n
    requires |e.str| <= n + 1
    ensures forall f :: f in es + [e] ==> |f.str| <= n + 1
  {
  }

  lemma {:induction false} AppendCounts(p: Pool, str: string)
    requires p.attrs.Keys == {FIRST} && p.attrs[FIRST].count > 0 && |Chain(p, FIRST)| > 0
    requires ScanFree(p.nodes, p.writeIdx, |p.nodes|) < |p.nodes|
    ensures var q := Append(p, FIRST, LastOf(Chain(p, FIRST)), str, 1, 1);
      q.nodeUse == p.nodeUse + 1 && q.attrs.Keys == {FIRST}
      && q.attrs[FIRST] == p.attrs[FIRST].(count := p.attrs[FIRST].count + 1, lastDay := 1)
  {
  }

  lemma {:induction false} NamesSnoc(n: nat)
    ensures Names(n + 1) == Names(n) + [Take(Nth(n))]
    ensures DropLast(Names(n + 1)) == Names(n) && Last(Names(n + 1)) == Take(Nth(n))
  {
  }

  /** MAX_CHAIN different strings fill the first attribute's chain safely. */
  lemma {:induction false} FillReaches(n: nat)
    requires n < MAX_CHAIN
    ensures RunSafe(Names(n + 1)) && Run(Names(n + 1)).Done? && Filled(Run(Names(n + 1)).value, n + 1)
  {
    NamesSnoc(n);
    hide Filled, Step, Safe, Nth, Empty;
    if n == 0 {
      assert Names(0) == [];
      hide Names;
      FirstTakesNodeZero();
    } else {
      hide Names;
      FillReaches(n - 1);
      NextKeepsNodeZero(Run(Names(n)).value, n);
    }
  }

  /** After the safe run es the report r, positive and short, breaks the pool. */
  ghost predicate Breaks(es: seq<Event>, r: Report) {
    && RunSafe(es) && Run(es).Done? && WellFormed(Run(es).value)
    && 0 < r.v < TWO31 && |r.str| <= StrCounter.STR_MAX
    && (Step(Run(es).value, r).Undefined? || !WellFormed(Step(Run(es).value, r).value))
  }

  /**
   A run of safe reports after which one more string is undefined behaviour or leaves a
   pool that is not well formed.
   */
  lemma {:induction false} NodeZeroBreaks()
    ensures exists es: seq<Event>, r: Report :: Breaks(es, r)
  {
    hide Names, WellFormed, Chain, EntriesOf, Step, Run, RunSafe, Prepared, StrCounter.Find;
    FillReaches(MAX_CHAIN - 1);
    var es := Names(MAX_CHAIN);
    var p, r := Run(es).value, Nth(MAX_CHAIN);
    StaysPrepared(p, MAX_CHAIN);
    assert !Safe(p, r);
    SafeExactly(p, r);
    assert Breaks(es, r);
  }
}
