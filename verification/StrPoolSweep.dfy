/** The writer's sweep: attributes whose day is over are cleared and leave the table. */
module StrPoolSweep {
  import opened MapSum
  import opened StrPoolState
  import opened StrPoolProofs

  /** One attribute of WriteStrAttrToDb's loop. */
  function Swept(p: Pool, k: Key, now: int, mday: int): Pool
    requires k in p.attrs
  {
    if Stale(p.attrs[k], now, mday)
    then var q := CheckClear(p, k, now, mday); q.(attrs := q.attrs - {k})
    else p
  }

  lemma {:induction false} CountsWithout(attrs: map<Key, Attr>, k: Key)
    requires k in attrs && attrs[k].count == 0
    ensures SumCounts(attrs - {k}) == SumCounts(attrs)
  {
    SumWithout(Counts(attrs), k);
    assert Counts(attrs - {k}) == Counts(attrs) - {k};
  }

  lemma {:induction false} GoodWithout(p: Pool, k: Key)
    requires WellFormedWith(p, Chains(p)) && k in p.attrs
    ensures var q := p.(attrs := p.attrs - {k});
      AllGood(q, Chains(p) - {k}) && AllApart(Chains(p) - {k}) && p.nodeUse == SumCounts(p.attrs)
  {
    hide GoodChain, Apart, Chain, LiveCovered, SumCounts;
  }

  lemma {:induction false} ContentsWithout(p: Pool, k: Key)
    requires k in p.attrs
    ensures Contents(p.(attrs := p.attrs - {k})) == Contents(p) - {k}
  {
    hide EntriesOf, Walk;
  }

  lemma {:induction false} DropEmpty(p: Pool, k: Key)
    requires WellFormed(p) && k in p.attrs && p.attrs[k].count == 0
    ensures var q := p.(attrs := p.attrs - {k});
      WellFormed(q) && Contents(q) == Contents(p) - {k}
  {
    hide AllGood, AllApart, LiveCovered, SumCounts, Contents, WellFormed;
    var q := p.(attrs := p.attrs - {k});
    var ch := Chains(p) - {k};
    Unfolded(p);
    GoodWithout(p, k);
    CountsWithout(p.attrs, k);
    ContentsWithout(p, k);
    StillThere(p, k);
    assert ch.Keys == q.attrs.Keys;
    ChainsDetermined(q, ch);
  }

  lemma {:induction false} NoChain(p: Pool, k: Key)
    requires k in p.attrs && p.attrs[k].count == 0
    ensures Chains(p)[k] == []
  {
  }

  lemma {:induction false} StillThere(p: Pool, k: Key)
    requires WellFormed(p) && k in p.attrs && p.attrs[k].count == 0
    ensures LiveCovered(p.nodes, Chains(p) - {k})
  {
    hide Chain, GoodChain;
    NoChain(p, k);
    var ch := Chains(p) - {k};
    forall i: Index | p.nodes[i].val > 0
      ensures Covered(ch, i)
    {
      assert Covered(Chains(p), i);
      var l :| l in Chains(p) && i in Chains(p)[l];
      assert l in ch && i in ch[l];
    }
  }

  /** Sweeping keeps the pool well formed and every other attribute as it is. */
  lemma {:induction false} SweepKeeps(p: Pool, k: Key, now: int, mday: int)
    requires WellFormed(p) && k in p.attrs
    ensures WellFormed(Swept(p, k, now, mday))
    ensures Contents(Swept(p, k, now, mday)) == if Stale(p.attrs[k], now, mday) then Contents(p) - {k} else Contents(p)
  {
    hide WellFormed, Contents, Freed, Chain;
    if Stale(p.attrs[k], now, mday) {
      if p.attrs[k].count > 0 {
        ClearKeeps(p, k);
        assert Contents(p)[k := []] - {k} == Contents(p) - {k};
      }
      DropEmpty(CheckClear(p, k, now, mday), k);
    }
  }

  /** The table after a sweep: a swept attribute is gone, the others have their records. */
  lemma {:induction false} SweepTable(p: Pool, k: Key, now: int, mday: int)
    requires k in p.attrs
    ensures var q := Swept(p, k, now, mday);
      && q.attrs.Keys == (if Stale(p.attrs[k], now, mday) then p.attrs.Keys - {k} else p.attrs.Keys)
      && forall l :: l in q.attrs ==> q.attrs[l] == p.attrs[l]
  {
    hide Freed, Chain;
  }
}
