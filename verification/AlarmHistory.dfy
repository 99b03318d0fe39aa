/** What a record says about the run: which alarms it counts, and what the operators did to it. */
module AlarmHistory {
  import opened AlarmInfo
  import opened AlarmMerge
  import opened Basics

  // ---------- the alarms of a record ----------

  /** The alarm belongs to record i: its subject's open one, or a new one if there is none. */
  predicate GoesTo(t: seq<Record>, a: Alarm, now: nat, i: nat) {
    if i < |t| then t[i].subject == SubjectOf(a) && Open(t[i], now)
    else i == |t| && forall k :: 0 <= k < |t| ==> !(t[k].subject == SubjectOf(a) && Open(t[k], now))
  }

  predicate Hits(g: seq<Event>, e: Event, i: nat) {
    e.Raise? && GoesTo(Table(g), e.alarm, e.at, i)
  }

  /** The events that raised the alarms of record i. */
  function AlarmsOf(es: seq<Event>, i: nat): (hs: seq<nat>)
    ensures forall k :: 0 <= k < |hs| ==> hs[k] < |es| && es[hs[k]].Raise?
  {
    if es == [] then []
    else
      var g, e := es[..|es| - 1], es[|es| - 1];
      var hs := AlarmsOf(g, i);
      assert forall k :: 0 <= k < |hs| ==> es[hs[k]] == g[hs[k]];
      if Hits(g, e, i) then hs + [|g|] else hs
  }

  /** The record's last alarm is masked. */
  predicate LastMasked(es: seq<Event>, i: nat) {
    var hs := AlarmsOf(es, i);
    hs != [] && es[hs[|hs| - 1]].alarm.masked
  }

  /** The first of the record's alarms since which none was masked. */
  function HeardSince(es: seq<Event>, i: nat): nat {
    if es == [] then 0
    else
      var g, e := es[..|es| - 1], es[|es| - 1];
      if Hits(g, e, i) && !e.alarm.masked && (AlarmsOf(g, i) == [] || LastMasked(g, i)) then |g| else HeardSince(g, i)
  }

  // ---------- the operators ----------

  /** The first event behind r in which an operator took on the record. */
  function BegunAfter(es: seq<Event>, i: nat, r: nat): (b: Option<nat>)
    ensures b.Some? ==> r < b.value < |es| && es[b.value].Begin? && i in es[b.value].wids
  {
    if es == [] then None
    else
      var n := |es| - 1;
      var b := BegunAfter(es[..n], i, r);
      if b.Some? then b else if r < n && es[n].Begin? && i in es[n].wids then Some(n) else None
  }

  ghost predicate FinishedAfter(es: seq<Event>, i: nat, b: nat) {
    exists f :: b < f < |es| && es[f].Finish? && i in es[f].wids
  }

  /** Masked by the last alarm, or what the operators have done since alarms are heard. */
  ghost predicate StatusIs(r: Record, es: seq<Event>, i: nat) {
    if LastMasked(es, i) then r.status == Masked
    else
      match BegunAfter(es, i, HeardSince(es, i))
      case None => r.status == Untouched
      case Some(b) => r.startDeal == es[b].at && r.status == if FinishedAfter(es, i, b) then Finished else Dealing
  }

  /** The record counts exactly its alarms: the first and last give its times, the last its value. */
  ghost predicate CountsIs(r: Record, es: seq<Event>, i: nat) {
    var hs := AlarmsOf(es, i);
    hs != [] &&
    var first, last := es[hs[0]], es[hs[|hs| - 1]];
    && r.subject == SubjectOf(first.alarm) && r.times == |hs|
    && r.warnTime == first.at && r.lastTime == last.at && r.val == last.alarm.value
  }

  // ---------- proof ----------

  lemma {:induction false} NoAlarmsYet(es: seq<Event>, i: nat)
    requires ValidRun(es) && i >= |Table(es)|
    ensures AlarmsOf(es, i) == []
  {
    hide Answered;
    if es != [] {
      var g, e := es[..|es| - 1], es[|es| - 1];
      NoAlarmsYet(g, i);
      if Hits(g, e, i) { HitIsTarget(es, i); }
    }
  }

  /** An alarm goes to the record it is merged into. */
  lemma {:induction false} HitIsTarget(es: seq<Event>, i: nat)
    requires ValidRun(es) && es != [] && es[|es| - 1].Raise?
    ensures var g, e := es[..|es| - 1], es[|es| - 1];
      Hits(g, e, i) <==> i == NotifiedRecord(Table(g), e.pick, e.at)
  {
    hide Table, Answered, Staggered, Open;
    var g, e := es[..|es| - 1], es[|es| - 1];
    var t, now := Table(g), if g == [] then 0 else g[|g| - 1].at;
    if g != [] { AlwaysStaggered(g); } else { EmptyStaggered(); }
    forall k | 0 <= k < |t|
      ensures t[k].subject == SubjectOf(e.alarm) && Open(t[k], e.at) <==> Merges(t, e.pick, e.at) && k == e.pick
    {
      PickIsOpen(t, e, now, k);
    }
  }

  lemma {:induction false} AlarmsStep(es: seq<Event>, i: nat)
    requires es != []
    ensures var g, e := es[..|es| - 1], es[|es| - 1];
      && AlarmsOf(es, i) == (if Hits(g, e, i) then AlarmsOf(g, i) + [|g|] else AlarmsOf(g, i))
      && LastMasked(es, i) == (if Hits(g, e, i) then e.alarm.masked else LastMasked(g, i))
  {
    hide Hits;
    var g, e := es[..|es| - 1], es[|es| - 1];
    assert forall k :: 0 <= k < |AlarmsOf(g, i)| ==> es[AlarmsOf(g, i)[k]] == g[AlarmsOf(g, i)[k]];
  }

  /** The fields that count alarms. */
  predicate SameCounts(r: Record, q: Record) {
    && r.subject == q.subject && r.times == q.times && r.val == q.val
    && r.warnTime == q.warnTime && r.lastTime == q.lastTime
  }

  /** What one event does to the counts of a record. */
  lemma {:induction false} RecordStep(es: seq<Event>, i: nat)
    requires ValidRun(es) && es != [] && i < |Table(es)|
    ensures var g, e := es[..|es| - 1], es[|es| - 1];
      var t, r := Table(g), Table(es)[i];
      && (!Hits(g, e, i) ==> i < |t| && SameCounts(r, t[i]))
      && (Hits(g, e, i) && i < |t| ==>
            r.subject == t[i].subject && r.times == t[i].times + 1 && r.warnTime == t[i].warnTime
            && r.lastTime == e.at && r.val == e.alarm.value)
      && (i >= |t| ==>
            && Hits(g, e, i)
            && SameCounts(r, Record(SubjectOf(e.alarm), 1, e.at, e.at, r.status, 0, e.alarm.value)))
  {
    hide Hits, Answered, Open, ValidRun;
    var g, e := es[..|es| - 1], es[|es| - 1];
    TableStep(es);
    ValidPrior(es);
    hide Table;
    if e.Raise? { HitIsTarget(es, i); } else { OnlyRaises(g, e, i); }
  }

  lemma {:induction false} CountsStep(es: seq<Event>, i: nat)
    requires ValidRun(es) && es != [] && i < |Table(es)|
    requires var g := es[..|es| - 1]; i < |Table(g)| ==> CountsIs(Table(g)[i], g, i)
    ensures CountsIs(Table(es)[i], es, i)
  {
    hide Hits, Table, ValidRun, AlarmsOf;
    var g := es[..|es| - 1];
    AlarmsStep(es, i);
    RecordStep(es, i);
    ValidPrior(es);
    AlarmsKept(es, i);
    if i >= |Table(g)| { NoAlarmsYet(g, i); }
  }

  lemma {:induction false} OnlyRaises(g: seq<Event>, e: Event, i: nat)
    requires !e.Raise?
    ensures !Hits(g, e, i)
  {
  }

  lemma {:induction false} ValidPrior(es: seq<Event>)
    requires ValidRun(es) && es != []
    ensures ValidRun(es[..|es| - 1])
  {
  }

  lemma {:induction false} AlarmsKept(es: seq<Event>, i: nat)
    requires es != []
    ensures var g, hs := es[..|es| - 1], AlarmsOf(es[..|es| - 1], i);
      forall k :: 0 <= k < |hs| ==> es[hs[k]] == g[hs[k]]
  {
  }

  lemma {:induction false} FinishedStep(es: seq<Event>, i: nat, b: nat)
    requires es != []
    ensures var n := |es| - 1;
      FinishedAfter(es, i, b) <==>
        FinishedAfter(es[..n], i, b) || (b < n && es[n].Finish? && i in es[n].wids)
  {
    var n := |es| - 1;
    if FinishedAfter(es[..n], i, b) {
      var f :| b < f < n && es[..n][f].Finish? && i in es[..n][f].wids;
      assert es[f] == es[..n][f];
    }
    if FinishedAfter(es, i, b) {
      var f :| b < f < |es| && es[f].Finish? && i in es[f].wids;
      if f < n { assert es[..n][f] == es[f]; }
    }
  }

  lemma {:induction false} HeardBefore(es: seq<Event>, i: nat)
    ensures es != [] ==> HeardSince(es, i) < |es|
  {
    hide Hits, LastMasked;
    if es != [] { HeardBefore(es[..|es| - 1], i); }
  }

  lemma {:induction false} NotBegunYet(es: seq<Event>, i: nat, r: nat)
    requires |es| <= r + 1
    ensures BegunAfter(es, i, r) == None
  {
  }

  lemma {:induction false} StatusStep(es: seq<Event>, i: nat)
    requires ValidRun(es) && es != [] && i < |Table(es)|
    requires var g := es[..|es| - 1]; i < |Table(g)| ==> AlarmsOf(g, i) != [] && StatusIs(Table(g)[i], g, i)
    ensures StatusIs(Table(es)[i], es, i)
  {
    hide Hits, Answered, ValidRun, AlarmsOf, LastMasked, FinishedAfter;
    var n := |es| - 1;
    var g, e := es[..n], es[n];
    AlarmsStep(es, i);
    TableStep(es);
    ValidPrior(es);
    HeardBefore(g, i);
    NotBegunYet(es, i, n);
    if e.Raise? { HitIsTarget(es, i); } else { OnlyRaises(g, e, i); }
    if i >= |Table(g)| {
      NoAlarmsYet(g, i);
    } else {
      var b := BegunAfter(g, i, HeardSince(g, i));
      if b.Some? { FinishedStep(es, i, b.value); }
      FinishedStep(es, i, n);
      NotFinishedYet(g, i, n);
    }
  }

  lemma {:induction false} NotFinishedYet(es: seq<Event>, i: nat, b: nat)
    requires |es| <= b + 1
    ensures !FinishedAfter(es, i, b)
  {
  }

  /**
   After any run every record counts exactly the alarms that belonged to it, is masked if and only if
   the last of them was, and is otherwise untouched, being dealt with or finished according to what the
   operators have done since.
   */
  lemma {:induction false} RecordTellsRun(es: seq<Event>, i: nat)
    requires ValidRun(es) && i < |Table(es)|
    ensures CountsIs(Table(es)[i], es, i) && StatusIs(Table(es)[i], es, i)
  {
    hide CountsIs, StatusIs, Table, Answered;
    if es == [] {
      NoRecords();
    } else {
      var g := es[..|es| - 1];
      if i < |Table(g)| {
        RecordTellsRun(g, i);
        HasAlarms(Table(g)[i], g, i);
      }
      CountsStep(es, i);
      StatusStep(es, i);
    }
  }

  lemma {:induction false} NoRecords()
    ensures Table([]) == []
  {
  }

  lemma {:induction false} HasAlarms(r: Record, es: seq<Event>, i: nat)
    requires CountsIs(r, es, i)
    ensures AlarmsOf(es, i) != []
  {
  }
}
