/** Merging raised alarms into database records, over any run of alarms and operator actions. */
module AlarmMerge {
  import opened AlarmInfo
  import opened Basics

  /** deal_status 0 to 3. */
  datatype Status = Untouched | Dealing | Finished | Masked

  /** A row of mt_warn_info; its wid is its position plus one. */
  datatype Record = Record(subject: Subject, times: nat, warnTime: nat, lastTime: nat,
                           status: Status, startDeal: nat, val: int)

  // ---------- one alarm ----------

  /** The select of unfinished records of the subject, latest first. */
  predicate Candidate(t: seq<Record>, subj: Subject, i: int) {
    0 <= i < |t| && t[i].subject == subj && !t[i].status.Finished?
  }

  /** pick is an answer the database may give; ties are broken in any way. */
  predicate Selected(t: seq<Record>, subj: Subject, pick: int) {
    if pick < 0 then forall i :: 0 <= i < |t| ==> !Candidate(t, subj, i)
    else
      && Candidate(t, subj, pick)
      && forall i :: 0 <= i < |t| && Candidate(t, subj, i) ==> t[i].warnTime <= t[pick].warnTime
  }

  predicate Merges(t: seq<Record>, pick: int, now: nat) {
    0 <= pick < |t| && t[pick].lastTime + DAY_SEC >= now
  }

  function Counted(r: Record, a: Alarm, now: nat): Record {
    r.(times := r.times + 1, lastTime := now, val := a.value,
       status := if a.masked == r.status.Masked? then r.status else if a.masked then Masked else Untouched)
  }

  /** The table after an alarm of CheckAttrWarn's list. */
  function Raised(t: seq<Record>, a: Alarm, now: nat, pick: int): seq<Record> {
    if Merges(t, pick, now) then t[pick := Counted(t[pick], a, now)]
    else t + [Record(SubjectOf(a), 1, now, now, if a.masked then Masked else Untouched, 0, a.value)]
  }

  /** Whether the alarm is queued for notification; quiet is the pause after an operator begins. */
  predicate Notifies(t: seq<Record>, a: Alarm, now: nat, pick: int, quiet: nat) {
    && !a.masked
    && (Merges(t, pick, now) ==>
          var r := t[pick];
          r.status.Untouched? || (r.status.Dealing? && r.startDeal + quiet < now))
  }

  /** The record a notification names. */
  function NotifiedRecord(t: seq<Record>, pick: int, now: nat): nat {
    if Merges(t, pick, now) then pick else |t|
  }

  // ---------- operators ----------

  function Began(t: seq<Record>, wids: set<int>, now: nat): (u: seq<Record>)
    ensures |u| == |t|
  {
    seq(|t|, i requires 0 <= i < |t| =>
      if i in wids && t[i].status.Untouched? then t[i].(status := Dealing, startDeal := now) else t[i])
  }

  function Ended(t: seq<Record>, wids: set<int>): (u: seq<Record>)
    ensures |u| == |t|
  {
    seq(|t|, i requires 0 <= i < |t| =>
      if i in wids && t[i].status.Dealing? then t[i].(status := Finished) else t[i])
  }

  // ---------- runs ----------

  datatype Event =
    | Raise(alarm: Alarm, at: nat, pick: int)
    | Begin(wids: set<int>, at: nat)
    | Finish(wids: set<int>, at: nat)

  /** A call of AddSendWarnToShm for the record at position wid. */
  datatype Note = Note(wid: nat, alarm: Alarm, at: nat)

  function Step(t: seq<Record>, e: Event): seq<Record> {
    match e
    case Raise(a, at, pick) => Raised(t, a, at, pick)
    case Begin(wids, at) => Began(t, wids, at)
    case Finish(wids, _) => Ended(t, wids)
  }

  function Table(es: seq<Event>): seq<Record> {
    if es == [] then [] else Step(Table(es[..|es| - 1]), es[|es| - 1])
  }

  function Notes(es: seq<Event>, quiet: nat): seq<Note> {
    if es == [] then []
    else
      var t, e, ns := Table(es[..|es| - 1]), es[|es| - 1], Notes(es[..|es| - 1], quiet);
      if e.Raise? && Notifies(t, e.alarm, e.at, e.pick, quiet)
      then ns + [Note(NotifiedRecord(t, e.pick, e.at), e.alarm, e.at)]
      else ns
  }

  function RaisedCount(es: seq<Event>, subj: Subject): nat {
    if es == [] then 0
    else
      var e := es[|es| - 1];
      RaisedCount(es[..|es| - 1], subj) + if e.Raise? && SubjectOf(e.alarm) == subj then 1 else 0
  }

  function TimesOf(t: seq<Record>, subj: Subject): nat {
    if t == [] then 0
    else TimesOf(t[..|t| - 1], subj) + if t[|t| - 1].subject == subj then t[|t| - 1].times else 0
  }

  predicate Answered(t: seq<Record>, e: Event) {
    e.Raise? ==> Selected(t, SubjectOf(e.alarm), e.pick)
  }

  /** Times do not go back and every select is answered rightly. */
  ghost predicate ValidRun(es: seq<Event>) {
    es != [] ==>
      var g, e := es[..|es| - 1], es[|es| - 1];
      && ValidRun(g)
      && (g != [] ==> g[|g| - 1].at <= e.at)
      && Answered(Table(g), e)
  }

  // ---------- every alarm is counted once ----------

  lemma {:induction false} TimesUpdate(t: seq<Record>, subj: Subject, i: nat, r: Record)
    requires i < |t| && r.subject == t[i].subject
    ensures TimesOf(t[i := r], subj) == TimesOf(t, subj) + if r.subject == subj then r.times - t[i].times else 0
  {
    var n := |t| - 1;
    if i < n {
      TimesUpdate(t[..n], subj, i, r);
      assert t[i := r][..n] == t[..n][i := r];
    } else {
      assert t[i := r][..n] == t[..n];
    }
  }

  lemma {:induction false} TimesSame(t: seq<Record>, u: seq<Record>, subj: Subject)
    requires |t| == |u| && forall i :: 0 <= i < |t| ==> t[i].subject == u[i].subject && t[i].times == u[i].times
    ensures TimesOf(t, subj) == TimesOf(u, subj)
  {
    if t != [] { TimesSame(t[..|t| - 1], u[..|u| - 1], subj); }
  }

  /** Per subject, the records' times add up to the alarms raised. */
  lemma {:induction false} AllCounted(es: seq<Event>, subj: Subject)
    requires ValidRun(es)
    ensures TimesOf(Table(es), subj) == RaisedCount(es, subj)
  {
    hide Selected;
    if es != [] {
      var g, e := es[..|es| - 1], es[|es| - 1];
      AllCounted(g, subj);
      var t := Table(g);
      match e
      case Raise(a, at, pick) =>
        if Merges(t, pick, at) {
          MergedKey(t, e);
          TimesUpdate(t, subj, pick, Counted(t[pick], a, at));
        } else {
          assert Table(es)[..|t|] == t;
        }
      case Begin(wids, at) => TimesSame(t, Table(es), subj);
      case Finish(wids, _) => TimesSame(t, Table(es), subj);
    }
  }

  lemma {:induction false} MergedKey(t: seq<Record>, e: Event)
    requires e.Raise? && Answered(t, e) && Merges(t, e.pick, e.at)
    ensures t[e.pick].subject == SubjectOf(e.alarm) && !t[e.pick].status.Finished?
  {
  }

  // ---------- at most one record is open ----------

  /** A record that could be merged into at now. */
  predicate Open(r: Record, now: nat) {
    !r.status.Finished? && r.lastTime + DAY_SEC >= now
  }

  /** An older unfinished record of a subject was stale before a newer one began. */
  ghost predicate Staggered(t: seq<Record>, now: nat) {
    && (forall i :: 0 <= i < |t| ==> t[i].warnTime <= t[i].lastTime <= now)
    && (forall i, j :: 0 <= i < j < |t| && t[i].subject == t[j].subject && !t[i].status.Finished? ==>
          t[i].lastTime + DAY_SEC < t[j].warnTime)
  }

  lemma {:induction false} PickedIsLatest(t: seq<Record>, subj: Subject, pick: int, now: nat, j: int)
    requires Staggered(t, now) && Selected(t, subj, pick) && Candidate(t, subj, j)
    ensures 0 <= pick && j <= pick
    ensures j < pick ==> t[j].lastTime + DAY_SEC < t[pick].warnTime
  {
    assert !(0 <= pick < j);
  }

  lemma {:induction false} RaiseStaggers(t: seq<Record>, e: Event, now: nat)
    requires e.Raise? && Staggered(t, now) && now <= e.at && Answered(t, e)
    ensures Staggered(Step(t, e), e.at)
  {
    hide Selected;
    var subj, pick := SubjectOf(e.alarm), e.pick;
    var u := Step(t, e);
    if Merges(t, pick, e.at) {
      MergedKey(t, e);
      assert forall j :: pick < j < |t| ==> t[j].subject != subj;
    } else {
      forall i | 0 <= i < |t| && t[i].subject == subj && !t[i].status.Finished?
        ensures t[i].lastTime + DAY_SEC < e.at
      {
        PickedIsLatest(t, subj, pick, now, i);
        assert Candidate(t, subj, pick) by { SelectedCandidate(t, subj, pick); }
      }
    }
  }

  lemma {:induction false} SelectedCandidate(t: seq<Record>, subj: Subject, pick: int)
    requires Selected(t, subj, pick) && pick >= 0
    ensures Candidate(t, subj, pick)
  {
  }

  lemma {:induction false} AlwaysStaggered(es: seq<Event>)
    requires ValidRun(es) && es != []
    ensures Staggered(Table(es), es[|es| - 1].at)
  {
    hide Raised, Answered;
    var g, e := es[..|es| - 1], es[|es| - 1];
    if g != [] { AlwaysStaggered(g); }
    if e.Raise? { RaiseStaggers(Table(g), e, if g == [] then 0 else g[|g| - 1].at); }
  }

  /** After any run, a subject has at most one unfinished record with an alarm in the last 24 hours. */
  lemma {:induction false} OneOpenRecord(es: seq<Event>, now: nat, i: nat, j: nat)
    requires ValidRun(es) && es != [] && es[|es| - 1].at <= now
    requires i < |Table(es)| && j < |Table(es)| && Table(es)[i].subject == Table(es)[j].subject
    requires Open(Table(es)[i], now) && Open(Table(es)[j], now)
    ensures i == j
  {
    hide Table;
    AlwaysStaggered(es);
    assert !(i < j) && !(j < i);
  }

  // ---------- closed records stay as they are ----------

  /** Finished, or without an alarm for more than 24 hours. */
  predicate Closed(r: Record, now: nat) {
    r.status.Finished? || r.lastTime + DAY_SEC < now
  }

  lemma {:induction false} ClosedStep(t: seq<Record>, e: Event, i: nat, now: nat)
    requires i < |t| && Closed(t[i], now) && now <= e.at && Answered(t, e)
    ensures var u := Step(t, e);
      i < |u| && u[i].times == t[i].times && u[i].lastTime == t[i].lastTime && Closed(u[i], e.at)
  {
    hide Selected;
    if e.Raise? && Merges(t, e.pick, e.at) { MergedKey(t, e); }
  }

  /** Once closed, a record is never counted into again. */
  lemma {:induction false} NeverReopened(es: seq<Event>, k: nat, i: nat)
    requires ValidRun(es) && 0 < k <= |es| && i < |Table(es[..k])|
    requires Closed(Table(es[..k])[i], es[k - 1].at)
    ensures i < |Table(es)| && Closed(Table(es)[i], es[|es| - 1].at)
    ensures Table(es)[i].times == Table(es[..k])[i].times && Table(es)[i].lastTime == Table(es[..k])[i].lastTime
    decreases |es|
  {
    hide Table, Step, Answered;
    if k < |es| {
      var g, e := es[..|es| - 1], es[|es| - 1];
      assert g[..k] == es[..k];
      NeverReopened(g, k, i);
      ClosedStep(Table(g), e, i, g[|g| - 1].at);
      TableStep(es);
    } else {
      assert es[..k] == es;
    }
  }

  lemma {:induction false} TableStep(es: seq<Event>)
    requires es != []
    ensures Table(es) == Step(Table(es[..|es| - 1]), es[|es| - 1])
  {
  }

  // ---------- notifications ----------

  /**
   Event i queued the notification: its alarm was not masked, and the record it names was new,
   or untouched, or dealt with since longer than the quiet period; it has just been counted.
   */
  ghost predicate QueuedBy(es: seq<Event>, i: nat, n: Note, quiet: nat) {
    i < |es| && es[i].Raise? && es[i].alarm == n.alarm && es[i].at == n.at && !n.alarm.masked &&
    var t, u := Table(es[..i]), Table(es[..i + 1]);
    && n.wid < |u| && u[n.wid].subject == SubjectOf(n.alarm) && u[n.wid].lastTime == es[i].at
    && !u[n.wid].status.Finished? && !u[n.wid].status.Masked?
    && if n.wid == |t| then u[n.wid].times == 1
       else n.wid < |t| && u[n.wid].times == t[n.wid].times + 1
            && (t[n.wid].status.Untouched? || (t[n.wid].status.Dealing? && t[n.wid].startDeal + quiet < es[i].at))
  }

  lemma {:induction false} LastQueues(es: seq<Event>, quiet: nat)
    requires es != [] && ValidRun(es)
    ensures var g, e := es[..|es| - 1], es[|es| - 1];
      e.Raise? && Notifies(Table(g), e.alarm, e.at, e.pick, quiet) ==>
        QueuedBy(es, |es| - 1, Note(NotifiedRecord(Table(g), e.pick, e.at), e.alarm, e.at), quiet)
  {
    hide Selected;
    var g, e := es[..|es| - 1], es[|es| - 1];
    assert es[..|es|] == es;
    if e.Raise? && Merges(Table(g), e.pick, e.at) { MergedKey(Table(g), e); }
  }

  lemma {:induction false} QueuedStays(es: seq<Event>, i: nat, n: Note, quiet: nat)
    requires es != [] && QueuedBy(es[..|es| - 1], i, n, quiet)
    ensures QueuedBy(es, i, n, quiet)
  {
    hide Table;
    var g := es[..|es| - 1];
    assert g[..i] == es[..i] && g[..i + 1] == es[..i + 1];
  }

  /** Every notification was queued by an alarm that should be heard. */
  lemma {:induction false} NotesAreOpen(es: seq<Event>, quiet: nat, n: Note)
    requires ValidRun(es) && n in Notes(es, quiet)
    ensures exists i: nat :: QueuedBy(es, i, n, quiet)
  {
    hide QueuedBy, Table, Notifies, NotifiedRecord, Answered;
    var g := es[..|es| - 1];
    if n in Notes(g, quiet) {
      NotesAreOpen(g, quiet, n);
      var i: nat :| QueuedBy(g, i, n, quiet);
      QueuedStays(es, i, n, quiet);
    } else {
      LastQueues(es, quiet);
    }
  }

  /** How many notifications the run queued for the subject, and how many unmasked alarms it raised. */
  function NotesFor(ns: seq<Note>, subj: Subject): nat {
    if ns == [] then 0
    else NotesFor(ns[..|ns| - 1], subj) + if SubjectOf(ns[|ns| - 1].alarm) == subj then 1 else 0
  }

  function HeardCount(es: seq<Event>, subj: Subject): nat {
    if es == [] then 0
    else
      var e := es[|es| - 1];
      HeardCount(es[..|es| - 1], subj) + if e.Raise? && !e.alarm.masked && SubjectOf(e.alarm) == subj then 1 else 0
  }

  /** Each unmasked alarm queues at most one notification, a masked one none. */
  lemma {:induction false} OneNoteEach(es: seq<Event>, quiet: nat, subj: Subject)
    ensures NotesFor(Notes(es, quiet), subj) <= HeardCount(es, subj)
  {
    hide Table;
    if es != [] {
      var ns := Notes(es[..|es| - 1], quiet);
      OneNoteEach(es[..|es| - 1], quiet, subj);
      var ms := Notes(es, quiet);
      if ms != ns { assert ms[..|ms| - 1] == ns; }
    }
  }

  // ---------- every alarm to be heard is noted ----------

  /**
   The alarm is not masked, and if its subject has an unfinished record with an alarm in the last
   24 hours, that record is untouched or has been dealt with for longer than the quiet period.
   */
  predicate ToBeHeard(t: seq<Record>, a: Alarm, now: nat, quiet: nat) {
    && !a.masked
    && forall i :: 0 <= i < |t| && t[i].subject == SubjectOf(a) && Open(t[i], now) ==>
         t[i].status.Untouched? || (t[i].status.Dealing? && t[i].startDeal + quiet < now)
  }

  /** The picked record is the subject's only open one, or there is none. */
  lemma {:induction false} PickIsOpen(t: seq<Record>, e: Event, now: nat, i: nat)
    requires e.Raise? && Staggered(t, now) && now <= e.at && Answered(t, e) && i < |t|
    ensures t[i].subject == SubjectOf(e.alarm) && Open(t[i], e.at) <==> Merges(t, e.pick, e.at) && i == e.pick
  {
    hide Selected;
    var subj := SubjectOf(e.alarm);
    if Merges(t, e.pick, e.at) { MergedKey(t, e); }
    if t[i].subject == subj && Open(t[i], e.at) {
      PickedIsLatest(t, subj, e.pick, now, i);
      SelectedCandidate(t, subj, e.pick);
    }
  }

  /** The test on the picked record decides what should be heard. */
  lemma {:induction false} NotifiesExactly(t: seq<Record>, e: Event, now: nat, quiet: nat)
    requires e.Raise? && Staggered(t, now) && now <= e.at && Answered(t, e)
    ensures Notifies(t, e.alarm, e.at, e.pick, quiet) <==> ToBeHeard(t, e.alarm, e.at, quiet)
  {
    hide Staggered, Selected, Open;
    forall i | 0 <= i < |t|
      ensures t[i].subject == SubjectOf(e.alarm) && Open(t[i], e.at) <==> Merges(t, e.pick, e.at) && i == e.pick
    {
      PickIsOpen(t, e, now, i);
    }
  }

  lemma {:induction false} RunNotifiesExactly(es: seq<Event>, quiet: nat)
    requires ValidRun(es) && es != [] && es[|es| - 1].Raise?
    ensures var t, e := Table(es[..|es| - 1]), es[|es| - 1];
      Notifies(t, e.alarm, e.at, e.pick, quiet) <==> ToBeHeard(t, e.alarm, e.at, quiet)
  {
    hide Table, Notifies, ToBeHeard, Answered, Staggered;
    var g, e := es[..|es| - 1], es[|es| - 1];
    if g != [] { AlwaysStaggered(g); } else { EmptyStaggered(); }
    NotifiesExactly(Table(g), e, if g == [] then 0 else g[|g| - 1].at, quiet);
  }

  lemma {:induction false} EmptyStaggered()
    ensures Staggered(Table([]), 0)
  {
  }

  /** How many alarms of the subject are to be heard. */
  function ToBeHeardCount(es: seq<Event>, subj: Subject, quiet: nat): nat {
    if es == [] then 0
    else
      var g, e := es[..|es| - 1], es[|es| - 1];
      ToBeHeardCount(g, subj, quiet) +
        if e.Raise? && SubjectOf(e.alarm) == subj && ToBeHeard(Table(g), e.alarm, e.at, quiet) then 1 else 0
  }

  /** Per subject, a run queues one notification for every alarm to be heard. */
  lemma {:induction false} NotedExactly(es: seq<Event>, quiet: nat, subj: Subject)
    requires ValidRun(es)
    ensures NotesFor(Notes(es, quiet), subj) == ToBeHeardCount(es, subj, quiet)
  {
    hide Table, Notifies, ToBeHeard, Answered, NotifiedRecord;
    if es != [] {
      var ns := Notes(es[..|es| - 1], quiet);
      NotedExactly(es[..|es| - 1], quiet, subj);
      if es[|es| - 1].Raise? { RunNotifiesExactly(es, quiet); }
      var ms := Notes(es, quiet);
      if ms != ns { assert ms[..|ms| - 1] == ns; }
    }
  }

  /** Every alarm to be heard has queued its notification. */
  lemma {:induction false} HeardIsNoted(es: seq<Event>, quiet: nat, j: nat)
    requires ValidRun(es) && j < |es| && es[j].Raise? && ToBeHeard(Table(es[..j]), es[j].alarm, es[j].at, quiet)
    ensures exists n :: n in Notes(es, quiet) && QueuedBy(es, j, n, quiet)
    decreases |es|
  {
    hide Table, QueuedBy, Notifies, ToBeHeard, Answered, NotifiedRecord;
    var g := es[..|es| - 1];
    if j < |g| {
      assert g[..j] == es[..j];
      HeardIsNoted(g, quiet, j);
      var n :| n in Notes(g, quiet) && QueuedBy(g, j, n, quiet);
      QueuedStays(es, j, n, quiet);
      assert n in Notes(es, quiet);
    } else {
      RunNotifiesExactly(es, quiet);
      LastQueues(es, quiet);
      var n := Note(NotifiedRecord(Table(g), es[j].pick, es[j].at), es[j].alarm, es[j].at);
      assert Notes(es, quiet)[|Notes(es, quiet)| - 1] == n;
    }
  }

  // ---------- one pass ----------

  /** From event n on the run only raises alarms at now. */
  ghost predicate RaisesAt(es: seq<Event>, n: nat, now: nat) {
    n <= |es| && forall i :: n <= i < |es| ==> es[i].Raise? && es[i].at == now
  }

  /** A record of the subject that has just been counted. */
  ghost predicate JustCounted(t: seq<Record>, subj: Subject, i: nat, now: nat) {
    i < |t| && t[i].subject == subj && !t[i].status.Finished? && t[i].lastTime == now
  }

  lemma {:induction false} RaiseCounts(t: seq<Record>, e: Event)
    requires e.Raise? && Answered(t, e)
    ensures exists i: nat :: JustCounted(Step(t, e), SubjectOf(e.alarm), i, e.at)
    ensures forall subj, i: nat :: JustCounted(t, subj, i, e.at) ==> JustCounted(Step(t, e), subj, i, e.at)
  {
    hide Selected;
    var u := Step(t, e);
    if Merges(t, e.pick, e.at) {
      MergedKey(t, e);
      assert JustCounted(u, SubjectOf(e.alarm), e.pick, e.at);
    } else {
      assert JustCounted(u, SubjectOf(e.alarm), |t|, e.at);
    }
  }

  /** After a pass every alarm it raised has a record just counted. */
  lemma {:induction false} PassLeavesRecord(es: seq<Event>, n: nat, now: nat, k: nat)
    requires ValidRun(es) && RaisesAt(es, n, now) && n <= k < |es|
    ensures exists i: nat :: JustCounted(Table(es), SubjectOf(es[k].alarm), i, now)
  {
    hide JustCounted, Answered, Step;
    var g, e := es[..|es| - 1], es[|es| - 1];
    assert e == es[|g|];
    RaiseCounts(Table(g), e);
    TableStep(es);
    if k < |g| {
      assert g[k] == es[k];
      PassLeavesRecord(g, n, now, k);
      var i: nat :| JustCounted(Table(g), SubjectOf(g[k].alarm), i, now);
      assert JustCounted(Table(es), SubjectOf(es[k].alarm), i, now);
    }
  }
}
