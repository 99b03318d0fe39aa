/** CheckAttrWarn's loop over the raised alarms, and the operators' two moves, on the alarm table. */
module AlarmTable {
  import opened AlarmInfo
  import opened AlarmMerge

  lemma {:induction false} Extend(es: seq<Event>, e: Event, quiet: nat)
    requires ValidRun(es) && Answered(Table(es), e) && (es != [] ==> es[|es| - 1].at <= e.at)
    ensures ValidRun(es + [e]) && Table(es + [e]) == Step(Table(es), e)
    ensures Notes(es + [e], quiet) == Notes(es, quiet) +
      if e.Raise? && Notifies(Table(es), e.alarm, e.at, e.pick, quiet)
      then [Note(NotifiedRecord(Table(es), e.pick, e.at), e.alarm, e.at)] else []
  {
    hide Answered;
    assert (es + [e])[..|es|] == es;
  }

  lemma {:induction false} Answer(t: seq<Record>, subj: Subject, n: nat)
    requires n <= |t|
    ensures exists pick: int :: -1 <= pick < |t| && Selected(t[..n], subj, pick)
  {
    if n == 0 {
      assert Selected(t[..0], subj, -1);
    } else {
      Answer(t, subj, n - 1);
      assert forall i :: 0 <= i < n - 1 ==> (Candidate(t[..n], subj, i) <==> Candidate(t[..n - 1], subj, i));
      var p :| -1 <= p < |t| && Selected(t[..n - 1], subj, p);
      if !Candidate(t[..n], subj, n - 1) || (p >= 0 && t[p].warnTime > t[n - 1].warnTime) {
        assert Selected(t[..n], subj, p);
      } else {
        assert Selected(t[..n], subj, n - 1);
      }
    }
  }

  class WarnTable {
    var rows: seq<Record>
    var queued: seq<Note>          // what was passed to AddSendWarnToShm
    const quiet: nat               // iNotSendWarnAfterDealTimeCfg
    ghost var history: seq<Event>

    /** The rows and the queued notifications are those of a run. */
    ghost predicate Valid()
      reads this
    {
      ValidRun(history) && rows == Table(history) && queued == Notes(history, quiet)
    }

    ghost predicate NotBefore(now: nat)
      reads this
    {
      history != [] ==> history[|history| - 1].at <= now
    }

    constructor (quiet: nat)
      ensures Valid() && history == []
    {
      this.quiet := quiet;
      rows, queued, history := [], [], [];
    }

    /** The database's answer: any of the latest unfinished records of the subj, -1 if there is none. */
    method Select(subj: Subject) returns (pick: int)
      ensures Selected(rows, subj, pick) && -1 <= pick < |rows|
    {
      Answer(rows, subj, |rows|);
      assert rows[..|rows|] == rows;
      pick :| -1 <= pick < |rows| && Selected(rows, subj, pick);
    }

    /** One round of the loop, for the record picked. */
    method MergeInto(a: Alarm, now: nat, pick: int)
      requires -1 <= pick < |rows|
      modifies `rows, `queued
      ensures rows == Raised(old(rows), a, now, pick)
      ensures queued == old(queued) +
        if Notifies(old(rows), a, now, pick, quiet) then [Note(NotifiedRecord(old(rows), pick, now), a, now)] else []
    {
      if pick >= 0 && rows[pick].lastTime + 24 * 3600 >= now {
        var r := rows[pick];
        if !a.masked && (r.status.Untouched? || (r.status.Dealing? && r.startDeal + quiet < now)) {
          queued := queued + [Note(pick, a, now)];
        }
        if a.masked != r.status.Masked? {
          var status := if a.masked then Masked else Untouched;
          rows := rows[pick := r.(times := r.times + 1, lastTime := now, status := status, val := a.value)];
        } else {
          rows := rows[pick := r.(times := r.times + 1, lastTime := now, val := a.value)];
        }
      } else {
        var status := if a.masked then Masked else Untouched;
        rows := rows + [Record(SubjectOf(a), 1, now, now, status, 0, a.value)];
        if !a.masked {
          queued := queued + [Note(|rows| - 1, a, now)];
        }
      }
    }

    /** One alarm of the list. */
    method MergeAlarm(a: Alarm, now: nat)
      requires Valid() && NotBefore(now)
      modifies this
      ensures Valid() && NotBefore(now)
      ensures |history| == |old(history)| + 1 && old(history) <= history
      ensures var e := history[|old(history)|]; e.Raise? && e.alarm == a && e.at == now
    {
      hide Selected, Raised, Notifies, Table, Notes, ValidRun;
      var pick := Select(SubjectOf(a));
      ghost var e := Raise(a, now, pick);
      Extend(history, e, quiet);
      MergeInto(a, now, pick);
      history := history + [e];
    }

    /** All alarms of one pass are merged, in order. */
    method MergeAlarms(list: seq<Alarm>, now: nat)
      requires Valid() && NotBefore(now)
      modifies this
      ensures Valid() && |history| == |old(history)| + |list| && old(history) <= history
      ensures forall i :: |old(history)| <= i < |history| ==>
        history[i].Raise? && history[i].alarm == list[i - |old(history)|] && history[i].at == now
    {
      hide Valid;
      ghost var n := |history|;
      var i := 0;
      while i < |list|
        invariant 0 <= i <= |list| && Valid() && NotBefore(now)
        invariant |history| == n + i && old(history) <= history
        invariant forall j :: n <= j < n + i ==>
          history[j].Raise? && history[j].alarm == list[j - n] && history[j].at == now
      {
        MergeAlarm(list[i], now);
        i := i + 1;
      }
    }

    /** DealMultiWarns: begin takes untouched records, finish those being dealt with. */
    method Deal(wids: set<int>, begin: bool, now: nat)
      requires Valid() && NotBefore(now)
      modifies this
      ensures Valid() && NotBefore(now)
      ensures history == old(history) + [if begin then Begin(wids, now) else Finish(wids, now)]
    {
      hide Table, Notes, ValidRun;
      ghost var e := if begin then Begin(wids, now) else Finish(wids, now);
      Extend(history, e, quiet);
      rows := if begin then Began(rows, wids, now) else Ended(rows, wids);
      history := history + [e];
    }
  }
}
