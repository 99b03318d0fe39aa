/** From merged alarms to sent notifications: the notes of a merging run, offered to the array in order. */
module NotifyPipeline {
  import M = AlarmMerge
  import Q = NotifyQueue

  /** What the producer is called with; record ids count from 1. */
  function OfferOf(n: M.Note): Q.Event {
    Q.Offer(n.wid + 1, n.at)
  }

  /** The producer's steps of a run of the array. */
  function Offers(qs: seq<Q.Event>): seq<Q.Event> {
    if qs == [] then []
    else
      var q, os := qs[|qs| - 1], Offers(qs[..|qs| - 1]);
      if q.Offer? then os + [q] else os
  }

  /** The producer has offered the notes in order, up to some point; the consumers look in between as they like. */
  ghost predicate Feeds(ns: seq<M.Note>, qs: seq<Q.Event>) {
    var os := Offers(qs);
    |os| <= |ns| && forall i :: 0 <= i < |os| ==> os[i] == OfferOf(ns[i])
  }

  predicate Accepts(w: Q.World, q: Q.Event, s: Q.Setup)
    requires |w.slots| == Q.SLOTS
  {
    q.Offer? && Q.Place(w.slots, w.cursor, q.at, s.valid).Some?
  }

  /** For every accepted token, which offer it came from. */
  function Origins(qs: seq<Q.Event>, s: Q.Setup): seq<nat>
    requires s.processes > 0
  {
    if qs == [] then []
    else
      var g, os := qs[..|qs| - 1], Origins(qs[..|qs| - 1], s);
      if Accepts(Q.Run(g, s), qs[|qs| - 1], s) then os + [|Offers(g)|] else os
  }

  /** Token t came from an offer made before those of later tokens, and carries its record id and time. */
  lemma {:induction false} OriginsAre(qs: seq<Q.Event>, s: Q.Setup)
    requires s.processes > 0
    ensures var os, acc, from := Offers(qs), Q.Run(qs, s).accepted, Origins(qs, s);
      && |from| == |acc|
      && (forall t :: 0 <= t < |from| ==> from[t] < |os| && os[from[t]].Offer?
                                          && acc[t] == Q.Accepted(os[from[t]].wid, os[from[t]].at))
      && forall t, u :: 0 <= t < u < |from| ==> from[t] < from[u]
  {
    hide Q.Place, Q.NextCursor;
    if qs != [] { OriginsAre(qs[..|qs| - 1], s); }
  }

  lemma {:induction false} OfferedIds(qs: seq<Q.Event>)
    requires forall o :: o in Offers(qs) ==> o.Offer? && o.wid != 0
    ensures Q.RealIds(qs)
  {
    if qs != [] {
      var n := |qs| - 1;
      assert forall o :: o in Offers(qs[..n]) ==> o in Offers(qs);
      OfferedIds(qs[..n]);
      assert forall i :: 0 <= i < n ==> qs[i] == qs[..n][i];
      if qs[n].Offer? { assert Offers(qs)[|Offers(qs)| - 1] == qs[n]; }
    }
  }

  lemma {:induction false} FeedsRealIds(ns: seq<M.Note>, qs: seq<Q.Event>)
    requires Feeds(ns, qs)
    ensures Q.RealIds(qs)
  {
    hide Offers;
    forall o | o in Offers(qs)
      ensures o.Offer? && o.wid != 0
    {
      var i :| 0 <= i < |Offers(qs)| && Offers(qs)[i] == o;
    }
    OfferedIds(qs);
  }

  // ---------- the fate of a note ----------

  /** The accepted token is the note i. */
  predicate IsNote(token: nat, i: nat, qs: seq<Q.Event>, s: Q.Setup)
    requires s.processes > 0
  {
    token < |Origins(qs, s)| && Origins(qs, s)[token] == i
  }

  lemma {:induction false} NotSent(sent: seq<Q.Sent>, t: nat, k: nat)
    requires Q.TimesSent(sent, t) == 0 && k < |sent|
    ensures sent[k].token != t
  {
    if k < |sent| - 1 { NotSent(sent[..|sent| - 1], t, k); }
  }

  lemma {:induction false} SentOnce(sent: seq<Q.Sent>, t: nat, k: nat, l: nat)
    requires Q.TimesSent(sent, t) <= 1 && k < l < |sent|
    ensures sent[k].token != t || sent[l].token != t
  {
    var n := |sent| - 1;
    if l < n {
      SentOnce(sent[..n], t, k, l);
    } else if sent[n].token == t {
      NotSent(sent[..n], t, k);
    }
  }

  /**
   Whatever the consumers do: everything sent is a note of the merging run that an alarm to be
   heard queued, sent by the process that its record selects and before it expires.
   */
  lemma {:induction false} SentIsHeard(es: seq<M.Event>, quiet: nat, qs: seq<Q.Event>, s: Q.Setup, k: nat)
    requires s.processes > 0 && M.ValidRun(es) && Feeds(M.Notes(es, quiet), qs) && k < |Q.Run(qs, s).sent|
    ensures var x, ns := Q.Run(qs, s).sent[k], M.Notes(es, quiet);
      exists i: nat, j: nat ::
        && i < |ns| && IsNote(x.token, i, qs, s) && M.QueuedBy(es, j, ns[i], quiet)
        && x.process == (ns[i].wid + 1) % s.processes && x.at < ns[i].at + s.valid
  {
    hide Q.Run, Origins, Offers, M.Notes, M.ValidRun, M.QueuedBy;
    var x, ns := Q.Run(qs, s).sent[k], M.Notes(es, quiet);
    Q.AlwaysRight(qs, s);
    assert Q.SentRight(x, Q.Run(qs, s), s);
    OriginsAre(qs, s);
    var i := Origins(qs, s)[x.token];
    assert Offers(qs)[i] == OfferOf(ns[i]);
    M.NotesAreOpen(es, quiet, ns[i]);
    var j: nat :| M.QueuedBy(es, j, ns[i], quiet);
    assert IsNote(x.token, i, qs, s);
  }

  /** No note is sent twice, and a note that was sent is not given up. */
  lemma {:induction false} NoteSentOnce(ns: seq<M.Note>, qs: seq<Q.Event>, s: Q.Setup, i: nat)
    requires s.processes > 0 && Feeds(ns, qs)
    ensures var w := Q.Run(qs, s);
      && (forall k, l :: 0 <= k < l < |w.sent| ==>
            !IsNote(w.sent[k].token, i, qs, s) || !IsNote(w.sent[l].token, i, qs, s))
      && forall k, l :: 0 <= k < |w.sent| && 0 <= l < |w.expired| ==>
           !IsNote(w.sent[k].token, i, qs, s) || !IsNote(w.expired[l].token, i, qs, s)
  {
    hide Q.Run, Origins, Offers, Feeds;
    var w := Q.Run(qs, s);
    OriginsAre(qs, s);
    FeedsRealIds(ns, qs);
    forall k, l | 0 <= k < l < |w.sent| && IsNote(w.sent[k].token, i, qs, s) && IsNote(w.sent[l].token, i, qs, s)
      ensures false
    {
      var t := w.sent[k].token;
      assert w.sent[l].token == t;
      Q.ExactlyOneFate(qs, s, t);
      SentOnce(w.sent, t, k, l);
    }
    forall k, l | 0 <= k < |w.sent| && 0 <= l < |w.expired|
      ensures !IsNote(w.sent[k].token, i, qs, s) || !IsNote(w.expired[l].token, i, qs, s)
    {
      if IsNote(w.sent[k].token, i, qs, s) && IsNote(w.expired[l].token, i, qs, s) {
        var t := w.sent[k].token;
        assert w.expired[l].token == t;
        Q.ExactlyOneFate(qs, s, t);
        if Q.TimesSent(w.sent, t) == 0 { NotSent(w.sent, t, k); }
        if Q.TimesExpired(w.expired, t) == 0 { NotExpired(w.expired, t, l); }
      }
    }
  }

  lemma {:induction false} NotExpired(expired: seq<Q.Expired>, t: nat, k: nat)
    requires Q.TimesExpired(expired, t) == 0 && k < |expired|
    ensures expired[k].token != t
  {
    if k < |expired| - 1 { NotExpired(expired[..|expired| - 1], t, k); }
  }

  // ---------- nothing is lost in between ----------

  /** Every slot holds a notification that can still be sent or is just expiring. */
  ghost predicate Full(slots: seq<Q.Slot>, now: nat, valid: nat)
    requires |slots| == Q.SLOTS
  {
    forall i: Q.Index :: !Q.Free(slots[i]) && now <= slots[i].addTime + valid
  }

  /** Step k offered note i to a full array. */
  ghost predicate RefusedAt(qs: seq<Q.Event>, s: Q.Setup, i: nat, k: nat)
    requires s.processes > 0
  {
    k < |qs| && qs[k].Offer? && |Offers(qs[..k])| == i && Full(Q.Run(qs[..k], s).slots, qs[k].at, s.valid)
  }

  /** Every note that was offered was accepted, or met a full array. */
  lemma {:induction false} AcceptedOrFull(qs: seq<Q.Event>, s: Q.Setup, i: nat)
    requires s.processes > 0 && i < |Offers(qs)|
    ensures i in Origins(qs, s) || exists k: nat :: RefusedAt(qs, s, i, k)
  {
    hide Q.Run, Full, Q.Place;
    var n := |qs| - 1;
    var g, q := qs[..n], qs[n];
    if i < |Offers(g)| {
      AcceptedOrFull(g, s, i);
      if i in Origins(g, s) {
        assert i in Origins(qs, s);
      } else {
        var k: nat :| RefusedAt(g, s, i, k);
        assert g[..k] == qs[..k];
        assert RefusedAt(qs, s, i, k);
      }
    } else if Accepts(Q.Run(g, s), q, s) {
      assert Origins(qs, s)[|Origins(g, s)|] == i;
    } else {
      NoPlaceIsFull(Q.Run(g, s), q.at, s);
      assert RefusedAt(qs, s, i, n);
    }
  }

  lemma {:induction false} NoPlaceIsFull(w: Q.World, now: nat, s: Q.Setup)
    requires |w.slots| == Q.SLOTS && Q.Place(w.slots, w.cursor, now, s.valid).None?
    ensures Full(w.slots, now, s.valid)
  {
    hide Q.Place, Q.Free;
    Q.PlaceIs(w.slots, w.cursor, now, s.valid);
  }

  /**
   A note accepted before step k is sent, if since then the process its record selects has looked at
   every slot and no clock has passed the note's expiry.
   */
  lemma {:induction false} NoteIsSent(ns: seq<M.Note>, qs: seq<Q.Event>, s: Q.Setup, k: nat, i: nat)
    requires s.processes > 0 && Feeds(ns, qs) && k <= |qs| && i < |ns| && i in Origins(qs[..k], s)
    requires Q.LooksEverywhere(qs, k, (ns[i].wid + 1) % s.processes)
    requires forall j :: 0 <= j < |qs| ==> qs[j].at < ns[i].at + s.valid
    ensures exists m :: 0 <= m < |Q.Run(qs, s).sent| && IsNote(Q.Run(qs, s).sent[m].token, i, qs, s)
  {
    hide Q.Run, Origins, Offers, Q.LooksEverywhere;
    var t :| 0 <= t < |Origins(qs[..k], s)| && Origins(qs[..k], s)[t] == i;
    OriginsAre(qs[..k], s);
    OriginsGrow(qs, s, k);
    assert Offers(qs)[i] == OfferOf(ns[i]);
    FeedsRealIds(ns, qs);
    Q.SentInTime(qs, s, k, t);
    TokenSent(Q.Run(qs, s).sent, t);
  }

  lemma {:induction false} OriginsGrow(qs: seq<Q.Event>, s: Q.Setup, k: nat)
    requires s.processes > 0 && k <= |qs|
    ensures Origins(qs[..k], s) <= Origins(qs, s) && Offers(qs[..k]) <= Offers(qs)
    decreases |qs|
  {
    hide Accepts;
    if k < |qs| {
      assert qs[..|qs| - 1][..k] == qs[..k];
      OriginsGrow(qs[..|qs| - 1], s, k);
    } else {
      assert qs[..k] == qs;
    }
  }

  lemma {:induction false} TokenSent(sent: seq<Q.Sent>, t: nat)
    requires Q.TimesSent(sent, t) > 0
    ensures exists m :: 0 <= m < |sent| && sent[m].token == t
  {
    var n := |sent| - 1;
    if sent[n].token != t {
      TokenSent(sent[..n], t);
      var m :| 0 <= m < n && sent[..n][m].token == t;
      assert sent[m] == sent[..n][m];
    }
  }
}
