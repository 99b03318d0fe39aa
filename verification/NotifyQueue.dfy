/**
 The notification array: one producer, several consumer processes, atomic steps of one slot
 in any order. Tokens number the accepted notifications; the source stores no such number.
 */
module NotifyQueue {
  import opened Basics

  /** MAX_WARN_SEND_NODE_SHM. */
  const SLOTS := 10000

  type Index = i: int | 0 <= i < SLOTS

  /** A slot is free when its warn id is 0. */
  datatype Slot = Slot(wid: nat, addTime: nat, token: nat)

  /** Validity in seconds and the number of consumer processes. */
  datatype Setup = Setup(valid: nat, processes: nat)

  datatype Accepted = Accepted(wid: nat, at: nat)

  datatype Sent = Sent(token: nat, process: nat, at: nat)

  datatype Expired = Expired(token: nat, at: nat)

  /** The array with the producer's cursor, and what became of every accepted notification. */
  datatype World = World(slots: seq<Slot>, cursor: Index,
                         accepted: seq<Accepted>, sent: seq<Sent>, expired: seq<Expired>)

  // ---------- the producer ----------

  /** The j-th slot from the cursor on, around the array. */
  function Around(cursor: Index, j: int): Index
    requires 0 <= j <= SLOTS
  {
    if cursor + j < SLOTS then cursor + j else cursor + j - SLOTS
  }

  predicate Free(s: Slot) {
    s.wid == 0
  }

  predicate TimedOut(s: Slot, now: nat, valid: nat) {
    s.addTime + valid < now
  }

  /** Distance from the cursor to the first free slot, or SLOTS. */
  function FirstFree(slots: seq<Slot>, cursor: Index, from: nat): (j: nat)
    requires |slots| == SLOTS && from <= SLOTS
    ensures from <= j <= SLOTS
    ensures j < SLOTS ==> Free(slots[Around(cursor, j)])
    ensures forall k :: from <= k < j ==> !Free(slots[Around(cursor, k)])
    decreases SLOTS - from
  {
    if from == SLOTS || Free(slots[Around(cursor, from)]) then from else FirstFree(slots, cursor, from + 1)
  }

  function FirstTimedOut(slots: seq<Slot>, cursor: Index, now: nat, valid: nat, from: nat): (j: nat)
    requires |slots| == SLOTS && from <= SLOTS
    ensures from <= j <= SLOTS
    ensures j < SLOTS ==> TimedOut(slots[Around(cursor, j)], now, valid)
    ensures forall k :: from <= k < j ==> !TimedOut(slots[Around(cursor, k)], now, valid)
    decreases SLOTS - from
  {
    if from == SLOTS || TimedOut(slots[Around(cursor, from)], now, valid) then from
    else FirstTimedOut(slots, cursor, now, valid, from + 1)
  }

  /** Where the producer puts a notification: a free slot, else a timed-out one, else nowhere. */
  function Place(slots: seq<Slot>, cursor: Index, now: nat, valid: nat): Option<Index>
    requires |slots| == SLOTS
  {
    var f := FirstFree(slots, cursor, 0);
    var o := FirstTimedOut(slots, cursor, now, valid, 0);
    if f < SLOTS then Some(Around(cursor, f))
    else if o < SLOTS then Some(Around(cursor, o))
    else None
  }

  /** The cursor moves behind where the search ended, which after a full circle is where it began. */
  function NextCursor(slots: seq<Slot>, cursor: Index): Index
    requires |slots| == SLOTS
  {
    Around(Around(cursor, FirstFree(slots, cursor, 0)), 1)
  }

  /** AddSendWarnToShm. */
  function Put(w: World, wid: nat, now: nat, s: Setup): World
    requires |w.slots| == SLOTS
  {
    match Place(w.slots, w.cursor, now, s.valid)
    case None => w
    case Some(i) =>
      var lost := w.slots[i];
      World(w.slots[i := Slot(wid, now, |w.accepted|)], NextCursor(w.slots, w.cursor),
            w.accepted + [Accepted(wid, now)], w.sent,
            if Free(lost) then w.expired else w.expired + [Expired(lost.token, now)])
  }

  // ---------- the consumers ----------

  /** One round of ScanSendWarnShm's loop. */
  function Visit(w: World, process: nat, i: Index, now: nat, s: Setup): World
    requires |w.slots| == SLOTS && s.processes > 0
  {
    var slot := w.slots[i];
    if Free(slot) then w
    else if slot.addTime + s.valid <= now then
      w.(slots := w.slots[i := slot.(wid := 0)], expired := w.expired + [Expired(slot.token, now)])
    else if slot.wid % s.processes != process then w
    else w.(slots := w.slots[i := Slot(0, 0, 0)], sent := w.sent + [Sent(slot.token, process, now)])
  }

  // ---------- runs ----------

  datatype Event = Offer(wid: nat, at: nat) | Look(process: nat, slot: Index, at: nat)

  function Step(w: World, e: Event, s: Setup): World
    requires |w.slots| == SLOTS && s.processes > 0
  {
    match e
    case Offer(wid, at) => Put(w, wid, at, s)
    case Look(process, i, at) => Visit(w, process, i, at, s)
  }

  function Run(es: seq<Event>, s: Setup): (w: World)
    requires s.processes > 0
    ensures |w.slots| == SLOTS
  {
    if es == [] then World(seq(SLOTS, _ => Slot(0, 0, 0)), 0, [], [], [])
    else Step(Run(es[..|es| - 1], s), es[|es| - 1], s)
  }

  /** Record ids are not 0. */
  ghost predicate RealIds(es: seq<Event>) {
    forall i :: 0 <= i < |es| && es[i].Offer? ==> es[i].wid != 0
  }

  // ---------- tokens are conserved ----------

  /** How many slots hold the token t. */
  function Pending(slots: seq<Slot>, t: nat): nat {
    if slots == [] then 0 else Pending(slots[..|slots| - 1], t) + Holds(slots[|slots| - 1], t)
  }

  function Holds(s: Slot, t: nat): nat {
    if !Free(s) && s.token == t then 1 else 0
  }

  function TimesSent(sent: seq<Sent>, t: nat): nat {
    if sent == [] then 0 else TimesSent(sent[..|sent| - 1], t) + if sent[|sent| - 1].token == t then 1 else 0
  }

  function TimesExpired(expired: seq<Expired>, t: nat): nat {
    if expired == [] then 0
    else TimesExpired(expired[..|expired| - 1], t) + if expired[|expired| - 1].token == t then 1 else 0
  }

  lemma {:induction false} PendingUpdate(slots: seq<Slot>, i: nat, s: Slot, t: nat)
    requires i < |slots|
    ensures Pending(slots[i := s], t) == Pending(slots, t) - Holds(slots[i], t) + Holds(s, t)
  {
    hide Holds;
    var n := |slots| - 1;
    if i < n {
      PendingUpdate(slots[..n], i, s, t);
      assert slots[i := s][..n] == slots[..n][i := s];
    } else {
      assert slots[i := s][..n] == slots[..n];
    }
  }

  lemma {:induction false} SentGrows(sent: seq<Sent>, x: Sent, t: nat)
    ensures TimesSent(sent + [x], t) == TimesSent(sent, t) + if x.token == t then 1 else 0
  {
    assert (sent + [x])[..|sent|] == sent;
  }

  lemma {:induction false} ExpiredGrows(expired: seq<Expired>, x: Expired, t: nat)
    ensures TimesExpired(expired + [x], t) == TimesExpired(expired, t) + if x.token == t then 1 else 0
  {
    assert (expired + [x])[..|expired|] == expired;
  }

  /** The accepted token t is in exactly one place, and no other token is anywhere. */
  ghost predicate Conserved(w: World, t: nat) {
    Pending(w.slots, t) + TimesSent(w.sent, t) + TimesExpired(w.expired, t) == if t < |w.accepted| then 1 else 0
  }

  lemma {:induction false} PutConserves(w: World, wid: nat, now: nat, s: Setup, t: nat)
    requires |w.slots| == SLOTS && wid != 0 && Conserved(w, t)
    ensures Conserved(Put(w, wid, now, s), t)
  {
    hide Place, Pending, TimesSent, TimesExpired, NextCursor;
    var place := Place(w.slots, w.cursor, now, s.valid);
    if place.Some? {
      var i := place.value;
      PendingUpdate(w.slots, i, Slot(wid, now, |w.accepted|), t);
      ExpiredGrows(w.expired, Expired(w.slots[i].token, now), t);
    }
  }

  lemma {:induction false} VisitConserves(w: World, process: nat, i: Index, now: nat, s: Setup, t: nat)
    requires |w.slots| == SLOTS && s.processes > 0 && Conserved(w, t)
    ensures Conserved(Visit(w, process, i, now, s), t)
  {
    hide Pending, TimesSent, TimesExpired;
    var slot := w.slots[i];
    PendingUpdate(w.slots, i, slot.(wid := 0), t);
    PendingUpdate(w.slots, i, Slot(0, 0, 0), t);
    ExpiredGrows(w.expired, Expired(slot.token, now), t);
    SentGrows(w.sent, Sent(slot.token, process, now), t);
  }

  lemma {:induction false} NonePending(slots: seq<Slot>, t: nat)
    requires forall i :: 0 <= i < |slots| ==> Free(slots[i])
    ensures Pending(slots, t) == 0
  {
    if slots != [] { NonePending(slots[..|slots| - 1], t); }
  }

  /** An accepted notification is at all times exactly one of pending, sent and expired, and only once. */
  lemma {:induction false} ExactlyOneFate(es: seq<Event>, s: Setup, t: nat)
    requires s.processes > 0 && RealIds(es)
    ensures Conserved(Run(es, s), t)
  {
    hide Put, Visit, Pending;
    if es == [] {
      NonePending(Run(es, s).slots, t);
    } else {
      var g, e := es[..|es| - 1], es[|es| - 1];
      ExactlyOneFate(g, s, t);
      match e
      case Offer(wid, at) => PutConserves(Run(g, s), wid, at, s, t);
      case Look(process, i, at) => VisitConserves(Run(g, s), process, i, at, s, t);
    }
  }

  // ---------- who sends, and when ----------

  ghost predicate SlotTrue(slot: Slot, w: World) {
    !Free(slot) ==>
      slot.token < |w.accepted| && w.accepted[slot.token] == Accepted(slot.wid, slot.addTime)
  }

  ghost predicate SentRight(x: Sent, w: World, s: Setup)
    requires s.processes > 0
  {
    && x.token < |w.accepted|
    && x.process == w.accepted[x.token].wid % s.processes
    && x.at < w.accepted[x.token].at + s.valid
  }

  ghost predicate ExpiredRight(x: Expired, w: World, s: Setup) {
    x.token < |w.accepted| && w.accepted[x.token].at + s.valid <= x.at
  }

  ghost predicate Right(w: World, s: Setup)
    requires s.processes > 0
  {
    && (forall i :: 0 <= i < |w.slots| ==> SlotTrue(w.slots[i], w))
    && (forall i :: 0 <= i < |w.sent| ==> SentRight(w.sent[i], w, s))
    && (forall i :: 0 <= i < |w.expired| ==> ExpiredRight(w.expired[i], w, s))
  }

  lemma {:induction false} PlaceIs(slots: seq<Slot>, cursor: Index, now: nat, valid: nat)
    requires |slots| == SLOTS
    ensures var p := Place(slots, cursor, now, valid);
      p.Some? ==> Free(slots[p.value]) || TimedOut(slots[p.value], now, valid)
    ensures Place(slots, cursor, now, valid).None? <==>
      forall i: Index :: !Free(slots[i]) && !TimedOut(slots[i], now, valid)
  {
    hide FirstFree, FirstTimedOut, Free, TimedOut;
    if Place(slots, cursor, now, valid).None? {
      forall i: Index
        ensures !Free(slots[i]) && !TimedOut(slots[i], now, valid)
      {
        var j := if i >= cursor then i - cursor else i + SLOTS - cursor;
        assert Around(cursor, j) == i;
      }
    }
  }

  /** What was right stays right while more is accepted. */
  lemma {:induction false} RightGrows(w: World, u: World, s: Setup)
    requires s.processes > 0 && w.accepted <= u.accepted
    ensures forall slot :: SlotTrue(slot, w) ==> SlotTrue(slot, u)
    ensures forall x :: SentRight(x, w, s) ==> SentRight(x, u, s)
    ensures forall x :: ExpiredRight(x, w, s) ==> ExpiredRight(x, u, s)
  {
  }

  lemma {:induction false} PutRight(w: World, wid: nat, now: nat, s: Setup)
    requires |w.slots| == SLOTS && s.processes > 0 && Right(w, s)
    ensures Right(Put(w, wid, now, s), s)
  {
    hide Place, NextCursor, SentRight, Free;
    PlaceIs(w.slots, w.cursor, now, s.valid);
    var u := Put(w, wid, now, s);
    RightGrows(w, u, s);
    hide SlotTrue, ExpiredRight;
    var place := Place(w.slots, w.cursor, now, s.valid);
    if place.Some? {
      NewIsTrue(Slot(wid, now, |w.accepted|), u);
      if !Free(w.slots[place.value]) { LostIsExpired(w.slots[place.value], w, now, s); }
    }
  }

  lemma {:induction false} NewIsTrue(slot: Slot, w: World)
    requires slot.token < |w.accepted| && w.accepted[slot.token] == Accepted(slot.wid, slot.addTime)
    ensures SlotTrue(slot, w)
  {
  }

  lemma {:induction false} LostIsExpired(slot: Slot, w: World, now: nat, s: Setup)
    requires !Free(slot) && SlotTrue(slot, w) && slot.addTime + s.valid <= now
    ensures ExpiredRight(Expired(slot.token, now), w, s)
  {
  }

  lemma {:induction false} TakenIsSent(slot: Slot, w: World, process: nat, now: nat, s: Setup)
    requires s.processes > 0 && slot.wid % s.processes == process
    requires !Free(slot) && SlotTrue(slot, w) && slot.addTime + s.valid > now
    ensures SentRight(Sent(slot.token, process, now), w, s)
  {
  }

  lemma {:induction false} VisitRight(w: World, process: nat, i: Index, now: nat, s: Setup)
    requires |w.slots| == SLOTS && s.processes > 0 && Right(w, s)
    ensures Right(Visit(w, process, i, now, s), s)
  {
    RightGrows(w, Visit(w, process, i, now, s), s);
    hide SlotTrue, SentRight, ExpiredRight;
    var slot := w.slots[i];
    if !Free(slot) {
      FreeIsTrue(slot.(wid := 0), w);
      FreeIsTrue(Slot(0, 0, 0), w);
      if slot.addTime + s.valid <= now {
        LostIsExpired(slot, w, now, s);
      } else if slot.wid % s.processes == process {
        TakenIsSent(slot, w, process, now, s);
      }
    }
  }

  /**
   Over any run: a notification is sent only by the process its record id selects and only
   before it expires, and none is given up or overwritten before it has expired.
   */
  lemma {:induction false} AlwaysRight(es: seq<Event>, s: Setup)
    requires s.processes > 0
    ensures Right(Run(es, s), s)
  {
    hide Put, Visit, SlotTrue, SentRight, ExpiredRight;
    if es == [] {
      FreeIsTrue(Slot(0, 0, 0), Run(es, s));
    } else {
      var g := es[..|es| - 1];
      AlwaysRight(g, s);
      match es[|es| - 1]
      case Offer(wid, at) => PutRight(Run(g, s), wid, at, s);
      case Look(process, i, at) => VisitRight(Run(g, s), process, i, at, s);
    }
  }

  lemma {:induction false} FreeIsTrue(slot: Slot, w: World)
    requires Free(slot)
    ensures SlotTrue(slot, w)
  {
  }

  /** The producer refuses exactly when every slot holds a notification that can still be sent or is just expiring. */
  lemma {:induction false} RefusedOnlyWhenFull(w: World, wid: nat, now: nat, s: Setup)
    requires |w.slots| == SLOTS
    ensures Put(w, wid, now, s).accepted == w.accepted <==>
      forall i: Index :: !Free(w.slots[i]) && now <= w.slots[i].addTime + s.valid
  {
    hide Place, NextCursor, Free;
    PlaceIs(w.slots, w.cursor, now, s.valid);
  }

  /** The first free slot from the cursor on, and the cursor left behind it. */
  lemma {:induction false} FirstFreePlace(slots: seq<Slot>, cursor: Index, now: nat, valid: nat, j: nat)
    requires |slots| == SLOTS && j < SLOTS && Free(slots[Around(cursor, j)])
    requires forall k :: 0 <= k < j ==> !Free(slots[Around(cursor, k)])
    ensures Place(slots, cursor, now, valid) == Some(Around(cursor, j))
    ensures NextCursor(slots, cursor) == Around(Around(cursor, j), 1)
  {
    hide Free, TimedOut, FirstFree, FirstTimedOut;
    assert FirstFree(slots, cursor, 0) == j;
  }

  lemma {:induction false} FirstTimedOutPlace(slots: seq<Slot>, cursor: Index, now: nat, valid: nat, j: nat)
    requires |slots| == SLOTS && j < SLOTS && forall i: Index :: !Free(slots[i])
    requires TimedOut(slots[Around(cursor, j)], now, valid)
    requires forall k :: 0 <= k < j ==> !TimedOut(slots[Around(cursor, k)], now, valid)
    ensures Place(slots, cursor, now, valid) == Some(Around(cursor, j))
    ensures NextCursor(slots, cursor) == Around(cursor, 1)
  {
    hide Free, TimedOut, FirstFree, FirstTimedOut;
    assert FirstTimedOut(slots, cursor, now, valid, 0) == j;
    assert FirstFree(slots, cursor, 0) == SLOTS;
  }

  /** The producer takes the first free slot from the cursor on and leaves the cursor behind it. */
  lemma {:induction false} TakesFirstFree(w: World, wid: nat, now: nat, s: Setup, j: nat)
    requires |w.slots| == SLOTS && j < SLOTS && Free(w.slots[Around(w.cursor, j)])
    requires forall k :: 0 <= k < j ==> !Free(w.slots[Around(w.cursor, k)])
    ensures Put(w, wid, now, s) ==
      World(w.slots[Around(w.cursor, j) := Slot(wid, now, |w.accepted|)], Around(Around(w.cursor, j), 1),
            w.accepted + [Accepted(wid, now)], w.sent, w.expired)
  {
    hide Place, NextCursor, Free;
    FirstFreePlace(w.slots, w.cursor, now, s.valid, j);
  }

  /** Without a free slot it overwrites the first timed-out one, which is given up. */
  lemma {:induction false} OverwritesFirstTimedOut(w: World, wid: nat, now: nat, s: Setup, j: nat)
    requires |w.slots| == SLOTS && j < SLOTS && forall i: Index :: !Free(w.slots[i])
    requires TimedOut(w.slots[Around(w.cursor, j)], now, s.valid)
    requires forall k :: 0 <= k < j ==> !TimedOut(w.slots[Around(w.cursor, k)], now, s.valid)
    ensures Put(w, wid, now, s) ==
      World(w.slots[Around(w.cursor, j) := Slot(wid, now, |w.accepted|)], Around(w.cursor, 1),
            w.accepted + [Accepted(wid, now)], w.sent,
            w.expired + [Expired(w.slots[Around(w.cursor, j)].token, now)])
  {
    hide Place, NextCursor, Free, TimedOut;
    FirstTimedOutPlace(w.slots, w.cursor, now, s.valid, j);
  }

  // ---------- what a look does ----------

  /** Slot i holds the accepted notification t. */
  predicate HoldsToken(w: World, i: Index, t: nat)
    requires |w.slots| == SLOTS
  {
    !Free(w.slots[i]) && w.slots[i].token == t
  }

  /**
   In any run a look at a slot that holds a notification gives it up once it has expired, sends it if its
   record id selects the process, and otherwise leaves it; whatever leaves the slot frees it.
   */
  lemma {:induction false} LookExactly(es: seq<Event>, s: Setup, process: nat, i: Index, at: nat, t: nat)
    requires s.processes > 0 && HoldsToken(Run(es, s), i, t)
    ensures t < |Run(es, s).accepted|
    ensures var w, u, n := Run(es, s), Run(es + [Look(process, i, at)], s), Run(es, s).accepted[t];
      && u.accepted == w.accepted && u.cursor == w.cursor
      && (forall k: Index :: k != i ==> u.slots[k] == w.slots[k])
      && if n.at + s.valid <= at then
           u.expired == w.expired + [Expired(t, at)] && u.sent == w.sent && Free(u.slots[i])
         else if n.wid % s.processes == process then
           u.sent == w.sent + [Sent(t, process, at)] && u.expired == w.expired && Free(u.slots[i])
         else u == w
  {
    hide Put;
    var w, e := Run(es, s), Look(process, i, at);
    assert (es + [e])[..|es|] == es;
    AlwaysRight(es, s);
    assert SlotTrue(w.slots[i], w);
  }

  // ---------- a process that looks everywhere ----------

  lemma {:induction false} NothingForgotten(es: seq<Event>, s: Setup, t: nat)
    requires s.processes > 0 && es != []
    ensures var w, u := Run(es[..|es| - 1], s), Run(es, s);
      && w.accepted <= u.accepted
      && TimesSent(w.sent, t) <= TimesSent(u.sent, t)
  {
    hide Place, NextCursor, TimesSent;
    var g, e := es[..|es| - 1], es[|es| - 1];
    if e.Look? { SentGrows(Run(g, s).sent, Sent(Run(g, s).slots[e.slot].token, e.process, e.at), t); }
  }

  lemma {:induction false} SentStays(es: seq<Event>, s: Setup, k: nat, t: nat)
    requires s.processes > 0 && k <= |es|
    ensures Run(es[..k], s).accepted <= Run(es, s).accepted
    ensures TimesSent(Run(es[..k], s).sent, t) <= TimesSent(Run(es, s).sent, t)
    decreases |es|
  {
    hide Run, TimesSent;
    if k < |es| {
      assert es[..|es| - 1][..k] == es[..k];
      SentStays(es[..|es| - 1], s, k, t);
      NothingForgotten(es, s, t);
    } else {
      assert es[..k] == es;
    }
  }

  /** A notification does not move: the slot that holds it has held it since it was accepted. */
  lemma {:induction false} HeldSince(es: seq<Event>, s: Setup, k: nat, i: Index, t: nat)
    requires s.processes > 0 && k <= |es| && t < |Run(es[..k], s).accepted| && HoldsToken(Run(es, s), i, t)
    ensures HoldsToken(Run(es[..k], s), i, t)
    decreases |es|
  {
    hide Run;
    if k < |es| {
      var g := es[..|es| - 1];
      assert g[..k] == es[..k];
      SentStays(g, s, k, t);
      HeldBefore(es, s, i, t);
      HeldSince(g, s, k, i, t);
    } else {
      assert es[..k] == es;
    }
  }

  lemma {:induction false} HeldBefore(es: seq<Event>, s: Setup, i: Index, t: nat)
    requires s.processes > 0 && es != [] && t < |Run(es[..|es| - 1], s).accepted| && HoldsToken(Run(es, s), i, t)
    ensures HoldsToken(Run(es[..|es| - 1], s), i, t)
  {
    hide Place, NextCursor;
  }

  lemma {:induction false} PendingIsHeld(slots: seq<Slot>, t: nat)
    requires |slots| <= SLOTS && Pending(slots, t) > 0
    ensures exists i: Index :: i < |slots| && !Free(slots[i]) && slots[i].token == t
  {
    var n := |slots| - 1;
    if Pending(slots[..n], t) > 0 {
      PendingIsHeld(slots[..n], t);
      var i: Index :| i < n && !Free(slots[..n][i]) && slots[..n][i].token == t;
      assert slots[i] == slots[..n][i];
    } else {
      var i: Index := n;
      assert !Free(slots[i]);
    }
  }

  lemma {:induction false} SentIsCounted(sent: seq<Sent>, t: nat)
    requires sent != [] && sent[|sent| - 1].token == t
    ensures TimesSent(sent, t) > 0
  {
  }

  ghost predicate LooksAt(es: seq<Event>, k: nat, process: nat, i: Index) {
    exists j :: k <= j < |es| && es[j].Look? && es[j].process == process && es[j].slot == i
  }

  /** From event k on, the process looks at every slot. */
  ghost predicate LooksEverywhere(es: seq<Event>, k: nat, process: nat) {
    forall i: Index :: LooksAt(es, k, process, i)
  }

  /**
   A notification accepted before event k has been sent, once, if since then its process has looked at
   every slot and no clock has passed its expiry; whatever the other processes and the producer did.
   */
  lemma {:induction false} SentInTime(es: seq<Event>, s: Setup, k: nat, t: nat)
    requires s.processes > 0 && RealIds(es) && k <= |es| && t < |Run(es[..k], s).accepted|
    requires var n := Run(es[..k], s).accepted[t];
      && LooksEverywhere(es, k, n.wid % s.processes)
      && forall j :: 0 <= j < |es| ==> es[j].at < n.at + s.valid
    ensures TimesSent(Run(es, s).sent, t) == 1
  {
    hide Run, RealIds, TimesSent, TimesExpired, Pending, LooksEverywhere, SentRight;
    SentStays(es, s, k, t);
    ExactlyOneFate(es, s, t);
    NotYetExpired(es, s, t);
    if Pending(Run(es, s).slots, t) > 0 {
      PendingIsHeld(Run(es, s).slots, t);
      var i: Index :| !Free(Run(es, s).slots[i]) && Run(es, s).slots[i].token == t;
      LookedAt(es, s, k, i, t);
    }
  }

  lemma {:induction false} NotYetExpired(es: seq<Event>, s: Setup, t: nat)
    requires s.processes > 0 && t < |Run(es, s).accepted|
    requires forall j :: 0 <= j < |es| ==> es[j].at < Run(es, s).accepted[t].at + s.valid
    ensures TimesExpired(Run(es, s).expired, t) == 0
  {
    hide Run, SentRight;
    AlwaysRight(es, s);
    var x := Run(es, s).expired;
    forall j | 0 <= j < |x|
      ensures x[j].token != t
    {
      assert ExpiredRight(x[j], Run(es, s), s);
      ExpiredByEvent(es, s, j);
    }
    NoneExpired(x, t);
  }

  lemma {:induction false} NoneExpired(expired: seq<Expired>, t: nat)
    requires forall j :: 0 <= j < |expired| ==> expired[j].token != t
    ensures TimesExpired(expired, t) == 0
  {
    if expired != [] { NoneExpired(expired[..|expired| - 1], t); }
  }

  lemma {:induction false} ExpiredByEvent(es: seq<Event>, s: Setup, j: nat)
    requires s.processes > 0 && j < |Run(es, s).expired|
    ensures exists m :: 0 <= m < |es| && es[m].at == Run(es, s).expired[j].at
  {
    hide Place, NextCursor;
    var n := |es| - 1;
    var g := es[..n];
    if j < |Run(g, s).expired| {
      ExpiredByEvent(g, s, j);
      var m :| 0 <= m < n && g[m].at == Run(g, s).expired[j].at;
      assert es[m] == g[m];
    } else {
      assert es[n].at == Run(es, s).expired[j].at;
    }
  }

  /** A slot that holds the notification to the end was looked at by its process, which sent it. */
  lemma {:induction false} LookedAt(es: seq<Event>, s: Setup, k: nat, i: Index, t: nat)
    requires s.processes > 0 && RealIds(es) && k <= |es| && t < |Run(es[..k], s).accepted|
    requires HoldsToken(Run(es, s), i, t)
    requires var n := Run(es[..k], s).accepted[t];
      && LooksEverywhere(es, k, n.wid % s.processes)
      && forall j :: 0 <= j < |es| ==> es[j].at < n.at + s.valid
    ensures TimesSent(Run(es, s).sent, t) > 0
  {
    hide Run, TimesSent, Pending, HoldsToken;
    var n := Run(es[..k], s).accepted[t];
    assert LooksAt(es, k, n.wid % s.processes, i);
    var j :| k <= j < |es| && es[j].Look? && es[j].process == n.wid % s.processes && es[j].slot == i;
    assert es[..j][..k] == es[..k];
    SentStays(es[..j], s, k, t);
    HeldSince(es, s, j, i, t);
    assert es[..j + 1] == es[..j] + [es[j]];
    LookExactly(es[..j], s, es[j].process, i, es[j].at, t);
    SentIsCounted(Run(es[..j + 1], s).sent, t);
    SentStays(es, s, j + 1, t);
  }
}
