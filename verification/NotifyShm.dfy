/** The shared notification array, with the producer's search and a consumer's scan. */
module NotifyShm {
  import opened Basics
  import opened NotifyQueue

  /** A consumer's whole scan, when no other process steps in between. */
  function Scanned(w: World, process: nat, n: nat, now: nat, s: Setup): (u: World)
    requires |w.slots| == SLOTS && s.processes > 0 && n <= SLOTS
    ensures |u.slots| == SLOTS
  {
    if n == 0 then w else Visit(Scanned(w, process, n - 1, now, s), process, n - 1, now, s)
  }

  /** The rounds of a scan as steps of a run. */
  function Looks(process: nat, n: nat, now: nat): seq<Event>
    requires n <= SLOTS
  {
    if n == 0 then [] else Looks(process, n - 1, now) + [Look(process, n - 1, now)]
  }

  /** A scan after any run is a run. */
  lemma {:induction false} ScanIsRun(es: seq<Event>, process: nat, n: nat, now: nat, s: Setup)
    requires s.processes > 0 && n <= SLOTS
    ensures Run(es + Looks(process, n, now), s) == Scanned(Run(es, s), process, n, now, s)
  {
    hide Visit;
    var all := es + Looks(process, n, now);
    if n == 0 {
      assert all == es;
    } else {
      var g := es + Looks(process, n - 1, now);
      ScanIsRun(es, process, n - 1, now, s);
      assert all[..|all| - 1] == g && all[|all| - 1] == Look(process, n - 1, now);
    }
  }

  lemma {:induction false} LookedGrows(es: seq<Event>, e: Event, k: nat, process: nat, i: Index)
    requires k <= |es|
    ensures LooksAt(es, k, process, i) || e == Look(process, i, e.at) ==> LooksAt(es + [e], k, process, i)
  {
    var all := es + [e];
    if LooksAt(es, k, process, i) {
      var j :| k <= j < |es| && es[j].Look? && es[j].process == process && es[j].slot == i;
      assert all[j] == es[j];
    }
    assert all[|es|] == e;
  }

  /** A whole scan looks everywhere. */
  lemma {:induction false} ScanLooksAt(es: seq<Event>, process: nat, n: nat, now: nat)
    requires n <= SLOTS
    ensures forall i: Index :: i < n ==> LooksAt(es + Looks(process, n, now), |es|, process, i)
  {
    hide LooksAt;
    if n > 0 {
      var g, e := es + Looks(process, n - 1, now), Look(process, n - 1, now);
      ScanLooksAt(es, process, n - 1, now);
      assert es + Looks(process, n, now) == g + [e];
      forall i: Index | i < n
        ensures LooksAt(g + [e], |es|, process, i)
      {
        LookedGrows(g, e, |es|, process, i);
      }
    }
  }

  predicate Lapsed(slot: Slot, now: nat, valid: nat) {
    !Free(slot) && slot.addTime + valid <= now
  }

  /** A notification that the process should send now. */
  predicate Due(slot: Slot, process: nat, now: nat, s: Setup)
    requires s.processes > 0
  {
    !Free(slot) && !Lapsed(slot, now, s.valid) && slot.wid % s.processes == process
  }

  /** The due notifications of the first n slots, in order. */
  function DueIn(slots: seq<Slot>, n: nat, process: nat, now: nat, s: Setup): seq<Sent>
    requires n <= |slots| && s.processes > 0
  {
    if n == 0 then []
    else
      var ds := DueIn(slots, n - 1, process, now, s);
      if Due(slots[n - 1], process, now, s) then ds + [Sent(slots[n - 1].token, process, now)] else ds
  }

  /** A scan sends exactly the due notifications, and leaves exactly those that are other processes' and still good. */
  lemma {:induction false} ScanSendsDue(w: World, process: nat, n: nat, now: nat, s: Setup)
    requires |w.slots| == SLOTS && s.processes > 0 && n <= SLOTS
    ensures var u := Scanned(w, process, n, now, s);
      && u.accepted == w.accepted && u.sent == w.sent + DueIn(w.slots, n, process, now, s)
      && (forall i: Index :: i >= n ==> u.slots[i] == w.slots[i])
      && forall i: Index :: i < n ==>
           if Free(w.slots[i]) || Lapsed(w.slots[i], now, s.valid) || Due(w.slots[i], process, now, s)
           then Free(u.slots[i]) else u.slots[i] == w.slots[i]
  {
    if n > 0 { ScanSendsDue(w, process, n - 1, now, s); }
  }

  lemma {:induction false} SearchStep(slots: seq<Slot>, cursor: Index, now: nat, valid: nat, j: nat)
    requires |slots| == SLOTS && j <= SLOTS
    ensures FirstFree(slots, cursor, j) ==
      if j == SLOTS || Free(slots[Around(cursor, j)]) then j else FirstFree(slots, cursor, j + 1)
    ensures FirstTimedOut(slots, cursor, now, valid, j) ==
      if j == SLOTS || TimedOut(slots[Around(cursor, j)], now, valid) then j
      else FirstTimedOut(slots, cursor, now, valid, j + 1)
  {
  }

  class NotifyArray {
    const slots: array<Slot>       // pSendWarnShm
    var cursor: Index              // s_iLastShmNodeIdx
    const setup: Setup
    var accepted: seq<Accepted>    // with sent and expired, the books the source does not keep
    var sent: seq<Sent>            // what was handed to SendWarn
    var expired: seq<Expired>

    ghost predicate Shaped() {
      slots.Length == SLOTS && setup.processes > 0
    }

    ghost function State(): World
      requires Shaped()
      reads this, slots
    {
      World(slots[..], cursor, accepted, sent, expired)
    }

    constructor (setup: Setup)
      requires setup.processes > 0
      ensures Shaped() && fresh(slots) && this.setup == setup && State() == Run([], setup)
    {
      this.setup := setup;
      slots := new Slot[SLOTS](_ => Slot(0, 0, 0));
      cursor, accepted, sent, expired := 0, [], [], [];
      new;
      assert slots[..] == seq(SLOTS, _ => Slot(0, 0, 0));
    }

    /** The producer's circular search: the first free slot, else the first timed-out one, else -1. */
    method Search(now: nat) returns (at: int, next: Index)
      requires Shaped()
      ensures var p := Place(slots[..], cursor, now, setup.valid);
        if p.Some? then at == p.value else at == -1
      ensures next == NextCursor(slots[..], cursor)
    {
      hide Free, TimedOut, FirstFree, FirstTimedOut;
      ghost var was := slots[..];
      ghost var oldest := FirstTimedOut(was, cursor, now, setup.valid, 0);
      var i, timedOut := cursor, -1;
      var j := 0;
      while j < SLOTS
        invariant 0 <= j <= SLOTS && i == Around(cursor, j)
        invariant FirstFree(was, cursor, 0) == FirstFree(was, cursor, j)
        invariant timedOut == -1 ==> oldest == FirstTimedOut(was, cursor, now, setup.valid, j)
        invariant timedOut != -1 ==> oldest < SLOTS && timedOut == Around(cursor, oldest)
      {
        SearchStep(was, cursor, now, setup.valid, j);
        if Free(slots[i]) {
          break;
        }
        if timedOut == -1 && TimedOut(slots[i], now, setup.valid) {
          timedOut := i;
        }
        i := i + 1;
        if i >= SLOTS {
          i := 0;
        }
        j := j + 1;
      }
      SearchStep(was, cursor, now, setup.valid, j);
      at := if j < SLOTS then i else timedOut;
      next := if i + 1 >= SLOTS then 0 else i + 1;
    }

    /** AddSendWarnToShm. */
    method Offer(wid: nat, now: nat)
      requires Shaped()
      modifies this, slots
      ensures State() == Put(old(State()), wid, now, setup)
    {
      hide Place, NextCursor;
      var at, next := Search(now);
      if at < 0 {
        return;
      }
      if !Free(slots[at]) {
        expired := expired + [Expired(slots[at].token, now)];
      }
      slots[at] := Slot(wid, now, |accepted|);
      accepted := accepted + [Accepted(wid, now)];
      cursor := next;
    }

    /** One round of a consumer's loop. */
    method Look(process: nat, i: Index, now: nat)
      requires Shaped()
      modifies this, slots
      ensures State() == Visit(old(State()), process, i, now, setup)
    {
      if slots[i].wid == 0 || slots[i].addTime + setup.valid <= now {
        if slots[i].wid != 0 {
          expired := expired + [Expired(slots[i].token, now)];
          slots[i] := slots[i].(wid := 0);
        }
        return;
      }
      if slots[i].wid % setup.processes != process {
        return;
      }
      sent := sent + [Sent(slots[i].token, process, now)];
      slots[i] := Slot(0, 0, 0);
    }

    /** ScanSendWarnShm: everything that is due is sent, and what is left is others' and still good. */
    method Scan(process: nat, now: nat)
      requires Shaped()
      modifies this, slots
      ensures State() == Scanned(old(State()), process, SLOTS, now, setup)
      ensures sent == old(sent) + DueIn(old(slots[..]), SLOTS, process, now, setup)
      ensures forall i :: 0 <= i < SLOTS && !Free(slots[i]) ==>
        slots[i] == old(slots[i]) && now < slots[i].addTime + setup.valid && slots[i].wid % setup.processes != process
    {
      hide Visit;
      ScanSendsDue(State(), process, SLOTS, now, setup);
      ghost var was := State();
      var j := 0;
      while j < SLOTS
        invariant 0 <= j <= SLOTS && State() == Scanned(old(State()), process, j, now, setup)
      {
        Look(process, j, now);
        j := j + 1;
      }
      assert forall i: Index :: slots[i] == State().slots[i] && was.slots[i] == old(slots[i]);
    }
  }
}
