/**
 Any run of reports and sweeps from an empty pool: the invariant, and the day counters
 against exact counting.
 */
module StrPoolHistory {
  import opened Basics
  import opened StrPoolState
  import opened StrPoolProofs
  import opened StrPoolRuns
  import opened StrPoolSweep
  import StrCounter

  /** Fresh shared memory is zero-filled. */
  function Empty(): Pool {
    Pool(seq(CAPACITY, _ => Node("", 0, 0)), 0, 0, map[])
  }

  function DropLast<T>(s: seq<T>): seq<T>
    requires s != []
  {
    s[..|s| - 1]
  }

  function Last<T>(s: seq<T>): T
    requires s != []
  {
    s[|s| - 1]
  }

  /** A report, or the writer's sweep reaching an attribute. */
  datatype Event = Take(report: Report) | Sweep(key: Key, at: int, day: int)

  function TimeOf(e: Event): int {
    if e.Take? then e.report.now else e.at
  }

  function DayOf(e: Event): int {
    if e.Take? then e.report.mday else e.day
  }

  function After(p: Pool, e: Event): Outcome<Pool> {
    match e
    case Take(r) => Step(p, r)
    case Sweep(k, at, day) => Done(if k in p.attrs then Swept(p, k, at, day) else p)
  }

  function Run(es: seq<Event>): Outcome<Pool> {
    if es == [] then Done(Empty())
    else
      match Run(DropLast(es))
      case Undefined => Undefined
      case Done(p) => After(p, Last(es))
  }

  /** Every report is safe when it arrives. */
  predicate RunSafe(es: seq<Event>) {
    es == [] ||
    (&& RunSafe(DropLast(es)) && Run(DropLast(es)).Done?
     && (Last(es).Take? ==> Safe(Run(DropLast(es)).value, Last(es).report)))
  }

  lemma {:induction false} EmptyWellFormed()
    ensures WellFormed(Empty())
  {
    assert WellFormedWith(Empty(), map[]);
    ChainsDetermined(Empty(), map[]);
  }

  /** The pool invariant in every state reachable through safe reports and sweeps. */
  lemma {:induction false} AlwaysWellFormed(es: seq<Event>)
    requires RunSafe(es)
    ensures Run(es).Done? && WellFormed(Run(es).value)
  {
    hide WellFormed, Step, Safe, Swept;
    if es == [] {
      EmptyWellFormed();
    } else {
      AlwaysWellFormed(DropLast(es));
      var p := Run(DropLast(es)).value;
      match Last(es)
      case Take(r) => SafeExactly(p, r);
      case Sweep(k, at, day) => if k in p.attrs { SweepKeeps(p, k, at, day); }
    }
  }

  // ---------- one day of one attribute ----------

  /** Times do not decrease and the day of the month is that of the event's day. */
  ghost predicate Dated(es: seq<Event>, dom: int -> int) {
    && (forall i, j :: 0 <= i < j < |es| ==> TimeOf(es[i]) <= TimeOf(es[j]))
    && (forall i :: 0 <= i < |es| ==> DayOf(es[i]) == dom(TimeOf(es[i]) / DAY_SEC))
  }

  /** Two days that follow each other have different days of the month. */
  ghost predicate Calendar(dom: int -> int) {
    forall d, e :: e == d + 1 ==> dom(d) != dom(e)
  }

  /** Whether the event is an accepted report of the attribute. */
  predicate Counts(p: Pool, e: Event, k: Key) {
    e.Take? && e.report.key == k && !Rejected(p, e.report)
  }

  /** When the attribute's last report was accepted. */
  function LastTime(es: seq<Event>, k: Key): Option<int>
    requires RunSafe(es)
  {
    if es == [] then None
    else if Counts(Run(DropLast(es)).value, Last(es), k) then Some(Last(es).report.now)
    else LastTime(DropLast(es), k)
  }

  predicate SameDay(t: Option<int>, now: int) {
    t.Some? && t.value / DAY_SEC == now / DAY_SEC
  }

  /** The reports the attribute received on the day of its last one. */
  function Today(es: seq<Event>, k: Key): (h: seq<StrCounter.DayReport>)
    requires RunSafe(es)
  {
    if es == [] then []
    else
      var p, e := Run(DropLast(es)).value, Last(es);
      if Counts(p, e, k) then
        (if SameDay(LastTime(DropLast(es), k), e.report.now) then Today(DropLast(es), k) else [])
        + [StrCounter.DayReport(e.report.str, e.report.v, Room(p, e.report))]
      else Today(DropLast(es), k)
  }

  /** What the history keeps of an attribute in the table. */
  ghost predicate Tracks(es: seq<Event>, p: Pool, k: Key, dom: int -> int)
    requires RunSafe(es) && k in p.attrs
  {
    && Entries(p, k) == StrCounter.DayEntries(Today(es, k))
    && (Entries(p, k) != [] ==> p.attrs[k].lastDay == dom(p.attrs[k].lastTime / DAY_SEC))
    && LastTime(es, k) == Some(p.attrs[k].lastTime)
    && es != [] && p.attrs[k].lastTime <= TimeOf(Last(es))
  }

  /** An attribute that is not in the table held nothing, or its day is over. */
  ghost predicate Gone(es: seq<Event>, k: Key)
    requires RunSafe(es)
  {
    || StrCounter.DayEntries(Today(es, k)) == []
    || (LastTime(es, k).Some? && es != [] && LastTime(es, k).value / DAY_SEC < TimeOf(Last(es)) / DAY_SEC)
  }

  ghost predicate Known(es: seq<Event>, p: Pool, dom: int -> int)
    requires RunSafe(es)
  {
    && (forall k :: k in p.attrs ==> Tracks(es, p, k, dom))
    && (forall k :: k !in p.attrs ==> Gone(es, k))
  }

  /** A chain that holds anything is stale exactly when its day is over. */
  lemma {:induction false} StaleIsOver(a: Attr, now: int, mday: int, dom: int -> int)
    requires Calendar(dom) && mday == dom(now / DAY_SEC)
    requires a.lastTime <= now && a.lastDay == dom(a.lastTime / DAY_SEC)
    ensures Stale(a, now, mday) <==> a.lastTime / DAY_SEC < now / DAY_SEC
  {
    if a.lastTime / DAY_SEC != now / DAY_SEC && a.lastTime + DAY_SEC >= now {
      assert now / DAY_SEC == a.lastTime / DAY_SEC + 1;
    }
  }

  /** The attribute's reports of the day before the last one. */
  function EarlierToday(es: seq<Event>, r: Report): seq<StrCounter.DayReport>
    requires RunSafe(es)
  {
    if SameDay(LastTime(es, r.key), r.now) then Today(es, r.key) else []
  }

  lemma {:induction false} NoEntries()
    ensures StrCounter.DayEntries([]) == []
  {
  }

  /** The chain a report meets holds what was counted earlier that day. */
  lemma {:induction false} BaseIsEarlier(es: seq<Event>, p: Pool, r: Report, dom: int -> int)
    requires RunSafe(es) && Known(es, p, dom) && Calendar(dom)
    requires r.mday == dom(r.now / DAY_SEC) && (es != [] ==> TimeOf(Last(es)) <= r.now)
    ensures Base(p, r) == StrCounter.DayEntries(EarlierToday(es, r))
  {
    hide Entries, RunSafe, Calendar, Today, LastTime, Stale, StrCounter.DayEntries;
    NoEntries();
    var k := r.key;
    if k in p.attrs {
      assert Tracks(es, p, k, dom);
      if Entries(p, k) != [] { StaleIsOver(p.attrs[k], r.now, r.mday, dom); }
    } else {
      assert Gone(es, k);
    }
  }

  lemma {:induction false} TodayGrows(es: seq<Event>, p: Pool, r: Report)
    requires es != [] && RunSafe(es) && Done(p) == Run(DropLast(es))
    requires Last(es) == Take(r) && !Rejected(p, r)
    ensures LastTime(es, r.key) == Some(r.now)
    ensures StrCounter.DayEntries(Today(es, r.key))
         == StrCounter.Add(StrCounter.DayEntries(EarlierToday(DropLast(es), r)), r.str, r.v, Room(p, r))
  {
    hide Room, Rejected, StrCounter.Add;
    var g := EarlierToday(DropLast(es), r);
    var d := StrCounter.DayReport(r.str, r.v, Room(p, r));
    assert Today(es, r.key) == g + [d];
    assert (g + [d])[..|g|] == g;
  }

  /** An event that is no accepted report of the attribute leaves its history alone. */
  lemma {:induction false} HistoryStays(es: seq<Event>, p: Pool, k: Key)
    requires es != [] && RunSafe(es) && Done(p) == Run(DropLast(es)) && !Counts(p, Last(es), k)
    ensures Today(es, k) == Today(DropLast(es), k) && LastTime(es, k) == LastTime(DropLast(es), k)
  {
    hide RunSafe, Counts;
  }

  lemma {:induction false} TracksOwn(es: seq<Event>, p: Pool, r: Report, q: Pool, dom: int -> int)
    requires es != [] && RunSafe(es) && Done(p) == Run(DropLast(es)) && Known(DropLast(es), p, dom)
    requires Calendar(dom) && r.mday == dom(r.now / DAY_SEC)
    requires |es| > 1 ==> TimeOf(Last(DropLast(es))) <= r.now
    requires Last(es) == Take(r) && !Rejected(p, r) && Moves(p, r, q)
    ensures r.key in q.attrs && Tracks(es, q, r.key, dom)
  {
    BaseIsEarlier(DropLast(es), p, r, dom);
    TodayGrows(es, p, r);
    hide Chain, EntriesOf, Room, RunSafe, Calendar, Today, LastTime, EarlierToday, Base, Known,
         StrCounter.Add, StrCounter.DayEntries;
    EntriesInContents(q, r.key);
  }

  /** Another attribute whose record and contents stay is tracked as before. */
  lemma {:induction false} TracksOther(es: seq<Event>, p: Pool, q: Pool, k: Key, dom: int -> int)
    requires es != [] && RunSafe(es) && Done(p) == Run(DropLast(es)) && !Counts(p, Last(es), k)
    requires k in p.attrs && Tracks(DropLast(es), p, k, dom)
    requires TimeOf(Last(DropLast(es))) <= TimeOf(Last(es))
    requires k in q.attrs && q.attrs[k] == p.attrs[k] && k in Contents(p) && k in Contents(q)
    requires Contents(q)[k] == Contents(p)[k]
    ensures Tracks(es, q, k, dom)
  {
    hide Chain, EntriesOf, RunSafe, Counts, Today, LastTime;
    HistoryStays(es, p, k);
    EntriesInContents(p, k);
    EntriesInContents(q, k);
  }

  lemma {:induction false} StaysGone(es: seq<Event>, p: Pool, k: Key)
    requires es != [] && RunSafe(es) && Done(p) == Run(DropLast(es)) && !Counts(p, Last(es), k)
    requires Gone(DropLast(es), k) && (|es| > 1 ==> TimeOf(Last(DropLast(es))) <= TimeOf(Last(es)))
    ensures Gone(es, k)
  {
    hide RunSafe, Counts, Today, LastTime, StrCounter.DayEntries;
    HistoryStays(es, p, k);
  }

  /** A swept attribute held nothing, or its day was over. */
  lemma {:induction false} SweptIsGone(es: seq<Event>, p: Pool, k: Key, dom: int -> int)
    requires es != [] && RunSafe(es) && Done(p) == Run(DropLast(es)) && Last(es).Sweep?
    requires k in p.attrs && Tracks(DropLast(es), p, k, dom) && Calendar(dom)
    requires Last(es).day == dom(Last(es).at / DAY_SEC) && TimeOf(Last(DropLast(es))) <= Last(es).at
    requires Stale(p.attrs[k], Last(es).at, Last(es).day)
    ensures Gone(es, k)
  {
    hide Entries, RunSafe, Today, LastTime, Calendar, Stale, StrCounter.DayEntries;
    HistoryStays(es, p, k);
    if Entries(p, k) != [] { StaleIsOver(p.attrs[k], Last(es).at, Last(es).day, dom); }
  }

  lemma {:induction false} TakeKnown(es: seq<Event>, p: Pool, r: Report, q: Pool, dom: int -> int)
    requires es != [] && RunSafe(es) && Done(p) == Run(DropLast(es)) && Known(DropLast(es), p, dom)
    requires Calendar(dom) && r.mday == dom(r.now / DAY_SEC)
    requires |es| > 1 ==> TimeOf(Last(DropLast(es))) <= r.now
    requires Last(es) == Take(r) && !Rejected(p, r) && Moves(p, r, q)
    ensures Known(es, q, dom)
  {
    hide Tracks, Gone, Chain, EntriesOf, RunSafe, Calendar, Rejected, Base, Room, StrCounter.Add;
    KeysOfChains(p);
    KeysOfChains(q);
    forall k | k in q.attrs
      ensures Tracks(es, q, k, dom)
    {
      if k == r.key {
        TracksOwn(es, p, r, q, dom);
      } else {
        LastTracked(es, p, k, dom);
        TracksOther(es, p, q, k, dom);
      }
    }
    forall k | k !in q.attrs
      ensures Gone(es, k)
    {
      StaysGone(es, p, k);
    }
  }

  lemma {:induction false} LastTracked(es: seq<Event>, p: Pool, k: Key, dom: int -> int)
    requires es != [] && RunSafe(es) && k in p.attrs && Tracks(DropLast(es), p, k, dom)
    ensures |es| > 1
  {
  }

  /** An event that leaves the pool as it is, for whatever reason. */
  lemma {:induction false} IdleKnown(es: seq<Event>, p: Pool, dom: int -> int)
    requires es != [] && RunSafe(es) && Done(p) == Run(DropLast(es)) && Known(DropLast(es), p, dom)
    requires forall k :: !Counts(p, Last(es), k)
    requires |es| > 1 ==> TimeOf(Last(DropLast(es))) <= TimeOf(Last(es))
    ensures Known(es, p, dom)
  {
    hide Tracks, Gone, Chain, EntriesOf, RunSafe, Counts;
    KeysOfChains(p);
    forall k | k in p.attrs
      ensures Tracks(es, p, k, dom)
    {
      LastTracked(es, p, k, dom);
      TracksOther(es, p, p, k, dom);
    }
    forall k | k !in p.attrs
      ensures Gone(es, k)
    {
      StaysGone(es, p, k);
    }
  }

  lemma {:induction false} SweepKnown(es: seq<Event>, p: Pool, k: Key, dom: int -> int)
    requires es != [] && RunSafe(es) && Done(p) == Run(DropLast(es)) && Known(DropLast(es), p, dom)
    requires WellFormed(p) && Calendar(dom) && k in p.attrs && Last(es).Sweep? && Last(es).key == k
    requires Last(es).day == dom(Last(es).at / DAY_SEC)
    requires |es| > 1 ==> TimeOf(Last(DropLast(es))) <= Last(es).at
    requires Stale(p.attrs[k], Last(es).at, Last(es).day)
    ensures Known(es, Swept(p, k, Last(es).at, Last(es).day), dom)
  {
    hide Tracks, Gone, WellFormed, Chain, EntriesOf, RunSafe, Calendar, Stale, Swept;
    var q := Swept(p, k, Last(es).at, Last(es).day);
    SweepKeeps(p, k, Last(es).at, Last(es).day);
    SweepTable(p, k, Last(es).at, Last(es).day);
    KeysOfChains(p);
    KeysOfChains(q);
    forall l | l in q.attrs
      ensures Tracks(es, q, l, dom)
    {
      LastTracked(es, p, l, dom);
      TracksOther(es, p, q, l, dom);
    }
    forall l | l !in q.attrs
      ensures Gone(es, l)
    {
      if l == k {
        LastTracked(es, p, k, dom);
        SweptIsGone(es, p, k, dom);
      } else {
        StaysGone(es, p, l);
      }
    }
  }

  /** Each attribute's chain is the abstract counter run over the attribute's reports of its current day. */
  lemma {:induction false} HistoryRefines(es: seq<Event>, dom: int -> int)
    requires RunSafe(es) && Dated(es, dom) && Calendar(dom)
    ensures Run(es).Done? && Known(es, Run(es).value, dom)
  {
    hide WellFormed, Step, Safe, Tracks, Moves, Calendar, Rejected, Known, Swept, Stale;
    AlwaysWellFormed(es);
    if es == [] {
      EmptyKnown(dom);
    } else {
      var g, p := DropLast(es), Run(DropLast(es)).value;
      HistoryRefines(g, dom);
      AlwaysWellFormed(g);
      assert |g| > 0 ==> TimeOf(Last(g)) <= TimeOf(Last(es)) by { assert |g| > 0 ==> es[|g| - 1] == Last(g); }
      assert es[|g|] == Last(es);
      match Last(es)
      case Take(r) =>
        RejectedStays(p, r);
        if Rejected(p, r) {
          IdleKnown(es, p, dom);
        } else {
          StepRefines(p, r);
          TakeKnown(es, p, r, Run(es).value, dom);
        }
      case Sweep(k, at, day) =>
        if k in p.attrs && Stale(p.attrs[k], at, day) {
          SweepKnown(es, p, k, dom);
        } else {
          NotSwept(p, k, at, day);
          IdleKnown(es, p, dom);
        }
    }
  }

  lemma {:induction false} EmptyKnown(dom: int -> int)
    ensures RunSafe([]) && Known([], Empty(), dom)
  {
    NoEntries();
  }

  lemma {:induction false} NotSwept(p: Pool, k: Key, now: int, mday: int)
    requires k in p.attrs ==> !Stale(p.attrs[k], now, mday)
    ensures After(p, Sweep(k, now, mday)) == Done(p)
  {
  }

  lemma {:induction false} RejectedStays(p: Pool, r: Report)
    ensures Rejected(p, r) ==> Step(p, r) == Done(p)
  {
  }

  /** No stored value ever exceeds its string's true total of the day, and stored strings stay distinct. */
  lemma {:induction false} StoredNeverExceeds(es: seq<Event>, dom: int -> int, k: Key)
    requires RunSafe(es) && Dated(es, dom) && Calendar(dom)
    requires Run(es).Done? && k in Run(es).value.attrs && StrCounter.Fits(Today(es, k))
    ensures var stored := Entries(Run(es).value, k);
      && StrCounter.DistinctStrings(stored)
      && (forall e :: e in stored ==> 0 < e.val <= StrCounter.Total(Today(es, k), e.str))
  {
    HistoryRefines(es, dom);
    StrCounter.NeverOverstates(Today(es, k));
    assert Tracks(es, Run(es).value, k, dom);
  }

  /** With few distinct strings and a pool that never refuses, the chain is the exact per-string sums. */
  lemma {:induction false} StoredIsExact(es: seq<Event>, dom: int -> int, k: Key)
    requires RunSafe(es) && Dated(es, dom) && Calendar(dom)
    requires Run(es).Done? && k in Run(es).value.attrs && StrCounter.Fits(Today(es, k))
    requires forall i :: 0 <= i < |Today(es, k)| ==> Today(es, k)[i].room
    requires |StrCounter.Strings(Today(es, k))| <= MAX_CHAIN
    ensures StrCounter.ExactFor(Entries(Run(es).value, k), Today(es, k))
  {
    HistoryRefines(es, dom);
    StrCounter.ExactWhenFewStrings(Today(es, k));
    assert Tracks(es, Run(es).value, k, dom);
  }
}
