/** Runs of one (attribute, machine): reports interleaved with recycling and with the database writer. */
module ReportRuns {
  import opened Basics
  import opened ReportClock
  import opened ReportWindow

  // ---------- the database writer ----------

  /** The value WriteAttrDataToDb takes for a node. */
  function DbValue(w: Window, now: nat): Uint32 {
    var idx := Slot(now, w.period);
    if now >= w.lastTime + w.period * 60 then 0
    else if idx == w.minIdx then w.last
    else if w.minIdx + 1 == idx then w.cur
    else 0
  }

  predicate Saves(w: Window, now: nat) {
    && DbValue(w, now) > 0
    && !(w.toDbIdx == Slot(now, w.period) && w.toDbTime + w.period * 60 >= now)
  }

  function Marked(w: Window, now: nat): Window {
    w.(toDbIdx := Slot(now, w.period), toDbTime := now)
  }

  // ---------- runs ----------

  /** A report, one recycling pass, or one pass of the database writer. */
  datatype Event =
    | Report(at: nat, v: Uint32, seedIdx: int, seedTime: int)
    | Recycle(at: nat)
    | SaveDb(at: nat)

  /** A row of the day table; its report_time is the time of insertion. */
  datatype Row = Row(at: nat, val: Uint32)

  datatype Cell = Cell(node: Option<Window>, rows: seq<Row>)

  /** CheckWarnAttrHashNode: silent for ten periods and not cumulative. */
  predicate Recyclable(w: Window, now: nat, p: Period) {
    !w.dataType.TotalType? && w.lastTime + p * 60 * 10 <= now
  }

  function Apply(c: Cell, e: Event, ty: DataType, p: Period): Cell {
    match e
    case Report(at, v, seedIdx, seedTime) =>
      c.(node := Some(if c.node.Some? then AddReport(c.node.value, at, v, ty, p)
                      else Fresh(at, v, ty, p, seedIdx, seedTime)))
    case Recycle(at) =>
      if c.node.Some? && Recyclable(c.node.value, at, p) then c.(node := None) else c
    case SaveDb(at) =>
      if c.node.Some? && Saves(c.node.value, at)
      then Cell(Some(Marked(c.node.value, at)), c.rows + [Row(at, DbValue(c.node.value, at))])
      else c
  }

  function Run(es: seq<Event>, ty: DataType, p: Period): Cell {
    if es == [] then Cell(None, [])
    else Apply(Run(es[..|es| - 1], ty, p), es[|es| - 1], ty, p)
  }

  function Reports(es: seq<Event>): (h: seq<Rep>) {
    if es == [] then []
    else
      var e, h := es[|es| - 1], Reports(es[..|es| - 1]);
      if e.Report? then h + [Rep(e.at, e.v)] else h
  }

  ghost predicate Chronological(es: seq<Event>) {
    forall i, j :: 0 <= i < j < |es| ==> es[i].at <= es[j].at
  }

  lemma {:induction false} ReportsInOrder(es: seq<Event>)
    requires Chronological(es)
    ensures InOrder(Reports(es))
    ensures Reports(es) != [] ==> Reports(es)[|Reports(es)| - 1].at <= es[|es| - 1].at
    ensures es == [] ==> Reports(es) == []
  {
    if es != [] {
      var g := es[..|es| - 1];
      ReportsInOrder(g);
      if g != [] { assert g[|g| - 1].at <= es[|es| - 1].at; }
    }
  }

  /** The node after a run, against the run's reports. */
  ghost predicate NodeExact(n: Option<Window>, h: seq<Rep>, now: nat, ty: DataType, p: Period) {
    match n
    case Some(w) => h != [] && Exact(w, h, ty, p)
    case None => h != [] ==> h[|h| - 1].at + p * 60 * 10 <= now
  }

  /** After a recycled node the next report starts from nothing that still counts. */
  lemma {:induction false} FreshExact(h: seq<Rep>, e: Event, ty: DataType, p: Period)
    requires e.Report? && Steady(p) && InOrder(h + [Rep(e.at, e.v)])
    requires h != [] ==> h[|h| - 1].at + p * 60 * 10 <= e.at
    ensures Exact(Fresh(e.at, e.v, ty, p, e.seedIdx, e.seedTime), h + [Rep(e.at, e.v)], ty, p)
  {
    hide Slot, Day, InSlot;
    if h != [] {
      var t := h[|h| - 1].at;
      DayMonotone(t, e.at);
      if Day(t) == Day(e.at) { SlotGap(t, e.at, p); }
    }
    RestartExact(Fresh(e.at, e.v, ty, p, e.seedIdx, e.seedTime), h, Rep(e.at, e.v), ty, p);
  }

  /**
   In every reachable state the window holds the aggregates of the last report's slot and
   of the two slots before it, for every steady period.
   */
  lemma {:induction false} WindowAlwaysExact(es: seq<Event>, ty: DataType, p: Period)
    requires es != [] && Chronological(es) && !ty.TotalType? && Steady(p) && p <= MAX_PERIOD
    ensures NodeExact(Run(es, ty, p).node, Reports(es), es[|es| - 1].at, ty, p)
  {
    hide Slot, Exact, AddReport, Saves, DbValue;
    var g, e := es[..|es| - 1], es[|es| - 1];
    ReportsInOrder(es);
    var c := Run(g, ty, p);
    if g == [] {
      if e.Report? { FreshExact([], e, ty, p); }
    } else {
      assert g[|g| - 1].at <= e.at;
      WindowAlwaysExact(g, ty, p);
      if e.Report? {
        if c.node.Some? {
          ReportExact(c.node.value, Reports(g), Rep(e.at, e.v), ty, p);
        } else {
          FreshExact(Reports(g), e, ty, p);
        }
      } else if c.node.Some? {
        MarksDoNotMatter(c.node.value, Reports(g), e.at, ty, p);
      }
    }
  }

  lemma {:induction false} MarksDoNotMatter(w: Window, h: seq<Rep>, now: nat, ty: DataType, p: Period)
    requires h != [] && Exact(w, h, ty, p)
    ensures Exact(Marked(w, now), h, ty, p) && w.lastTime == h[|h| - 1].at
  {
  }

  lemma {:induction false} KeptByReport(w: Window, now: nat, v: Uint32, ty: DataType, p: Period)
    ensures var u := AddReport(w, now, v, ty, p);
      && u.toDbIdx == w.toDbIdx && u.toDbTime == w.toDbTime
      && u.lastTime == now && u.period == p && u.dataType == ty
  {
  }

  lemma {:induction false} NodeTimes(es: seq<Event>, ty: DataType, p: Period)
    requires es != [] && Chronological(es)
    ensures var n := Run(es, ty, p).node;
      n.Some? ==> n.value.period == p && n.value.dataType == ty && n.value.lastTime <= es[|es| - 1].at
  {
    hide Slot, AddReport, Saves, DbValue;
    var g, e := es[..|es| - 1], es[|es| - 1];
    if g != [] {
      NodeTimes(g, ty, p);
      assert g[|g| - 1].at <= e.at;
      var n := Run(g, ty, p).node;
      if n.Some? && e.Report? { KeptByReport(n.value, e.at, e.v, ty, p); }
    }
  }

  /** A node that is there after a recycling pass was heard of less than ten periods before that pass, or later. */
  lemma {:induction false} SurvivesRecycling(es: seq<Event>, ty: DataType, p: Period, k: nat)
    requires Chronological(es) && !ty.TotalType? && k < |es| && es[k].Recycle?
    requires Run(es, ty, p).node.Some?
    ensures es[k].at < Run(es, ty, p).node.value.lastTime + p * 60 * 10
    decreases |es|
  {
    hide Slot, AddReport, Saves, DbValue;
    var g, e := es[..|es| - 1], es[|es| - 1];
    if g != [] { NodeTimes(g, ty, p); }
    if k < |g| {
      assert g[k] == es[k];
      var n := Run(g, ty, p).node;
      if e.Report? {
        if n.Some? { KeptByReport(n.value, e.at, e.v, ty, p); }
      } else {
        SurvivesRecycling(g, ty, p, k);
      }
    }
  }

  // ---------- rows of the day table ----------

  /** A value is saved only for the slot just before the current one, once complete. */
  lemma {:induction false} SaveSound(w: Window, h: seq<Rep>, now: nat, ty: DataType, p: Period)
    requires h != [] && Exact(w, h, ty, p) && h[|h| - 1].at <= now
    requires Steady(p) && p <= MAX_PERIOD && Saves(w, now)
    ensures DbValue(w, now) == Aggregate(InSlot(h, Day(now), Slot(now, p) - 1, p), ty)
  {
    hide Slot, Day, InSlot, TwoBack;
    var t := h[|h| - 1].at;
    if Day(t) != Day(now) { SlotAtMidnight(t, now, p); }
  }

  /** The marks say that the node was saved in this slot within the last period. */
  predicate SavedNow(w: Window, now: nat, p: Period) {
    w.toDbIdx == Slot(now, p) && w.toDbTime + p * 60 >= now
  }

  /** Exactly when a pass saves: within a period of the last report, with something in the slot before, and once. */
  lemma {:induction false} SavesExactly(w: Window, h: seq<Rep>, now: nat, ty: DataType, p: Period)
    requires h != [] && InOrder(h) && Exact(w, h, ty, p) && h[|h| - 1].at <= now
    requires Steady(p) && p <= MAX_PERIOD
    ensures Saves(w, now) <==>
      && now < h[|h| - 1].at + p * 60 && !SavedNow(w, now, p)
      && Aggregate(InSlot(h, Day(now), Slot(now, p) - 1, p), ty) > 0
  {
    hide Slot, Day, InSlot, TwoBack, Aggregate;
    var t, s := h[|h| - 1].at, Slot(now, p);
    EmptyAggregate(ty);
    DayMonotone(t, now);
    if now < t + p * 60 {
      if Day(t) != Day(now) {
        SlotAtMidnight(t, now, p);
        NothingYet(h, Day(now), s - 1, p);
      } else {
        SlotMonotone(t, now, p);
        if s > Slot(t, p) + 1 { NothingYet(h, Day(now), s - 1, p); }
      }
    }
  }

  lemma {:induction false} EmptyAggregate(ty: DataType)
    ensures Aggregate([], ty) == 0
  {
  }

  /** A database pass after any run adds a row, the aggregate of the slot before, exactly in that case. */
  lemma {:induction false} PassWritesExactly(es: seq<Event>, now: nat, ty: DataType, p: Period)
    requires es != [] && Chronological(es) && !ty.TotalType? && Steady(p) && p <= MAX_PERIOD
    requires es[|es| - 1].at <= now && Run(es, ty, p).node.Some?
    ensures Reports(es) != []
    ensures var h, w, before := Reports(es), Run(es, ty, p).node.value, Run(es, ty, p).rows;
      var a := Aggregate(InSlot(h, Day(now), Slot(now, p) - 1, p), ty);
      Run(es + [SaveDb(now)], ty, p).rows ==
        if now < h[|h| - 1].at + p * 60 && a > 0 && !SavedNow(w, now, p) then before + [Row(now, a)] else before
  {
    hide Run, Reports, Slot, Day, InSlot, Exact, Aggregate, Saves, DbValue, SavedNow;
    WindowAlwaysExact(es, ty, p);
    ReportsInOrder(es);
    var w := Run(es, ty, p).node.value;
    SavesExactly(w, Reports(es), now, ty, p);
    if Saves(w, now) { SaveSound(w, Reports(es), now, ty, p); }
    SaveApplied(es, now, ty, p);
  }

  lemma {:induction false} SaveApplied(es: seq<Event>, now: nat, ty: DataType, p: Period)
    ensures Run(es + [SaveDb(now)], ty, p) == Apply(Run(es, ty, p), SaveDb(now), ty, p)
  {
    assert (es + [SaveDb(now)])[..|es|] == es;
  }

  /** Later reports do not reach a slot that lies before theirs. */
  lemma {:induction false} LaterReportsElsewhere(h: seq<Rep>, r: Rep, now: nat, p: Period)
    requires Steady(p) && now <= r.at
    ensures InSlot(h + [r], Day(now), Slot(now, p) - 1, p) == InSlot(h, Day(now), Slot(now, p) - 1, p)
  {
    hide Slot, Day;
    InSlotSnoc(h, r, Day(now), Slot(now, p) - 1, p);
    if Day(r.at) == Day(now) { SlotMonotone(now, r.at, p); }
  }

  /** Every row is the aggregate of all reports of the slot before the one it was written in. */
  lemma {:induction false} RowsSound(es: seq<Event>, ty: DataType, p: Period)
    requires Chronological(es) && !ty.TotalType? && Steady(p) && p <= MAX_PERIOD
    ensures forall row :: row in Run(es, ty, p).rows ==>
      row.val == Aggregate(InSlot(Reports(es), Day(row.at), Slot(row.at, p) - 1, p), ty) && row.val > 0
    ensures forall row :: row in Run(es, ty, p).rows ==> row.at <= es[|es| - 1].at
  {
    hide Slot, Day, InSlot, Exact, AddReport, DbValue, Aggregate;
    if es != [] {
      var g, e := es[..|es| - 1], es[|es| - 1];
      RowsSound(g, ty, p);
      if g != [] { assert g[|g| - 1].at <= e.at; }
      var c := Run(g, ty, p);
      if e.Report? {
        forall row | row in c.rows
          ensures InSlot(Reports(es), Day(row.at), Slot(row.at, p) - 1, p)
               == InSlot(Reports(g), Day(row.at), Slot(row.at, p) - 1, p)
        {
          LaterReportsElsewhere(Reports(g), Rep(e.at, e.v), row.at, p);
        }
      } else if e.SaveDb? && c.node.Some? && Saves(c.node.value, e.at) {
        WindowAlwaysExact(g, ty, p);
        ReportsInOrder(g);
        SaveSound(c.node.value, Reports(g), e.at, ty, p);
      }
    }
  }

  /** Which slot a time belongs to, comparable across days. */
  function SlotKey(t: nat, p: Period): nat {
    Day(t) * DAY_MIN + Slot(t, p)
  }

  /** The node remembers the last row, or its life began long after that row. */
  ghost predicate Remembers(c: Cell, now: nat, p: Period) {
    c.rows != [] ==>
      var at := c.rows[|c.rows| - 1].at;
      && at <= now
      && match c.node
         case None => at + p * 60 * 9 <= now
         case Some(w) =>
           && at < w.lastTime + p * 60
           && ((w.toDbIdx == Slot(at, p) && w.toDbTime == at) || at + p * 60 * 9 <= w.lastTime)
  }

  ghost predicate KeysAscend(rows: seq<Row>, p: Period) {
    forall i, j :: 0 <= i < j < |rows| ==> SlotKey(rows[i].at, p) < SlotKey(rows[j].at, p)
  }

  /** A second save is always in a later slot. */
  lemma {:induction false} NextSaveLater(w: Window, at: nat, now: nat, p: Period)
    requires Steady(p) && at <= now && w.period == p && Saves(w, now) && w.lastTime <= now
    requires (w.toDbIdx == Slot(at, p) && w.toDbTime == at) || at + p * 60 * 9 <= w.lastTime
    ensures SlotKey(at, p) < SlotKey(now, p)
  {
    hide Slot, Day;
    DayMonotone(at, now);
    if Day(at) == Day(now) {
      SlotMonotone(at, now, p);
      if Slot(at, p) == Slot(now, p) {
        SlotLength(at, now, p);
      }
    }
  }

  /** At most one row for each slot of each day, over any run. */
  lemma {:induction false} RowsAtMostOnce(es: seq<Event>, ty: DataType, p: Period)
    requires Chronological(es) && Steady(p)
    ensures KeysAscend(Run(es, ty, p).rows, p)
    ensures es != [] ==> Remembers(Run(es, ty, p), es[|es| - 1].at, p)
  {
    hide Slot, Day, InSlot, AddReport, DbValue, SlotKey, Saves;
    if es != [] {
      var g, e := es[..|es| - 1], es[|es| - 1];
      RowsAtMostOnce(g, ty, p);
      if g != [] {
        assert g[|g| - 1].at <= e.at;
        NodeTimes(g, ty, p);
        RowsApply(Run(g, ty, p), g[|g| - 1].at, e, ty, p);
      }
    }
  }

  lemma {:induction false} RowsApply(c: Cell, now: nat, e: Event, ty: DataType, p: Period)
    requires Steady(p) && now <= e.at && KeysAscend(c.rows, p) && Remembers(c, now, p)
    requires c.node.Some? ==> c.node.value.period == p && c.node.value.lastTime <= now
    ensures KeysAscend(Apply(c, e, ty, p).rows, p) && Remembers(Apply(c, e, ty, p), e.at, p)
  {
    hide Slot, Day, DbValue, SlotKey, Saves, AddReport;
    if c.node.Some? {
      if e.Report? {
        KeptByReport(c.node.value, e.at, e.v, ty, p);
      } else if e.SaveDb? && Saves(c.node.value, e.at) {
        SaveRecent(c.node.value, e.at);
        if c.rows != [] {
          NextSaveLater(c.node.value, c.rows[|c.rows| - 1].at, e.at, p);
        }
      }
    }
  }

  lemma {:induction false} SaveRecent(w: Window, now: nat)
    requires Saves(w, now)
    ensures now < w.lastTime + w.period * 60
  {
  }
}
