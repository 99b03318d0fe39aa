/**
 The three-slot window of one (attribute, machine): the report aggregate of the current
 slot and of the two before. Any run of reports, recycling passes and database passes is
 compared with the aggregates of the reports themselves.
 */
module ReportWindow {
  import opened Basics
  import opened ReportClock

  /** The numeric data types; SumType and ExType add up within a slot, TotalType over all time. */
  datatype DataType = SumType | MinType | ExType | MaxType | TotalType | LastType

  /** TWarnAttrReportInfo. */
  datatype Window = Window(pre: Uint32, last: Uint32, cur: Uint32, minIdx: int, lastTime: nat,
                           dataType: DataType, period: Period, toDbIdx: int, toDbTime: int)

  // ---------- one report ----------

  /** What a report of the same slot does to the current value. */
  function Merge(cur: Uint32, v: Uint32, ty: DataType): Uint32 {
    match ty
    case MinType => if v < cur then v else cur
    case MaxType => if v > cur then v else cur
    case LastType => v
    case _ => Wrap32(cur + v)
  }

  /** The current value when a slot is opened. */
  function Opened(cur: Uint32, v: Uint32, ty: DataType): Uint32 {
    if ty.TotalType? then Wrap32(cur + v) else v
  }

  /** The values left by a slot nothing is carried over from. */
  function Restarted(w: Window, v: Uint32, ty: DataType): Window {
    var carried := if ty.TotalType? then w.cur else 0;
    w.(pre := carried, last := carried, cur := Opened(w.cur, v, ty))
  }

  /** AddReportToWarnAttrShm on an existing node. */
  function AddReport(w: Window, now: nat, v: Uint32, ty: DataType, p: Period): Window {
    var idx := Slot(now, p);
    var u :=
      if now > w.lastTime + 2 * 60 * p then Restarted(w, v, ty)
      else if w.minIdx == idx then w.(cur := Merge(w.cur, v, ty))
      else if w.minIdx + 1 == idx then w.(pre := w.last, last := w.cur, cur := Opened(w.cur, v, ty))
      else if w.minIdx + 2 == idx then
        w.(pre := w.cur, last := if ty.TotalType? then w.cur else 0, cur := Opened(w.cur, v, ty))
      else Restarted(w, v, ty);
    u.(dataType := ty, period := p, minIdx := idx, lastTime := now)
  }

  /** The first report of a node; the database marks are whatever the table slot held. */
  function Fresh(now: nat, v: Uint32, ty: DataType, p: Period, toDbIdx: int, toDbTime: int): Window {
    Window(0, 0, v, Slot(now, p), now, ty, p, toDbIdx, toDbTime)
  }

  // ---------- aggregates of reports ----------

  datatype Rep = Rep(at: nat, v: Uint32)

  /** The values reported in slot s of day d. */
  function InSlot(h: seq<Rep>, d: nat, s: int, p: Period): seq<Uint32> {
    if h == [] then []
    else
      var r := h[|h| - 1];
      var vs := InSlot(h[..|h| - 1], d, s, p);
      if Day(r.at) == d && Slot(r.at, p) == s then vs + [r.v] else vs
  }

  function SumOf(vs: seq<Uint32>): nat {
    if vs == [] then 0 else SumOf(vs[..|vs| - 1]) + vs[|vs| - 1]
  }

  function MinOf(vs: seq<Uint32>): (m: Uint32)
    requires vs != []
    ensures m in vs && forall v :: v in vs ==> m <= v
  {
    var x := vs[|vs| - 1];
    if |vs| == 1 then x
    else
      var m := MinOf(vs[..|vs| - 1]);
      assert vs == vs[..|vs| - 1] + [x];
      if x < m then x else m
  }

  function MaxOf(vs: seq<Uint32>): (m: Uint32)
    requires vs != []
    ensures m in vs && forall v :: v in vs ==> v <= m
  {
    var x := vs[|vs| - 1];
    if |vs| == 1 then x
    else
      var m := MaxOf(vs[..|vs| - 1]);
      assert vs == vs[..|vs| - 1] + [x];
      if x > m then x else m
  }

  /** The aggregate of one slot; 0 when nothing was reported. */
  function Aggregate(vs: seq<Uint32>, ty: DataType): Uint32 {
    if vs == [] then 0
    else
      match ty
      case MinType => MinOf(vs)
      case MaxType => MaxOf(vs)
      case LastType => vs[|vs| - 1]
      case _ => Wrap32(SumOf(vs))
  }

  lemma {:induction false} SumGrows(vs: seq<Uint32>, v: Uint32)
    ensures SumOf(vs + [v]) == SumOf(vs) + v
  {
    assert (vs + [v])[..|vs|] == vs;
  }

  lemma {:induction false} ExtremesGrow(vs: seq<Uint32>, v: Uint32)
    requires vs != []
    ensures MinOf(vs + [v]) == Merge(MinOf(vs), v, MinType)
    ensures MaxOf(vs + [v]) == Merge(MaxOf(vs), v, MaxType)
  {
    assert (vs + [v])[..|vs|] == vs;
  }

  lemma {:induction false} AggregateGrows(vs: seq<Uint32>, v: Uint32, ty: DataType)
    ensures Aggregate(vs + [v], ty) == if vs == [] then v else Merge(Aggregate(vs, ty), v, ty)
  {
    hide MinOf, MaxOf;
    SumGrows(vs, v);
    if vs != [] {
      ExtremesGrow(vs, v);
      WrapAdd(SumOf(vs), v);
    } else {
      assert vs + [v] == [v];
      assert MinOf([v]) == MaxOf([v]) == v;
    }
  }

  /** When the first and last report of slot s on day d were made. */
  function FirstIn(h: seq<Rep>, d: nat, s: int, p: Period): nat
    requires InSlot(h, d, s, p) != []
  {
    if InSlot(h[..|h| - 1], d, s, p) != [] then FirstIn(h[..|h| - 1], d, s, p) else h[|h| - 1].at
  }

  function LastIn(h: seq<Rep>, d: nat, s: int, p: Period): nat
    requires InSlot(h, d, s, p) != []
  {
    var r := h[|h| - 1];
    if Day(r.at) == d && Slot(r.at, p) == s then r.at else LastIn(h[..|h| - 1], d, s, p)
  }

  ghost predicate InOrder(h: seq<Rep>) {
    forall i, j :: 0 <= i < j < |h| ==> h[i].at <= h[j].at
  }

  /** Day and slot of t lie before slot s of day d. */
  predicate Earlier(t: nat, d: nat, s: int, p: Period) {
    Day(t) < d || (Day(t) == d && Slot(t, p) < s)
  }

  lemma {:induction false} NothingYet(h: seq<Rep>, d: nat, s: int, p: Period)
    requires InOrder(h) && Steady(p)
    requires h != [] ==> Earlier(h[|h| - 1].at, d, s, p)
    ensures InSlot(h, d, s, p) == []
  {
    if h != [] {
      var g := h[..|h| - 1];
      if g != [] {
        var t, u := g[|g| - 1].at, h[|h| - 1].at;
        assert t == h[|h| - 2].at <= u;
        if Day(t) == Day(u) { SlotMonotone(t, u, p); }
      }
      NothingYet(g, d, s, p);
    }
  }

  /**
   The value two slots back: that slot's aggregate, or 0 when nothing was reported in
   between and the current slot opened more than two periods after that slot's last report.
   */
  function TwoBack(h: seq<Rep>, d: nat, s: int, p: Period, ty: DataType): Uint32
    requires InSlot(h, d, s, p) != []
  {
    var vs := InSlot(h, d, s - 2, p);
    if InSlot(h, d, s - 1, p) == [] && vs != [] && FirstIn(h, d, s, p) > LastIn(h, d, s - 2, p) + 2 * 60 * p then 0
    else Aggregate(vs, ty)
  }

  /** The window holds exactly the aggregates of the last report's slot and the two before it. */
  ghost predicate Exact(w: Window, h: seq<Rep>, ty: DataType, p: Period)
    requires h != []
  {
    var t := h[|h| - 1].at;
    var d, s := Day(t), Slot(t, p);
    && w.lastTime == t && w.minIdx == s && w.dataType == ty && w.period == p
    && InSlot(h, d, s, p) != []
    && w.cur == Aggregate(InSlot(h, d, s, p), ty)
    && w.last == Aggregate(InSlot(h, d, s - 1, p), ty)
    && w.pre == TwoBack(h, d, s, p, ty)
  }

  lemma {:induction false} InSlotSnoc(h: seq<Rep>, r: Rep, d: nat, s: int, p: Period)
    ensures var vs := InSlot(h, d, s, p);
      InSlot(h + [r], d, s, p) == if Day(r.at) == d && Slot(r.at, p) == s then vs + [r.v] else vs
  {
    assert (h + [r])[..|h|] == h;
  }

  lemma {:induction false} InOrderPrefix(h: seq<Rep>, r: Rep)
    requires InOrder(h + [r])
    ensures InOrder(h) && (h != [] ==> h[|h| - 1].at <= r.at)
  {
    forall i, j | 0 <= i < j < |h| ensures h[i].at <= h[j].at {
      assert (h + [r])[i] == h[i] && (h + [r])[j] == h[j];
    }
    assert (h + [r])[|h|] == r;
    if h != [] { assert (h + [r])[|h| - 1] == h[|h| - 1]; }
  }

  /** What InSlot, FirstIn and LastIn become when r opens its slot. */
  lemma {:induction false} Opens(h: seq<Rep>, r: Rep, p: Period)
    requires InSlot(h, Day(r.at), Slot(r.at, p), p) == []
    ensures var d, s, g := Day(r.at), Slot(r.at, p), h + [r];
      && InSlot(g, d, s, p) == [r.v] && FirstIn(g, d, s, p) == r.at
      && InSlot(g, d, s - 1, p) == InSlot(h, d, s - 1, p)
      && InSlot(g, d, s - 2, p) == InSlot(h, d, s - 2, p)
      && (InSlot(h, d, s - 2, p) != [] ==> LastIn(g, d, s - 2, p) == LastIn(h, d, s - 2, p))
  {
    hide Slot, Day;
    var d, s: int := Day(r.at), Slot(r.at, p);
    InSlotSnoc(h, r, d, s, p);
    InSlotSnoc(h, r, d, s - 1, p);
    InSlotSnoc(h, r, d, s - 2, p);
    assert (h + [r])[..|h|] == h;
  }

  lemma {:induction false} LastReportIn(h: seq<Rep>, p: Period)
    requires h != []
    ensures var t := h[|h| - 1].at;
      InSlot(h, Day(t), Slot(t, p), p) != [] && LastIn(h, Day(t), Slot(t, p), p) == t
  {
  }

  /** A report that restarts the window: the first of a node, or one that comes too late to carry anything over. */
  lemma {:induction false} RestartExact(w: Window, h: seq<Rep>, r: Rep, ty: DataType, p: Period)
    requires Steady(p) && InOrder(h + [r])
    requires h != [] ==> Earlier(h[|h| - 1].at, Day(r.at), Slot(r.at, p) - 1, p)
    requires h != [] && Day(h[|h| - 1].at) == Day(r.at) && Slot(h[|h| - 1].at, p) == Slot(r.at, p) - 2
      ==> r.at > h[|h| - 1].at + 2 * 60 * p
    requires w.pre == w.last == 0 && w.cur == r.v && w.minIdx == Slot(r.at, p) && w.lastTime == r.at
    requires w.dataType == ty && w.period == p
    ensures Exact(w, h + [r], ty, p)
  {
    hide Slot, Day, Second;
    var d, s: int := Day(r.at), Slot(r.at, p);
    InOrderPrefix(h, r);
    NothingYet(h, d, s, p);
    NothingYet(h, d, s - 1, p);
    Opens(h, r, p);
    assert [] + [r.v] == [r.v];
    AggregateGrows([], r.v, ty);
    if h != [] && Day(h[|h| - 1].at) == d && Slot(h[|h| - 1].at, p) == s - 2 {
      LastReportIn(h, p);
    } else {
      NothingYet(h, d, s - 2, p);
    }
  }

  /** A report of the current slot. */
  lemma {:induction false} SameSlotExact(w: Window, h: seq<Rep>, r: Rep, ty: DataType, p: Period)
    requires h != [] && Exact(w, h, ty, p) && !ty.TotalType?
    requires Day(r.at) == Day(h[|h| - 1].at) && Slot(r.at, p) == Slot(h[|h| - 1].at, p)
    ensures Exact(w.(cur := Merge(w.cur, r.v, ty), lastTime := r.at), h + [r], ty, p)
  {
    hide Slot, Day, InSlot, FirstIn, LastIn, Aggregate, Merge;
    var d, s: int := Day(r.at), Slot(r.at, p);
    InSlotSnoc(h, r, d, s, p);
    InSlotSnoc(h, r, d, s - 1, p);
    InSlotSnoc(h, r, d, s - 2, p);
    AggregateGrows(InSlot(h, d, s, p), r.v, ty);
    SameSlotKeepsEnds(h, r, p);
  }

  lemma {:induction false} SameSlotKeepsEnds(h: seq<Rep>, r: Rep, p: Period)
    requires InSlot(h, Day(r.at), Slot(r.at, p), p) != []
    ensures var d, s, g := Day(r.at), Slot(r.at, p), h + [r];
      && InSlot(g, d, s, p) != [] && FirstIn(g, d, s, p) == FirstIn(h, d, s, p)
      && InSlot(g, d, s - 2, p) == InSlot(h, d, s - 2, p)
      && (InSlot(h, d, s - 2, p) != [] ==> LastIn(g, d, s - 2, p) == LastIn(h, d, s - 2, p))
  {
    hide Slot, Day;
    assert (h + [r])[..|h|] == h;
    InSlotSnoc(h, r, Day(r.at), Slot(r.at, p), p);
    InSlotSnoc(h, r, Day(r.at), Slot(r.at, p) - 2, p);
  }

  /** A report of the next slot, or of the one after it within two periods. */
  lemma {:induction false} NextSlotExact(w: Window, h: seq<Rep>, r: Rep, ty: DataType, p: Period)
    requires h != [] && Exact(w, h, ty, p) && !ty.TotalType? && Steady(p) && InOrder(h + [r])
    requires Day(r.at) == Day(h[|h| - 1].at) && r.at <= h[|h| - 1].at + 2 * 60 * p
    requires Slot(r.at, p) - Slot(h[|h| - 1].at, p) in {1, 2}
    ensures var u := if Slot(r.at, p) == Slot(h[|h| - 1].at, p) + 1
                     then w.(pre := w.last, last := w.cur) else w.(pre := w.cur, last := 0);
      Exact(u.(cur := r.v, minIdx := Slot(r.at, p), lastTime := r.at), h + [r], ty, p)
  {
    hide Slot, Day;
    var d, s: int := Day(r.at), Slot(r.at, p);
    InOrderPrefix(h, r);
    NothingYet(h, d, s, p);
    Opens(h, r, p);
    assert [] + [r.v] == [r.v];
    AggregateGrows([], r.v, ty);
    LastReportIn(h, p);
    if s == Slot(h[|h| - 1].at, p) + 2 {
      NothingYet(h, d, s - 1, p);
    }
  }

  /** Every report keeps the window exact, whatever lies between it and the last one. */
  lemma {:induction false} ReportExact(w: Window, h: seq<Rep>, r: Rep, ty: DataType, p: Period)
    requires h != [] && Exact(w, h, ty, p) && !ty.TotalType?
    requires Steady(p) && p <= MAX_PERIOD && InOrder(h + [r])
    ensures Exact(AddReport(w, r.at, r.v, ty, p), h + [r], ty, p)
  {
    hide Slot, Day, InSlot, TwoBack;
    InOrderPrefix(h, r);
    var t := h[|h| - 1].at;
    if r.at > t + 2 * 60 * p {
      if Day(r.at) == Day(t) { SlotGap(t, r.at, p); } else { DayMonotone(t, r.at); }
      RestartExact(AddReport(w, r.at, r.v, ty, p), h, r, ty, p);
    } else if Day(r.at) != Day(t) {
      DayMonotone(t, r.at);
      SlotAtMidnight(t, r.at, p);
      RestartExact(AddReport(w, r.at, r.v, ty, p), h, r, ty, p);
    } else {
      SlotMonotone(t, r.at, p);
      if Slot(r.at, p) == Slot(t, p) {
        SameSlotExact(w, h, r, ty, p);
      } else if Slot(r.at, p) <= Slot(t, p) + 2 {
        NextSlotExact(w, h, r, ty, p);
      } else {
        RestartExact(AddReport(w, r.at, r.v, ty, p), h, r, ty, p);
      }
    }
  }

  lemma {:induction false} DayMonotone(t: nat, u: nat)
    requires t <= u
    ensures Day(t) <= Day(u)
  {
  }
}
