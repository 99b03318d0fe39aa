/**
 The list of recent alarms as a sequence, most recent first: how one database row changes it,
 and when it stays the head of the table's own order.
 */
module RecentList {
  import opened Basics

  /** MAX_WARN_INFO_IN_SHM_PER_USER. */
  const MAX_RECENT := 200

  /** What a record keeps from its insertion on. */
  datatype Subject = Subject(typeId: int, attrId: int, warnTime: nat, flag: int, confVal: int)

  datatype Rec = Rec(id: nat, subject: Subject, times: int, status: int, val: int, lastTime: nat, updateTime: nat)

  ghost predicate DistinctIds(l: seq<Rec>) {
    && (forall i, j :: 0 <= i < j < |l| ==> l[i].id != l[j].id)
    && (forall i :: 0 <= i < |l| ==> l[i].id != 0)
  }

  /** The position of an id, or the length. */
  function PosOf(l: seq<Rec>, id: nat): (p: nat)
    ensures p <= |l|
    ensures p < |l| ==> l[p].id == id
    ensures forall i :: 0 <= i < p ==> l[i].id != id
  {
    if l == [] then 0
    else if l[0].id == id then 0
    else 1 + PosOf(l[1..], id)
  }

  function Without<T>(l: seq<T>, p: nat): (r: seq<T>)
    requires p < |l|
    ensures |r| == |l| - 1
  {
    l[..p] + l[p + 1..]
  }

  /** The fields a later read copies; the subject stays. */
  function Updated(r: Rec, row: Rec): Rec {
    r.(times := row.times, status := row.status, val := row.val, lastTime := row.lastTime, updateTime := row.updateTime)
  }

  /** A row not in the list; slotFree says whether the hash table offered a node. */
  function Insert(l: seq<Rec>, row: Rec, reload: bool, slotFree: bool): seq<Rec> {
    if !slotFree || (|l| >= MAX_RECENT && reload) then l
    else
      var base := if |l| >= MAX_RECENT then l[..|l| - 1] else l;
      if reload then base + [row] else [row] + base
  }

  /** A row at position p of the list; unnoticed when its update time is the one known. */
  function Refresh(l: seq<Rec>, p: nat, row: Rec, reload: bool): seq<Rec>
    requires p < |l|
  {
    if l[p].updateTime == row.updateTime then l
    else
      var r := Updated(l[p], row);
      if l[p].lastTime == row.lastTime || p == 0 then l[p := r]
      else if reload then Without(l, p) + [r]
      else [r] + Without(l, p)
  }

  /** One row of ReadTableWarnInfo; reload is the pass over the whole table (uid 0). */
  function Apply(l: seq<Rec>, row: Rec, inUse: bool, reload: bool, slotFree: bool): seq<Rec> {
    var p := PosOf(l, row.id);
    if inUse && p == |l| then Insert(l, row, reload, slotFree)
    else if inUse then Refresh(l, p, row, reload)
    else if p < |l| then Without(l, p)
    else l
  }

  // ---------- what every row keeps ----------

  lemma {:induction false} PosIs(l: seq<Rec>, id: nat, p: nat)
    requires p <= |l| && (p < |l| ==> l[p].id == id) && forall i :: 0 <= i < p ==> l[i].id != id
    ensures PosOf(l, id) == p
  {
  }

  lemma {:induction false} ApplyKeeps(l: seq<Rec>, row: Rec, inUse: bool, reload: bool, slotFree: bool)
    requires DistinctIds(l) && |l| <= MAX_RECENT && row.id != 0
    ensures DistinctIds(Apply(l, row, inUse, reload, slotFree))
    ensures |Apply(l, row, inUse, reload, slotFree)| <= MAX_RECENT
  {
    hide PosOf, Insert, Refresh;
    var p := PosOf(l, row.id);
    if p == |l| { InsertKeeps(l, row, reload, slotFree); } else { RefreshKeeps(l, p, row, reload); }
  }

  lemma {:induction false} InsertKeeps(l: seq<Rec>, row: Rec, reload: bool, slotFree: bool)
    requires DistinctIds(l) && |l| <= MAX_RECENT && row.id != 0
    requires forall i :: 0 <= i < |l| ==> l[i].id != row.id
    ensures DistinctIds(Insert(l, row, reload, slotFree)) && |Insert(l, row, reload, slotFree)| <= MAX_RECENT
  {
  }

  lemma {:induction false} WithoutKeeps(l: seq<Rec>, p: nat)
    requires DistinctIds(l) && p < |l|
    ensures DistinctIds(Without(l, p))
    ensures forall r :: r in Without(l, p) ==> r.id != l[p].id
  {
    var w := Without(l, p);
    assert forall i :: 0 <= i < |w| ==> w[i] == l[if i < p then i else i + 1];
  }

  /** A record with an id of its own may join at either end. */
  lemma {:induction false} JoinKeeps(l: seq<Rec>, r: Rec)
    requires DistinctIds(l) && r.id != 0 && forall i :: 0 <= i < |l| ==> l[i].id != r.id
    ensures DistinctIds([r] + l) && DistinctIds(l + [r])
  {
    var f, b := [r] + l, l + [r];
    assert forall i :: 0 <= i < |f| ==> f[i] == if i == 0 then r else l[i - 1];
    assert forall i :: 0 <= i < |b| ==> b[i] == if i == |l| then r else l[i];
  }

  lemma {:induction false} RefreshKeeps(l: seq<Rec>, p: nat, row: Rec, reload: bool)
    requires DistinctIds(l) && p < |l| && l[p].id == row.id
    ensures DistinctIds(Refresh(l, p, row, reload)) && |Refresh(l, p, row, reload)| == |l|
    ensures DistinctIds(Without(l, p))
  {
    hide Without, DistinctIds;
    var r := Updated(l[p], row);
    WithoutKeeps(l, p);
    SameIdKeeps(l, p, r);
    JoinKeeps(Without(l, p), r);
  }

  lemma {:induction false} SameIdKeeps(l: seq<Rec>, p: nat, r: Rec)
    requires DistinctIds(l) && p < |l| && r.id == l[p].id
    ensures DistinctIds(l[p := r]) && r.id != 0
  {
  }

  // ---------- the table's own order ----------

  /** Inserts or changes a record, or removes one. */
  datatype Change = Put(rec: Rec) | Drop(id: nat)

  /** The table, most recent alarm first; a changed alarm time is the latest of all. */
  function Changed(d: seq<Rec>, c: Change): seq<Rec> {
    match c
    case Put(rec) =>
      var p := PosOf(d, rec.id);
      if p == |d| then [rec] + d
      else if d[p].lastTime == rec.lastTime then d[p := rec]
      else [rec] + Without(d, p)
    case Drop(id) =>
      var p := PosOf(d, id);
      if p < |d| then Without(d, p) else d
  }

  /** A deleted row; only its id is looked at. */
  function Deleted(id: nat): Rec {
    Rec(id, Subject(0, 0, 0, 0, 0), 0, 0, 0, 0, 0)
  }

  /** The incremental read that follows a change. */
  function Followed(l: seq<Rec>, c: Change): seq<Rec> {
    match c
    case Put(rec) => Apply(l, rec, true, false, true)
    case Drop(id) => Apply(l, Deleted(id), false, false, true)
  }

  /** A record keeps its subject. */
  predicate Proper(d: seq<Rec>, c: Change) {
    match c
    case Put(rec) => rec.id != 0 && (PosOf(d, rec.id) < |d| ==> d[PosOf(d, rec.id)].subject == rec.subject)
    case Drop(_) => true
  }

  /** A second change within one second is not seen. */
  predicate Noticed(l: seq<Rec>, rec: Rec) {
    var p := PosOf(l, rec.id);
    p < |l| ==> l[p].updateTime != rec.updateTime || l[p] == rec
  }

  /** An older record that has left the list changes without a new alarm. */
  predicate OldTouched(l: seq<Rec>, d: seq<Rec>, rec: Rec) {
    PosOf(l, rec.id) == |l| && 0 < PosOf(d, rec.id) < |d| && d[PosOf(d, rec.id)].lastTime == rec.lastTime
  }

  predicate Follows(l: seq<Rec>, d: seq<Rec>, c: Change) {
    match c
    case Put(rec) => Noticed(l, rec) && !OldTouched(l, d, rec)
    case Drop(_) => true
  }

  ghost predicate HeadOf(l: seq<Rec>, d: seq<Rec>) {
    l <= d && |l| <= MAX_RECENT
  }

  lemma {:induction false} PosInHead(l: seq<Rec>, d: seq<Rec>, id: nat)
    requires l <= d
    ensures PosOf(l, id) < |l| ==> PosOf(d, id) == PosOf(l, id)
    ensures PosOf(l, id) == |l| ==> PosOf(d, id) >= |l|
  {
    hide PosOf;
    var p, q := PosOf(l, id), PosOf(d, id);
    assert forall i :: 0 <= i < |l| ==> d[i] == l[i];
    if p < |l| {
      assert d[p].id == id;
      assert q >= p;
    } else {
      assert forall i :: 0 <= i < |l| ==> d[i].id != id;
    }
  }

  lemma {:induction false} WithoutInHead<T>(l: seq<T>, d: seq<T>, p: nat)
    requires l <= d && p < |d|
    ensures p < |l| ==> Without(l, p) <= Without(d, p)
    ensures p >= |l| ==> l <= Without(d, p)
  {
  }

  lemma {:induction false} MovedToFront<T>(l: seq<T>, p: nat, x: T)
    requires p < |l|
    ensures p == 0 ==> [x] + Without(l, p) == l[p := x]
    ensures p > 0 ==> ([x] + Without(l, p))[1] == l[0]
  {
  }

  lemma {:induction false} StaysHead(l: seq<Rec>, d: seq<Rec>, c: Change)
    requires HeadOf(l, d) && Proper(d, c) && Follows(l, d, c)
    ensures HeadOf(Followed(l, c), Changed(d, c))
  {
    hide PosOf, Without;
    var id := if c.Put? then c.rec.id else c.id;
    PosInHead(l, d, id);
    var p := PosOf(d, id);
    if p < |d| { WithoutInHead(l, d, p); }
    if c.Put? && p < |d| { MovedToFront(d, p, c.rec); }
    if c.Put? && p >= |l| && |l| >= MAX_RECENT {
      assert l[..|l| - 1] <= l;
    }
  }

  /** A change that is missed, or that brings an old record back, leaves another order. */
  lemma {:induction false} LosesHead(l: seq<Rec>, d: seq<Rec>, rec: Rec)
    requires HeadOf(l, d) && Proper(d, Put(rec)) && !Follows(l, d, Put(rec))
    ensures !HeadOf(Followed(l, Put(rec)), Changed(d, Put(rec)))
  {
    hide PosOf, Without;
    PosInHead(l, d, rec.id);
    var p := PosOf(d, rec.id);
    var m, e := Followed(l, Put(rec)), Changed(d, Put(rec));
    if OldTouched(l, d, rec) {
      assert m[0] == rec && e[0] == d[0];
      assert d[0].id != rec.id;
    } else {
      assert m == l;
      MovedToFront(d, p, rec);
      if p > 0 { assert l[0].id != rec.id; }
    }
  }

  /**
   Step by step: the list stays the head of the table exactly while every change is noticed
   and no older record outside the list is touched without a new alarm.
   */
  lemma {:induction false} StaysHeadExactly(l: seq<Rec>, d: seq<Rec>, c: Change)
    requires HeadOf(l, d) && Proper(d, c)
    ensures HeadOf(Followed(l, c), Changed(d, c)) <==> Follows(l, d, c)
  {
    hide HeadOf, Followed, Changed, PosOf;
    if Follows(l, d, c) {
      StaysHead(l, d, c);
    } else {
      LosesHead(l, d, c.rec);
    }
  }

  // ---------- runs ----------

  function Table(d: seq<Rec>, cs: seq<Change>): seq<Rec> {
    if cs == [] then d else Changed(Table(d, cs[..|cs| - 1]), cs[|cs| - 1])
  }

  function Memory(l: seq<Rec>, cs: seq<Change>): seq<Rec> {
    if cs == [] then l else Followed(Memory(l, cs[..|cs| - 1]), cs[|cs| - 1])
  }

  /** Every change of the run is proper and followed. */
  ghost predicate AllFollow(l: seq<Rec>, d: seq<Rec>, cs: seq<Change>) {
    forall i :: 0 <= i < |cs| ==>
      && Proper(Table(d, cs[..i]), cs[i])
      && Follows(Memory(l, cs[..i]), Table(d, cs[..i]), cs[i])
  }

  /** The first read of the whole table, in the table's order: by alarm time, descending. */
  function Loaded(l: seq<Rec>, rows: seq<Rec>): seq<Rec> {
    if rows == [] then l
    else Apply(Loaded(l, rows[..|rows| - 1]), rows[|rows| - 1], true, true, true)
  }

  lemma {:induction false} LoadOne(d: seq<Rec>, n: nat)
    requires n < |d| && DistinctIds(d)
    ensures var l := d[..if n <= MAX_RECENT then n else MAX_RECENT];
      Apply(l, d[n], true, true, true) == d[..if n < MAX_RECENT then n + 1 else MAX_RECENT]
  {
    hide PosOf, Refresh;
    var l := d[..if n <= MAX_RECENT then n else MAX_RECENT];
    PosIs(l, d[n].id, |l|);
  }

  /** A full read onto any head of the table fills it up to the maximum, without touching what is there. */
  lemma {:induction false} ReloadFills(l: seq<Rec>, d: seq<Rec>, n: nat)
    requires DistinctIds(d) && HeadOf(l, d) && n <= |d|
    ensures Loaded(l, d[..n]) == if n <= |l| then l else d[..if n <= MAX_RECENT then n else MAX_RECENT]
  {
    hide Apply, HeadOf;
    HeadIs(l, d);
    if n > 0 {
      assert d[..n][..n - 1] == d[..n - 1];
      ReloadFills(l, d, n - 1);
      if n - 1 < |l| { KnownRow(l, d, n - 1); } else { LoadOne(d, n - 1); }
    }
  }

  lemma {:induction false} HeadIs(l: seq<Rec>, d: seq<Rec>)
    requires HeadOf(l, d)
    ensures |l| <= |d| && |l| <= MAX_RECENT && l == d[..|l|]
  {
  }

  lemma {:induction false} KnownRow(l: seq<Rec>, d: seq<Rec>, n: nat)
    requires DistinctIds(d) && n < |l| <= |d| && l == d[..|l|]
    ensures Apply(l, d[n], true, true, true) == l
  {
    PosIs(l, d[n].id, n);
  }

  /** After a restart on a list that is still a head of the table, it is the head again. */
  lemma {:induction false} ReloadedIsHead(l: seq<Rec>, d: seq<Rec>)
    requires DistinctIds(d) && HeadOf(l, d)
    ensures HeadOf(Loaded(l, d), d) && (|Loaded(l, d)| == |d| || |Loaded(l, d)| == MAX_RECENT)
  {
    ReloadFills(l, d, |d|);
    assert d[..|d|] == d;
  }

  /** An alarm raised while the process was down ends up behind the older ones. */
  lemma {:induction false} RestartDisorders(a: Rec, b: Rec)
    requires a.id != b.id && a.id != 0 && b.id != 0
    ensures HeadOf([a], [a]) && Loaded([a], [b, a]) == [a, b] && !HeadOf(Loaded([a], [b, a]), [b, a])
  {
    var d := [b, a];
    assert d[..1] == [b] && d[..1][..0] == [];
    assert Loaded([a], d[..1][..0]) == [a];
    PosIs([a], b.id, 1);
    assert Loaded([a], d[..1]) == [a] + [b] == [a, b];
    PosIs([a, b], a.id, 0);
  }

  /** A listed record with a new alarm meanwhile even ends up behind everything older. */
  lemma {:induction false} RestartDemotes(a: Rec, b: Rec, c: Rec, e: Rec)
    requires DistinctIds([a, b, c]) && e == Updated(b, e) && e.lastTime != b.lastTime && e.updateTime != b.updateTime
    ensures HeadOf([a, b, c], [a, b, c]) && Loaded([a, b, c], [e, a, c]) == [a, c, e]
    ensures !HeadOf([a, c, e], [e, a, c])
  {
    var l, d := [a, b, c], [e, a, c];
    assert l[0] != l[1] && l[0].id != l[1].id && l[0].id != l[2].id && l[1].id != l[2].id;
    assert d[..2] == [e, a] && d[..2][..1] == [e] && [e][..0] == [];
    PosIs(l, e.id, 1);
    assert Without(l, 1) + [e] == [a, c, e];
    assert Loaded(l, [e]) == Apply(l, e, true, true, true) == [a, c, e];
    PosIs([a, c, e], a.id, 0);
    assert Loaded(l, [e, a]) == [a, c, e];
    PosIs([a, c, e], c.id, 1);
  }

  lemma {:induction false} LoadedIsHead(d: seq<Rec>)
    requires DistinctIds(d)
    ensures Loaded([], d) == d[..if |d| <= MAX_RECENT then |d| else MAX_RECENT]
  {
    hide Apply;
    if d != [] {
      var n := |d| - 1;
      LoadedIsHead(d[..n]);
      LoadOne(d, n);
      assert d[..n][..if n <= MAX_RECENT then n else MAX_RECENT] == d[..if n <= MAX_RECENT then n else MAX_RECENT];
    }
  }

  /** After the first read the list is the head of the table through every run that is followed. */
  lemma {:induction false} AlwaysHead(d: seq<Rec>, cs: seq<Change>)
    requires DistinctIds(d) && AllFollow(Loaded([], d), d, cs)
    ensures HeadOf(Memory(Loaded([], d), cs), Table(d, cs))
  {
    hide Loaded, Changed, Followed, Proper, Follows;
    LoadedIsHead(d);
    var l := Loaded([], d);
    if cs != [] {
      var n := |cs| - 1;
      assert forall i :: 0 <= i < n ==> cs[..n][..i] == cs[..i];
      AlwaysHead(d, cs[..n]);
      StaysHead(Memory(l, cs[..n]), Table(d, cs[..n]), cs[n]);
    }
  }

  // ---------- the order of alarm times ----------

  /** Sorted by alarm time, most recent first: the order the whole table is read in. */
  ghost predicate MostRecentFirst(d: seq<Rec>) {
    forall i, j :: 0 <= i < j < |d| ==> d[i].lastTime >= d[j].lastTime
  }

  /** A new record, or a changed alarm time, is at least as late as every alarm time in the table. */
  predicate Timely(d: seq<Rec>, c: Change) {
    match c
    case Put(rec) =>
      var p := PosOf(d, rec.id);
      (p < |d| && d[p].lastTime == rec.lastTime) || forall i :: 0 <= i < |d| ==> d[i].lastTime <= rec.lastTime
    case Drop(_) => true
  }

  ghost predicate AllTimely(d: seq<Rec>, cs: seq<Change>) {
    forall i :: 0 <= i < |cs| ==> Timely(Table(d, cs[..i]), cs[i])
  }

  lemma {:induction false} WithoutOrder(d: seq<Rec>, p: nat)
    requires MostRecentFirst(d) && p < |d|
    ensures MostRecentFirst(Without(d, p)) && forall r :: r in Without(d, p) ==> r in d
  {
    var w := Without(d, p);
    assert forall i :: 0 <= i < |w| ==> w[i] == d[if i < p then i else i + 1];
  }

  lemma {:induction false} FrontOrder(d: seq<Rec>, r: Rec)
    requires MostRecentFirst(d) && forall x :: x in d ==> x.lastTime <= r.lastTime
    ensures MostRecentFirst([r] + d)
  {
    var f := [r] + d;
    assert forall i :: 0 <= i < |f| ==> f[i] == if i == 0 then r else d[i - 1];
  }

  lemma {:induction false} ChangedOrder(d: seq<Rec>, c: Change)
    requires MostRecentFirst(d) && Timely(d, c)
    ensures MostRecentFirst(Changed(d, c))
  {
    hide Without, PosOf, MostRecentFirst;
    var p := PosOf(d, if c.Put? then c.rec.id else c.id);
    if p < |d| { WithoutOrder(d, p); }
    if c.Put? {
      if p < |d| && d[p].lastTime == c.rec.lastTime {
        SameTimeOrder(d, p, c.rec);
      } else {
        FrontOrder(if p < |d| then Without(d, p) else d, c.rec);
      }
    }
  }

  lemma {:induction false} SameTimeOrder(d: seq<Rec>, p: nat, r: Rec)
    requires MostRecentFirst(d) && p < |d| && d[p].lastTime == r.lastTime
    ensures MostRecentFirst(d[p := r])
  {
  }

  lemma {:induction false} TableOrder(d: seq<Rec>, cs: seq<Change>)
    requires MostRecentFirst(d) && AllTimely(d, cs)
    ensures MostRecentFirst(Table(d, cs))
  {
    hide Changed, MostRecentFirst, Timely;
    if cs != [] {
      var n := |cs| - 1;
      assert forall i :: 0 <= i < n ==> cs[..n][..i] == cs[..i];
      TableOrder(d, cs[..n]);
      ChangedOrder(Table(d, cs[..n]), cs[n]);
    }
  }

  /** Through every run that is followed and timely, no record outside the list has a later alarm than one in it. */
  lemma {:induction false} ListsMostRecent(d: seq<Rec>, cs: seq<Change>)
    requires DistinctIds(d) && MostRecentFirst(d) && AllTimely(d, cs) && AllFollow(Loaded([], d), d, cs)
    ensures var l, t := Memory(Loaded([], d), cs), Table(d, cs);
      && MostRecentFirst(l)
      && (forall x :: x in l ==> x in t)
      && forall x, y :: x in l && y in t && y !in l ==> x.lastTime >= y.lastTime
  {
    hide Memory, Table, Loaded, DistinctIds, AllTimely, AllFollow;
    AlwaysHead(d, cs);
    TableOrder(d, cs);
    HeadIsMostRecent(Memory(Loaded([], d), cs), Table(d, cs));
  }

  lemma {:induction false} HeadIsMostRecent(l: seq<Rec>, t: seq<Rec>)
    requires l <= t && MostRecentFirst(t)
    ensures MostRecentFirst(l) && forall x :: x in l ==> x in t
    ensures forall x, y :: x in l && y in t && y !in l ==> x.lastTime >= y.lastTime
  {
    assert forall i :: 0 <= i < |l| ==> l[i] == t[i] && t[i] in l;
    forall x, y | x in l && y in t && y !in l
      ensures x.lastTime >= y.lastTime
    {
      var i :| 0 <= i < |l| && l[i] == x;
      var j :| 0 <= j < |t| && t[j] == y;
    }
  }

  // ---------- pages ----------

  function Slice(l: seq<Rec>, from: nat, n: nat): seq<Rec> {
    if from >= |l| then []
    else if from + n >= |l| then l[from..]
    else l[from..from + n]
  }

  /** GetWarnListFromShm: None sends the reader to the database. */
  function Page(l: seq<Rec>, page: nat, perPage: nat, total: nat): Option<seq<Rec>>
    requires page >= 1
  {
    if |l| < perPage * page && total > |l| then None else Some(Slice(l, perPage * (page - 1), perPage))
  }

  lemma {:induction false} PageEnd(page: nat, perPage: nat)
    requires page >= 1
    ensures perPage * (page - 1) + perPage == perPage * page && perPage * (page - 1) >= 0
  {
  }

  /** A page served from memory holds the table's records from the page's first to its last, as far as there are any. */
  lemma {:induction false} PageIsTables(l: seq<Rec>, d: seq<Rec>, page: nat, perPage: nat)
    requires HeadOf(l, d) && page >= 1
    ensures Page(l, page, perPage, |d|).Some? ==>
      var records, first := Page(l, page, perPage, |d|).value, perPage * (page - 1);
      && |records| == (if |d| <= first then 0 else if |d| < first + perPage then |d| - first else perPage)
      && forall i :: 0 <= i < |records| ==> records[i] == d[first + i]
    ensures Page(l, page, perPage, |d|).None? <==> |l| < perPage * page && |l| < |d|
  {
    PageEnd(page, perPage);
  }
}
