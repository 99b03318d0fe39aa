/** The alarms of one pass for machines: nodes with reports first, then configurations without. */
module MachineAlarms {
  import opened AlarmInfo
  import opened Basics
  import opened ReportClock
  import opened ReportWindow
  import opened ReportReader
  import Runs = ReportRuns

  /** TWarnConfig; thresholds are signed, flags as single bits. */
  datatype Config = Config(min: int, max: int, wave: int, minOn: bool, maxOn: bool, waveOn: bool,
                           machineType: bool, masked: bool, exception: bool)

  function Unsigned(x: int): Uint32 {
    x % TWO32
  }

  predicate Bit(flag: nat, bit: nat)
    requires bit > 0
  {
    flag / bit % 2 == 1
  }

  /** The mask bit: the configuration's, or the machine's warn flag tested bit by bit. */
  predicate MaskedFor(c: Config, machineFlag: nat) {
    c.masked || Bit(machineFlag, 2) || (Bit(machineFlag, 4) && c.exception)
  }

  /** The change in percent; undefined where the signed product overflows. */
  function Change(last: Uint32, pre: Uint32): Outcome<int>
    requires pre > 0
  {
    var d := ToInt32(Wrap32(last - pre));
    var a := if d < 0 then -d else d;
    if a * 100 >= TWO31 then Undefined else Done(a * 100 / pre)
  }

  function LowAlarms(k: Key, c: Config, masked: bool, last: Uint32, now: nat): seq<Alarm> {
    if c.minOn && last < Unsigned(c.min) then [Alarm(Minimum, true, masked, k, c.min, last, now)] else []
  }

  function HighAlarms(k: Key, c: Config, masked: bool, last: Uint32, now: nat): seq<Alarm> {
    if c.maxOn && last > Unsigned(c.max) then [Alarm(Maximum, true, masked, k, c.max, last, now)] else []
  }

  function WaveAlarms(k: Key, c: Config, masked: bool, last: Uint32, pre: Uint32, now: nat): Outcome<seq<Alarm>> {
    if c.waveOn && pre > 0 then
      match Change(last, pre)
      case Undefined => Undefined
      case Done(x) => Done(if x > c.wave then [Alarm(Wave, true, masked, k, c.wave, x, now)] else [])
    else Done([])
  }

  /** CheckMachineWarn. */
  function NodeAlarms(k: Key, c: Config, machineFlag: nat, w: Window, now: nat): Outcome<seq<Alarm>> {
    var v := Adapt(w, now, MinuteOfDay(now));
    var m := MaskedFor(c, machineFlag);
    match WaveAlarms(k, c, m, v.last, v.pre, now)
    case Undefined => Undefined
    case Done(s) => Done(LowAlarms(k, c, m, v.last, now) + HighAlarms(k, c, m, v.last, now) + s)
  }

  /** CheckWarnConfig for a known machine: the minimum alarm of a node that is not there. */
  function AbsentAlarms(k: Key, c: Config, machineFlag: nat, now: nat): seq<Alarm> {
    if c.minOn then
      [Alarm(Minimum, c.machineType, if c.machineType then MaskedFor(c, machineFlag) else c.masked, k, c.min, 0, now)]
    else []
  }

  function AlarmsFor(k: Key, c: Config, machineFlag: nat, node: Option<Window>, now: nat): Outcome<seq<Alarm>> {
    match node
    case Some(w) => NodeAlarms(k, c, machineFlag, w, now)
    case None => Done(AbsentAlarms(k, c, machineFlag, now))
  }

  // ---------- what is raised ----------

  /** warn_flag of a machine, 1 to 4. */
  datatype MachineFlag = AllowAll | DenyAll | DenyBasic | DenyExceptions

  function FlagNumber(f: MachineFlag): nat {
    match f
    case AllowAll => 1
    case DenyAll => 2
    case DenyBasic => 3
    case DenyExceptions => 4
  }

  /** What the settings ask for. */
  predicate ToBeMasked(c: Config, f: MachineFlag, basic: bool) {
    c.masked || f.DenyAll? || (f.DenyBasic? && basic) || (f.DenyExceptions? && c.exception)
  }

  /** The numbers are tested bit by bit, so a machine that denies basic attributes has every alarm masked. */
  lemma {:induction false} MaskedAsAskedExactly(c: Config, f: MachineFlag, basic: bool)
    ensures (MaskedFor(c, FlagNumber(f)) <==> ToBeMasked(c, f, basic)) <==> !f.DenyBasic? || basic || c.masked
  {
    match f
    case AllowAll => assert !Bit(1, 2) && !Bit(1, 4);
    case DenyAll => assert Bit(2, 2);
    case DenyBasic => assert Bit(3, 2);
    case DenyExceptions => assert !Bit(4, 2) && Bit(4, 4);
  }

  /** The distance of two words, the shorter way round. */
  function Distance(x: Uint32, y: Uint32): nat {
    var d := if x < y then y - x else x - y;
    if d < TWO31 then d else TWO32 - d
  }

  lemma {:induction false} WrapDifference(x: Uint32, y: Uint32)
    ensures Wrap32(x - y) == if x < y then x - y + TWO32 else x - y
  {
  }

  /** The change is the distance in percent, that of the values themselves while they are less than 2^31 apart. */
  lemma {:induction false} ChangeIsDistance(last: Uint32, pre: Uint32)
    requires pre > 0
    ensures Change(last, pre) ==
      if Distance(last, pre) * 100 >= TWO31 then Undefined else Done(Distance(last, pre) * 100 / pre)
  {
    hide Wrap32;
    WrapDifference(last, pre);
    var d := ToInt32(Wrap32(last - pre));
    assert (if d < 0 then -d else d) == Distance(last, pre);
  }

  /** A negative limit is compared as the word it is stored in. */
  lemma {:induction false} NegativeLimit(value: Uint32, limit: int)
    requires -TWO31 <= limit < TWO31
    ensures value < Unsigned(limit) <==> value < if limit < 0 then limit + TWO32 else limit
    ensures value > Unsigned(limit) <==> value > if limit < 0 then limit + TWO32 else limit
  {
  }

  lemma {:induction false} InThree(a: Alarm, low: seq<Alarm>, high: seq<Alarm>, extra: seq<Alarm>)
    ensures a in low + high + extra <==> a in low || a in high || a in extra
  {
  }

  /** Exactly the alarms a node raises: each limit crossed by the adapted values, with limit, value and time. */
  lemma {:induction false} NodeAlarmsExactly(k: Key, c: Config, machineFlag: nat, w: Window, now: nat, a: Alarm)
    requires NodeAlarms(k, c, machineFlag, w, now).Done?
    ensures var v := Adapt(w, now, MinuteOfDay(now));
      a in NodeAlarms(k, c, machineFlag, w, now).value <==>
        && a.key == k && a.onMachine && a.at == now && a.masked == MaskedFor(c, machineFlag)
        && match a.kind
           case Minimum => c.minOn && a.threshold == c.min && a.value == v.last < Unsigned(c.min)
           case Maximum => c.maxOn && a.threshold == c.max && a.value == v.last > Unsigned(c.max)
           case Wave =>
             c.waveOn && a.threshold == c.wave && v.pre > 0 && a.value == Distance(v.last, v.pre) * 100 / v.pre > c.wave
           case Exception => false
  {
    hide Adapt, MinuteOfDay, MaskedFor, Unsigned, Change, Distance;
    var v, m := Adapt(w, now, MinuteOfDay(now)), MaskedFor(c, machineFlag);
    if v.pre > 0 { ChangeIsDistance(v.last, v.pre); }
    InThree(a, LowAlarms(k, c, m, v.last, now), HighAlarms(k, c, m, v.last, now),
            WaveAlarms(k, c, m, v.last, v.pre, now).value);
  }

  // ---------- the minimum ----------

  function Minima(s: seq<Alarm>, k: Key): nat {
    if s == [] then 0
    else Minima(s[..|s| - 1], k) + if s[|s| - 1].kind.Minimum? && s[|s| - 1].key == k then 1 else 0
  }

  lemma {:induction false} MinimaAdd(s: seq<Alarm>, t: seq<Alarm>, k: Key)
    ensures Minima(s + t, k) == Minima(s, k) + Minima(t, k)
  {
    if t == [] {
      assert s + t == s;
    } else {
      var n := |t| - 1;
      MinimaAdd(s, t[..n], k);
      assert (s + t)[..|s + t| - 1] == s + t[..n];
    }
  }

  lemma {:induction false} MinimaOne(a: Alarm, k: Key)
    ensures Minima([a], k) == if a.kind.Minimum? && a.key == k then 1 else 0
    ensures Minima([], k) == 0
  {
    assert [a][..0] == [];
  }

  /** What the checker takes as the value: 0 when nothing is known of the machine. */
  function Value(node: Option<Window>, now: nat): Uint32 {
    match node
    case Some(w) => Adapt(w, now, MinuteOfDay(now)).last
    case None => 0
  }

  lemma {:induction false} NodeMinima(k: Key, l: Key, c: Config, machineFlag: nat, w: Window, now: nat)
    requires NodeAlarms(k, c, machineFlag, w, now).Done?
    ensures Minima(NodeAlarms(k, c, machineFlag, w, now).value, l) ==
      if k == l && c.minOn && Value(Some(w), now) < Unsigned(c.min) then 1 else 0
  {
    hide Minima, Adapt, MinuteOfDay, MaskedFor, Unsigned, Change;
    var v, m := Adapt(w, now, MinuteOfDay(now)), MaskedFor(c, machineFlag);
    var low, high := LowAlarms(k, c, m, v.last, now), HighAlarms(k, c, m, v.last, now);
    var s := WaveAlarms(k, c, m, v.last, v.pre, now).value;
    MinimaAdd(low, high, l);
    MinimaAdd(low + high, s, l);
    NoneOrOne(low, l);
    NoneOrOne(high, l);
    NoneOrOne(s, l);
  }

  lemma {:induction false} NoneOrOne(s: seq<Alarm>, k: Key)
    requires |s| <= 1
    ensures Minima(s, k) == if s != [] && s[0].kind.Minimum? && s[0].key == k then 1 else 0
  {
    if s != [] { assert s == [s[0]] && s[..0] == []; }
  }

  /** One alarm for a value below the minimum and none otherwise: exactly unless a missing node meets minimum 0. */
  lemma {:induction false} OneMinimumExactly(k: Key, c: Config, machineFlag: nat, node: Option<Window>, now: nat)
    requires c.minOn && AlarmsFor(k, c, machineFlag, node, now).Done?
    ensures Minima(AlarmsFor(k, c, machineFlag, node, now).value, k) ==
              (if Value(node, now) < Unsigned(c.min) then 1 else 0)
            <==> node.Some? || Unsigned(c.min) != 0
  {
    hide NodeAlarms, Minima, Unsigned, MaskedFor, Adapt, MinuteOfDay;
    match node
    case Some(w) => NodeMinima(k, k, c, machineFlag, w, now);
    case None => MinimaOne(AbsentAlarms(k, c, machineFlag, now)[0], k);
  }

  // ---------- recycling ----------

  /** A node silent for ten minutes has nothing to report, but for the day-old case. */
  lemma {:induction false} SilentIsZero(w: Window, now: nat)
    requires Runs.Recyclable(w, now, 1) && w.minIdx == Slot(w.lastTime, 1)
    ensures Adapt(w, now, MinuteOfDay(now)) ==
      if DayOld(w.lastTime, now) then Adapted(w.last, w.pre) else Adapted(0, 0)
  {
    if now < w.lastTime + DAY_SEC {
      OneMinuteSlot(w.lastTime);
      MinutesApart(w.lastTime, now);
    }
  }

  lemma {:induction false} MinutesApart(t: nat, now: nat)
    requires t + 600 <= now < t + DAY_SEC
    ensures var a, m := MinuteOfDay(t), MinuteOfDay(now);
      && m != (a + 1) % DAY_MIN && m != (a + 2) % DAY_MIN
      && (m == a ==> Day(now) != Day(t) && Second(t) > 0)
      && ((m + 1) % DAY_MIN == a ==> Day(now) != Day(t) || a == 0)
  {
    var x, y := t % DAY_SEC, now % DAY_SEC;
    assert now - t == (now / DAY_SEC - t / DAY_SEC) * DAY_SEC + y - x;
    assert now / DAY_SEC == t / DAY_SEC || now / DAY_SEC == t / DAY_SEC + 1;
    assert t % 60 == x % 60;
  }

  /** The pair of values raises no alarm that a missing node does not. */
  predicate Unseen(c: Config, last: Uint32, pre: Uint32) {
    && (c.minOn ==> last == 0 && Unsigned(c.min) != 0 && c.machineType)
    && (c.maxOn ==> last <= Unsigned(c.max))
    && (c.waveOn && pre > 0 ==> Change(last, pre).Done? && Change(last, pre).value <= c.wave)
  }

  /**
   Removing a node the recycler may remove changes no machine alarm exactly when the
   minimum is not 0 and, in the day-old case, the window's two values raise none either.
   */
  lemma {:induction false} RecyclingUnseenExactly(k: Key, c: Config, machineFlag: nat, w: Window, now: nat)
    requires Runs.Recyclable(w, now, 1) && w.minIdx == Slot(w.lastTime, 1)
    ensures AlarmsFor(k, c, machineFlag, Some(w), now) == AlarmsFor(k, c, machineFlag, None, now)
            <==> if DayOld(w.lastTime, now) then Unseen(c, w.last, w.pre) else Unseen(c, 0, 0)
  {
    hide Adapt, MinuteOfDay, Slot, DayOld, AlarmsFor, Unseen;
    SilentIsZero(w, now);
    SameAlarmsExactly(k, c, machineFlag, w, now);
  }

  lemma {:induction false} SameAlarmsExactly(k: Key, c: Config, machineFlag: nat, w: Window, now: nat)
    ensures var v := Adapt(w, now, MinuteOfDay(now));
      AlarmsFor(k, c, machineFlag, Some(w), now) == AlarmsFor(k, c, machineFlag, None, now)
      <==> Unseen(c, v.last, v.pre)
  {
    hide Adapt, MinuteOfDay, MaskedFor, Unsigned, Change;
    var v, m := Adapt(w, now, MinuteOfDay(now)), MaskedFor(c, machineFlag);
    var o := WaveAlarms(k, c, m, v.last, v.pre, now);
    if o.Done? {
      JoinExactly(LowAlarms(k, c, m, v.last, now), HighAlarms(k, c, m, v.last, now), o.value,
                  AbsentAlarms(k, c, machineFlag, now));
    }
  }

  /** A minimum alarm and others are a lone minimum alarm, or nothing, only without the others. */
  lemma {:induction false} JoinExactly(low: seq<Alarm>, high: seq<Alarm>, extra: seq<Alarm>, none: seq<Alarm>)
    requires |low| <= 1 && |high| <= 1 && |extra| <= 1 && |none| <= 1
    requires (low != [] ==> low[0].kind.Minimum?) && (none != [] ==> none[0].kind.Minimum?)
    requires (high != [] ==> !high[0].kind.Minimum?) && (extra != [] ==> !extra[0].kind.Minimum?)
    ensures low + high + extra == none <==> low == none && high == [] && extra == []
  {
    var all := low + high + extra;
    if low == [] {
      assert all == high + extra;
    } else {
      assert all[0] == low[0];
      if none != [] { assert all == none <==> |all| == 1 && all[0] == none[0]; }
    }
  }
}
