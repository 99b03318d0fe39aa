/** Statistics periods and slots of a day. Times are seconds since a local midnight. */
module ReportClock {
  import opened Basics

  /** Length of a statistics period in minutes. */
  type Period = p: int | 1 <= p < DAY_MIN witness 1

  function Day(t: nat): nat {
    t / DAY_SEC
  }

  function MinuteOfDay(t: nat): (m: nat)
    ensures m < DAY_MIN
  {
    t % DAY_SEC / 60
  }

  function Second(t: nat): (s: nat)
    ensures s < 60
  {
    t % 60
  }

  /**
   GetDayOfMin(TIME_INFO*, period): the 0-based slot of a time of day. The remainder test
   is made on the quotient, and a whole minute can be counted to the slot before.
   */
  function Slot(t: nat, p: Period): (s: nat)
    ensures s < DAY_MIN
  {
    SlotFrom(MinuteOfDay(t) / p, p, Second(t))
  }

  function SlotFrom(q: nat, p: Period, second: nat): (s: nat)
    ensures s < DAY_MIN
  {
    var i := if q % p != 0 || second > 0 then q + 1 else q;
    if i - 1 < 0 then 0 else if i - 1 >= DAY_MIN then DAY_MIN - 1 else i - 1
  }

  /** GetStaticTimeMaxIdxOfDay. */
  function SlotsPerDay(p: Period): (n: nat)
    ensures 1 <= n <= DAY_MIN
  {
    DAY_MIN / p + if DAY_MIN % p != 0 then 1 else 0
  }

  /** IsValidStaticTime. */
  predicate ValidPeriod(p: int) {
    p in {1, 5, 10, 15, 30, 60, 120, 180}
  }

  /** The periods whose slot numbers follow the clock. */
  predicate Steady(p: Period) {
    p == 1 || p * p >= DAY_MIN
  }

  lemma {:induction false} SteadyValidPeriods(p: int)
    requires ValidPeriod(p)
    ensures Steady(p) <==> p in {1, 60, 120, 180}
  {
  }

  lemma {:induction false} MulMonotone(a: nat, b: nat, c: nat)
    requires a <= b
    ensures a * c <= b * c
  {
  }

  /** x / p is the q whose multiple lies within p below x. */
  lemma {:induction false} QuotientIs(x: nat, p: Period, q: nat)
    requires q * p <= x < q * p + p
    ensures x / p == q
  {
    var d := x / p;
    assert d * p <= x < d * p + p;
    if d < q {
      MulMonotone(d + 1, q, p);
    } else if d > q {
      MulMonotone(q + 1, d, p);
    }
  }

  lemma {:induction false} QuotientBounds(x: nat, p: Period)
    ensures x / p * p <= x < x / p * p + p
  {
  }

  lemma {:induction false} QuotientMonotone(x: nat, y: nat, p: Period)
    requires x <= y
    ensures x / p <= y / p
  {
    QuotientBounds(x, p);
    QuotientBounds(y, p);
    if x / p > y / p { MulMonotone(y / p + 1, x / p, p); }
  }

  lemma {:induction false} SmallQuotient(m: nat, p: Period)
    requires p * p >= DAY_MIN > m
    ensures m / p < p
  {
    QuotientBounds(m, p);
    if m / p >= p { MulMonotone(p, m / p, p); }
  }

  /** With one-minute periods a whole minute belongs to the slot before. */
  lemma {:induction false} OneMinuteSlot(t: nat)
    ensures Slot(t, 1) == if Second(t) > 0 || MinuteOfDay(t) == 0 then MinuteOfDay(t) else MinuteOfDay(t) - 1
  {
  }

  /** With the other steady periods slots are plain quotients. */
  lemma {:induction false} SteadySlot(t: nat, p: Period)
    requires p > 1 && Steady(p)
    ensures Slot(t, p) == MinuteOfDay(t) / p
  {
    hide MinuteOfDay, SlotFrom;
    var m := MinuteOfDay(t);
    SmallQuotient(m, p);
    SmallSlot(m, p);
  }

  lemma {:induction false} SmallSlot(m: nat, p: Period)
    requires m / p < p && m < DAY_MIN
    ensures forall s: nat :: SlotFrom(m / p, p, s) == m / p
  {
    var q := m / p;
    assert q % p == q by { QuotientIs(q, p, 0); }
    assert q <= m by { QuotientBounds(m, p); MulMonotone(1, p, q); }
  }

  // ---------- steady slots follow the clock ----------

  /** The longest period for which a new day is never mistaken for a continuation of the last one. */
  const MAX_PERIOD := 480

  lemma {:induction false} QuotientAdd(x: nat, p: Period, n: nat)
    ensures (x + n * p) / p == x / p + n
  {
    QuotientBounds(x, p);
    QuotientIs(x + n * p, p, x / p + n);
  }

  lemma {:induction false} SlotMonotone(t: nat, u: nat, p: Period)
    requires Steady(p) && t <= u && Day(t) == Day(u)
    ensures Slot(t, p) <= Slot(u, p)
  {
    assert MinuteOfDay(t) <= MinuteOfDay(u);
    if p == 1 {
      OneMinuteSlot(t);
      OneMinuteSlot(u);
    } else {
      hide Slot;
      SteadySlot(t, p);
      SteadySlot(u, p);
      QuotientMonotone(MinuteOfDay(t), MinuteOfDay(u), p);
    }
  }

  /** More than two periods later on the same day is at least two slots later. */
  lemma {:induction false} SlotGap(t: nat, u: nat, p: Period)
    requires Steady(p) && u > t + 2 * 60 * p && Day(t) == Day(u)
    ensures Slot(u, p) >= Slot(t, p) + 2
  {
    assert MinuteOfDay(u) >= MinuteOfDay(t) + 2 * p;
    if p == 1 {
      OneMinuteSlot(t);
      OneMinuteSlot(u);
    } else {
      hide Slot;
      SteadySlot(t, p);
      SteadySlot(u, p);
      QuotientAdd(MinuteOfDay(t), p, 2);
      QuotientMonotone(MinuteOfDay(t) + 2 * p, MinuteOfDay(u), p);
    }
  }

  /** Within two periods, a change of day takes the slot number down. */
  lemma {:induction false} SlotAtMidnight(t: nat, u: nat, p: Period)
    requires Steady(p) && p <= MAX_PERIOD && t <= u <= t + 2 * 60 * p && Day(t) != Day(u)
    ensures Slot(u, p) < Slot(t, p)
  {
    assert Day(u) == Day(t) + 1;
    assert MinuteOfDay(u) + p <= MinuteOfDay(t);
    if p == 1 {
      OneMinuteSlot(t);
      OneMinuteSlot(u);
    } else {
      hide Slot;
      SteadySlot(t, p);
      SteadySlot(u, p);
      QuotientAdd(MinuteOfDay(u), p, 1);
      QuotientMonotone(MinuteOfDay(u) + p, MinuteOfDay(t), p);
    }
  }

  /** One slot lasts one period. */
  lemma {:induction false} SlotLength(t: nat, u: nat, p: Period)
    requires Steady(p) && t <= u && Day(t) == Day(u) && Slot(t, p) == Slot(u, p)
    ensures u <= t + 60 * p
  {
    if p == 1 {
      OneMinuteSlot(t);
      OneMinuteSlot(u);
    } else if u > t + 60 * p {
      assert MinuteOfDay(u) >= MinuteOfDay(t) + p;
      hide Slot, MinuteOfDay;
      SteadySlot(t, p);
      SteadySlot(u, p);
      QuotientAdd(MinuteOfDay(t), p, 1);
      QuotientMonotone(MinuteOfDay(t) + p, MinuteOfDay(u), p);
    }
  }

  lemma {:induction false} SecondsInMinute(m: nat, s: nat)
    requires m < DAY_MIN && s < 60
    ensures MinuteOfDay(m * 60 + s) == m && Second(m * 60 + s) == s
  {
    var t := m * 60 + s;
    assert t / 60 == m && t % 60 == s;
    assert t % DAY_SEC == t;
  }

  /** Around the quotient p the remainder test of SlotFrom changes sides. */
  lemma {:induction false} SlotFromNear(p: Period)
    requires p > 1
    ensures SlotFrom(p, p, 1) == p && SlotFrom(p, p, 0) == p - 1
    ensures SlotFrom(p - 1, p, 1) == SlotFrom(p - 1, p, 30) == p - 1
    ensures SlotFrom(p - 2, p, 30) == p - 2
  {
    assert p % p == 0 by { QuotientIs(p, p, 1); }
  }

  lemma {:induction false} SlotAt(m: nat, s: nat, p: Period, q: nat)
    requires m < DAY_MIN && s < 60 && q * p <= m < q * p + p
    ensures Slot(m * 60 + s, p) == SlotFrom(q, p, s)
  {
    hide MinuteOfDay, Second, SlotFrom;
    SecondsInMinute(m, s);
    QuotientIs(m, p, q);
  }

  /** For every other period slot numbers run backwards: at p * p minutes and one second, then one minute on. */
  lemma {:induction false} UnsteadySlot(p: Period)
    requires !Steady(p)
    ensures var m := p * p;
      && p < m < DAY_MIN - 1
      && Slot((m - 1) * 60 + 1, p) == p - 1
      && Slot(m * 60 + 1, p) == p
      && Slot((m + 1) * 60, p) == p - 1
  {
    hide Slot, SlotFrom;
    var m := p * p;
    SquareNotDayEnd(p);
    MulMonotone(2, p, p);
    SlotFromNear(p);
    assert (p - 1) * p == m - p;
    SlotAt(m - 1, 1, p, p - 1);
    SlotAt(m, 1, p, p);
    SlotAt(m + 1, 0, p, p);
  }

  /** The slot p - 1 of such a period reaches from (p - 1) * p minutes past p * p minutes. */
  lemma {:induction false} UnsteadySlotLong(p: Period)
    requires !Steady(p)
    ensures var m := p * p;
      && p < m < DAY_MIN - 1
      && Slot((m - p - 1) * 60 + 30, p) == p - 2
      && Slot((m - p) * 60 + 1, p) == Slot((m - 1) * 60 + 30, p) == Slot((m + 1) * 60, p) == p - 1
  {
    hide Slot, SlotFrom;
    var m := p * p;
    SquareNotDayEnd(p);
    MulMonotone(2, p, p);
    SlotFromNear(p);
    assert (p - 1) * p == m - p && (p - 2) * p == m - 2 * p;
    SlotAt(m - p - 1, 30, p, p - 2);
    SlotAt(m - p, 1, p, p - 1);
    SlotAt(m - 1, 30, p, p - 1);
    SlotAt(m + 1, 0, p, p);
  }

  lemma {:induction false} SquareNotDayEnd(p: Period)
    requires p * p < DAY_MIN
    ensures p * p < DAY_MIN - 1
  {
    if p > 37 {
      MulMonotone(38, p, p);
    } else {
      MulMonotone(p, 37, p);
    }
  }

  lemma {:induction false} MinuteOfDayIs(t: nat)
    ensures MinuteOfDay(t) == t / 60 % DAY_MIN && Day(t) == t / 60 / DAY_MIN
  {
    var d, m := t / 60 / DAY_MIN, t / 60 % DAY_MIN;
    assert t == d * DAY_SEC + (m * 60 + t % 60);
    assert t % DAY_SEC == m * 60 + t % 60;
  }
}
