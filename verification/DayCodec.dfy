/** ChangeAttrSaveType's loops over its slot arrays, and the reader's loop over a record. */
module DayCodec {
  import opened Basics
  import opened ReportClock
  import opened ReportWindow
  import opened DayBytes
  import opened DayRecord
  import opened DayRows

  lemma {:induction false} NonZeroGrows(a: seq<Uint32>, k: nat)
    requires k < |a| <= SLOTS
    ensures NonZero(a[..k + 1]) == if a[k] != 0 then NonZero(a[..k]) + [k] else NonZero(a[..k])
    ensures |NonZero(a[..k])| <= k
  {
    assert a[..k + 1][..k] == a[..k];
  }

  lemma {:induction false} NonZeroTail(a: seq<Uint32>, k: nat)
    requires k <= |a| <= SLOTS && forall i :: k <= i < |a| ==> a[i] == 0
    ensures NonZero(a) == NonZero(a[..k])
    decreases |a|
  {
    if k < |a| {
      NonZeroTail(a[..|a| - 1], k);
      assert a[..|a| - 1][..k] == a[..k];
    } else {
      assert a[..k] == a;
    }
  }

  lemma {:induction false} NoValues(a: seq<Uint32>)
    requires |a| <= SLOTS && NonZero(a) == []
    ensures AllZero(a)
  {
    if a != [] { NoValues(a[..|a| - 1]); }
  }

  lemma {:induction false} ZerosSwapped(a: seq<Uint32>)
    requires AllZero(a)
    ensures Net32(a) == a
  {
    hide Htonl;
    NetworkOrder32(0);
  }

  /** One row added to its slot. */
  method AddRow(row: Row, values: array<Uint32>, p: Period, ghost g: Gathered, min0: Uint32, max0: Uint32,
      total0: Uint32, maxIdx0: int)
      returns (min: Uint32, max: Uint32, total: Uint32, maxIdx: int)
    requires values.Length == SLOTS && g == Gathered(values[..], min0, max0, total0, maxIdx0)
    modifies values
    ensures Gathered(values[..], min, max, total, maxIdx) == GatherRow(g, row, p)
  {
    hide Slot, Wrap32;
    min, max, total, maxIdx := min0, max0, total0, maxIdx0;
    var slot := Slot(row.at, p);
    values[slot] := Wrap32(values[slot] + row.val);
    total := Wrap32(total + values[slot]);
    if max < values[slot] {
      max := values[slot];
    }
    if min > values[slot] {
      min := values[slot];
    }
    if slot > maxIdx {
      maxIdx := slot;
    }
  }

  /** Gathers the rows of a day; maxIdx is -1 and max 0 when there are none. */
  method GatherRows(rows: seq<Row>, values: array<Uint32>, p: Period)
      returns (min: Uint32, max: Uint32, total: Uint32, maxIdx: int)
    requires values.Length == SLOTS
    modifies values
    ensures Gathered(values[..], min, max, total, maxIdx) == Gather(old(values[..]), rows, p)
  {
    hide GatherRow;
    min, max, total, maxIdx := 0, 0, 0, -1;
    var i := 0;
    assert rows[..0] == [];
    while i < |rows|
      invariant 0 <= i <= |rows|
      invariant Gathered(values[..], min, max, total, maxIdx) == Gather(old(values[..]), rows[..i], p)
    {
      assert rows[..i + 1][..i] == rows[..i];
      if i == 0 {
        max := rows[i].val;
        min := max;
        total := 0;
        forall k | 0 <= k < SLOTS {
          values[k] := 0;
        }
        assert values[..] == Zeros();
      }
      min, max, total, maxIdx :=
        AddRow(rows[i], values, p, Gathered(values[..], min, max, total, maxIdx), min, max, total, maxIdx);
      i := i + 1;
    }
    assert rows[..i] == rows;
  }

  /** The first loop: how many slots have a value. */
  method CountValues(values: array<Uint32>, maxIdx: int) returns (count: int)
    requires values.Length == SLOTS && 0 <= maxIdx < SLOTS
    ensures count == |NonZero(values[..maxIdx + 1])|
  {
    count := 0;
    var k := 0;
    while k <= maxIdx
      invariant 0 <= k <= maxIdx + 1
      invariant count == |NonZero(values[..k])|
    {
      NonZeroGrows(values[..], k);
      assert values[..][..k] == values[..k] && values[..][..k + 1] == values[..k + 1];
      if values[k] != 0 {
        count := count + 1;
      }
      k := k + 1;
    }
  }

  /** Every slot in network order, in place. */
  method SwapAll(values: array<Uint32>, n: int)
    requires values.Length == SLOTS && 0 <= n <= SLOTS
    modifies values
    ensures values[..n] == Net32(old(values[..n]))
  {
    hide Htonl;
    var k := 0;
    while k < n
      invariant 0 <= k <= n
      invariant forall i :: 0 <= i < k ==> values[i] == Htonl(old(values[i]))
      invariant forall i :: k <= i < n ==> values[i] == old(values[i])
    {
      NetworkOrder32(values[k]);
      if values[k] > 0 {
        values[k] := Htonl(values[k]);
      }
      k := k + 1;
    }
  }

  lemma {:induction false} NoneYet(a: seq<Uint32>)
    requires |a| <= SLOTS
    ensures NonZero(a[..0]) == []
  {
  }

  lemma {:induction false} CompactDone(a: seq<Uint32>, c: seq<Uint16>, i16: seq<Uint16>, w32: seq<Uint32>)
    requires |a| <= SLOTS && c == NonZero(a) && |i16| == |w32| == |c|
    requires forall i :: 0 <= i < |c| ==> i16[i] == Htons(c[i]) && w32[i] == Htonl(a[c[i]])
    ensures i16 == Net16(c) && w32 == Net32(Picked(a, c))
  {
    hide Htonl, Htons, NonZero;
  }

  /** Compaction in place: the write index never passes the read index, so no slot is lost. */
  method Compact(values: array<Uint32>, idx: array<Uint16>, maxIdx: int) returns (count: int)
    requires values.Length == idx.Length == SLOTS && 0 <= maxIdx < SLOTS
    modifies values, idx
    ensures var a := old(values[..maxIdx + 1]);
      var c := NonZero(a);
      count == |c| && idx[..count] == Net16(c) && values[..count] == Net32(Picked(a, c))
    ensures count == 0 ==> values[..] == old(values[..])
  {
    hide Htonl, Htons, NonZero, Net16, Net32, Picked;
    ghost var a, c: seq<Uint16> := values[..], [];
    NoneYet(a);
    count := 0;
    var k := 0;
    while k <= maxIdx
      invariant 0 <= k <= maxIdx + 1 && c == NonZero(a[..k]) && count == |c| <= k
      invariant forall i :: 0 <= i < |c| ==> c[i] < k
      invariant forall i :: 0 <= i < count ==> idx[i] == Htons(c[i]) && values[i] == Htonl(a[c[i]])
      invariant forall i :: k <= i < SLOTS ==> values[i] == a[i]
      invariant count == 0 ==> values[..] == a
    {
      NonZeroGrows(a, k);
      if values[k] != 0 {
        idx[count] := Htons(k);
        values[count] := Htonl(values[k]);
        count := count + 1;
        c := c + [k];
      }
      k := k + 1;
    }
    CompactDone(a[..k], c, idx[..count], values[..count]);
  }

  /** The record of one day's slots: ChangeAttrSaveType from the first count to the bytes stored. */
  method Encode(values: array<Uint32>, idx: array<Uint16>, maxIdx: int, p: Period) returns (bin: seq<Byte>)
    requires values.Length == idx.Length == SLOTS && 0 <= maxIdx < SlotsPerDay(p)
    requires forall k :: maxIdx < k < SLOTS ==> values[k] == 0
    modifies values, idx
    ensures bin == Record(old(values[..SlotsPerDay(p)]), p)
  {
    hide NonZero, Net16, Net32, Raw16, Raw32, Htons, SlotsPerDay;
    var n := SlotsPerDay(p);
    ghost var a := values[..n];
    assert a[..maxIdx + 1] == values[..maxIdx + 1];
    NonZeroTail(a, maxIdx + 1);
    var count := CountValues(values, maxIdx);
    if count * 2 > n {
      SwapAll(values, n);
      count := -1;
    } else {
      count := Compact(values, idx, maxIdx);
      assert Picked(a, NonZero(a)) == Picked(a[..maxIdx + 1], NonZero(a));
    }
    if count > 0 {
      bin := [PRESS_V2] + Raw16([Htons(p)]) + Raw16([Htons(count)]) + Raw16(idx[..count]) + Raw32(values[..count]);
    } else {
      if count == 0 {
        NoValues(a);
        ZerosSwapped(a);
      }
      bin := [ARRAY_V2] + Raw16([Htons(p)]) + Raw32(values[..n]);
    }
  }

  // ---------- the reader ----------

  /** The i-th entry as the reader addresses it: values from valAt on, indices right after the header. */
  function EntryAt(bin: seq<Byte>, form: Form, valAt: nat, i: nat): Entry
    requires valAt + 4 * i + 4 <= |bin| && (form.Pressed? ==> 5 + 2 * i + 2 <= |bin|)
  {
    Entry(if form.Pressed? then Htons(Load16(bin, 5 + 2 * i)) else i,
          if form.Oldest? then Load32(bin, valAt + 4 * i) else Htonl(Load32(bin, valAt + 4 * i)))
  }

  /** Chooses among the three formats; count is negative when none fits. */
  method ReadHeader(bin: seq<Byte>) returns (form: Form, slots: nat, count: int, valAt: nat)
    ensures count < 0 <==> Parse(bin).None?
    ensures count >= 0 ==>
      && form == Parse(bin).value.form && slots == Parse(bin).value.slots && count == |Parse(bin).value.entries|
      && (form.Pressed? ==> 5 + 2 * count <= |bin|) && valAt + 4 * count <= |bin|
      && forall i :: 0 <= i < count ==> Parse(bin).value.entries[i] == EntryAt(bin, form, valAt, i)
  {
    hide SlotsPerDay, Load16, Load32, Htons, Htonl, HeaderWord;
    form, slots, count, valAt := Plain, 0, -1, 0;
    var ctype := if bin == [] then 0 else bin[0];
    if count < 0 && ctype == ARRAY_V2 {
      var p := HeaderWord(bin, 1);
      if ValidPeriod(p) {
        slots := SlotsPerDay(p);
        if |bin| == 3 + 4 * slots {
          valAt := 3;
          count := slots;
        }
      }
    }
    if count < 0 && ctype == PRESS_V2 {
      var p := HeaderWord(bin, 1);
      if ValidPeriod(p) {
        form := Pressed;
        slots := SlotsPerDay(p);
        count := HeaderWord(bin, 3);
        if |bin| == 5 + 6 * count {
          valAt := 5 + 2 * count;
        } else {
          count := -1;
        }
      }
    }
    if count < 0 && |bin| == 4 * SLOTS {
      form, slots, count, valAt := Oldest, SLOTS, SLOTS, 0;
    }
  }

  /** One round of the reader's loop. */
  method ApplyEntry(e: Entry, form: Form, slots: nat, ty: DataType, report: array<Uint32>, min0: Uint32,
      max0: Uint32, total0: Uint32)
      returns (ok: bool, min: Uint32, max: Uint32, total: Uint32)
    requires report.Length == SLOTS
    modifies report
    ensures var o := ReadEntry(Reading(old(report[..]), min0, max0, total0), e, form, slots, ty);
      && ok == o.Done?
      && (ok ==> o.value == Reading(report[..], min, max, total))
  {
    hide Combine, Wrap32;
    ok, min, max, total := true, min0, max0, total0;
    if form.Pressed? && e.slot > slots {
      return;
    }
    if e.slot >= SLOTS {
      ok := false;
      return;
    }
    report[e.slot] := if form.Oldest? then Wrap32(report[e.slot] + e.val) else Combine(report[e.slot], e.val, ty);
    total := Wrap32(total + report[e.slot]);
    if report[e.slot] > max {
      max := report[e.slot];
    }
    if report[e.slot] < min && report[e.slot] != 0 {
      min := report[e.slot];
    }
  }

  /**
   Combines a record into the report and recomputes its totals. ok is false for a slot beyond
   the array, found is false when no format fits.
   */
  method ReadRecord(bin: seq<Byte>, report: array<Uint32>, ty: DataType)
      returns (ok: bool, found: bool, min: Uint32, max: Uint32, total: Uint32)
    requires report.Length == SLOTS
    modifies report
    ensures var o := Decode(bin, old(report[..]), ty);
      && ok == o.Done?
      && (ok ==> found == o.value.Some?)
      && (ok && found ==> o.value.value == Reading(report[..], min, max, total))
      && (ok && !found ==> report[..] == old(report[..]))
  {
    hide Parse, Combine, ReadEntry, EntryAt;
    ok, found, min, max, total := true, true, UINT_MAX, 0, 0;
    var form, slots, count, valAt := ReadHeader(bin);
    if count < 0 {
      found := false;
      return;
    }
    ghost var es := Parse(bin).value.entries;
    assert es[..0] == [];
    var i := 0;
    while i < count
      invariant 0 <= i <= count
      invariant ReadEntries(old(report[..]), es[..i], form, slots, ty) == Done(Reading(report[..], min, max, total))
    {
      assert es[..i + 1][..i] == es[..i];
      ok, min, max, total := ApplyEntry(EntryAt(bin, form, valAt, i), form, slots, ty, report, min, max, total);
      i := i + 1;
      if !ok {
        UndefinedStays(old(report[..]), es, i, form, slots, ty);
        return;
      }
    }
    assert es[..i] == es;
  }

  lemma {:induction false} UndefinedStays(report: seq<Uint32>, es: seq<Entry>, i: nat, form: Form,
      slots: nat, ty: DataType)
    requires i <= |es| && ReadEntries(report, es[..i], form, slots, ty).Undefined?
    ensures ReadEntries(report, es, form, slots, ty).Undefined?
    decreases |es|
  {
    if i < |es| {
      assert es[..|es| - 1][..i] == es[..i];
      UndefinedStays(report, es[..|es| - 1], i, form, slots, ty);
    } else {
      assert es[..i] == es;
    }
  }
}
