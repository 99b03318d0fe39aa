/** DealSaveOprMachinePlugin: from the submitted form to the settings text. */
module CfgPrint {
  import opened Basics
  import opened CfgText

  /** A setting of the plugin, with the form's value and check box. */
  datatype Item = Item(name: string, modifiable: bool, value: Option<string>, checked: bool)

  /** A further setting is named by its check box. */
  datatype Custom = Custom(box: string, value: Option<string>)

  /** A form is turned down for a value with a space or a semicolon; a missing custom value is read all the same. */
  datatype FormResult = Printed(settings: seq<Setting>) | Rejected | NullValue

  /** Behind the prefix "chk_". */
  function NameOf(box: string): string {
    if |box| >= 4 then box[4..] else ""
  }

  predicate Submitted(x: Item) {
    x.modifiable && x.value.Some? && x.value.value != "" && x.checked
  }

  function FromItems(items: seq<Item>): FormResult {
    if items == [] then Printed([])
    else
      var o, x := FromItems(items[..|items| - 1]), items[|items| - 1];
      if !o.Printed? || !Submitted(x) then o
      else if !Clean(x.value.value) then Rejected
      else Printed(o.settings + [Setting(x.name, x.value.value)])
  }

  function FromCustoms(o: FormResult, customs: seq<Custom>): FormResult {
    if customs == [] then o
    else
      var p, x := FromCustoms(o, customs[..|customs| - 1]), customs[|customs| - 1];
      if !p.Printed? then p
      else if x.value.None? then NullValue
      else if !Clean(x.value.value) then Rejected
      else Printed(p.settings + [Setting(NameOf(x.box), x.value.value)])
  }

  predicate ValuesClean(l: seq<Setting>) {
    forall i :: 0 <= i < |l| ==> Clean(l[i].value)
  }

  predicate NamesClean(l: seq<Setting>) {
    forall i :: 0 <= i < |l| ==> Clean(l[i].name)
  }

  lemma {:induction false} ItemsClean(items: seq<Item>)
    requires FromItems(items).Printed?
    ensures ValuesClean(FromItems(items).settings)
  {
    hide Clean;
    if items != [] { ItemsClean(items[..|items| - 1]); }
  }

  lemma {:induction false} CustomsClean(o: FormResult, customs: seq<Custom>)
    requires o.Printed? && ValuesClean(o.settings) && FromCustoms(o, customs).Printed?
    ensures ValuesClean(FromCustoms(o, customs).settings)
  {
    hide Clean;
    if customs != [] { CustomsClean(o, customs[..|customs| - 1]); }
  }

  /**
   What any accepted form printed is read back as it was exactly when its names hold no space
   or semicolon and nothing is empty or has blank ends. With such names only trimming is lost.
   */
  lemma {:induction false} FormRoundTrip(items: seq<Item>, customs: seq<Custom>)
    requires FromCustoms(FromItems(items), customs).Printed?
    ensures var l := FromCustoms(FromItems(items), customs).settings;
      && (Scan(Print(l)) == l <==> Sturdy(l) && NamesClean(l))
      && (NamesClean(l) ==> Scan(Print(l)) == Trimmed(l))
  {
    hide FromItems, FromCustoms, Scan, Print, Trimmed, Sturdy;
    PrintedFirst(FromItems(items), customs);
    ItemsClean(items);
    CustomsClean(FromItems(items), customs);
    var l := FromCustoms(FromItems(items), customs).settings;
    RoundTripExactly(l);
    if NamesClean(l) { ScanPrint(l); }
  }

  lemma {:induction false} PrintedFirst(o: FormResult, customs: seq<Custom>)
    requires FromCustoms(o, customs).Printed?
    ensures o.Printed?
  {
    if customs != [] { PrintedFirst(o, customs[..|customs| - 1]); }
  }

  // ---------- which settings, and which forms ----------

  /** The box of a setting is its name behind "chk_". */
  lemma {:induction false} BoxOfName(name: string)
    ensures NameOf("chk_" + name) == name
  {
  }

  /** A modifiable setting with a value and its box checked. */
  predicate Chosen(x: Item) {
    x.modifiable && x.checked && x.value.Some? && |x.value.value| > 0
  }

  predicate Accepted(value: string) {
    forall i :: 0 <= i < |value| ==> value[i] != ' ' && value[i] != ';'
  }

  function ChosenCount(items: seq<Item>): nat {
    if items == [] then 0 else ChosenCount(items[..|items| - 1]) + if Chosen(items[|items| - 1]) then 1 else 0
  }

  lemma {:induction false} CleanIsAccepted(value: string)
    ensures Clean(value) <==> Accepted(value)
  {
    if Clean(value) { assert forall i :: 0 <= i < |value| ==> value[i] in value; }
  }

  lemma {:induction false} ItemsAccepted(items: seq<Item>)
    ensures FromItems(items).Printed? <==>
      forall k :: 0 <= k < |items| && Chosen(items[k]) ==> Accepted(items[k].value.value)
    ensures !FromItems(items).Printed? ==> FromItems(items) == Rejected
    ensures FromItems(items).Printed? ==> |FromItems(items).settings| == ChosenCount(items)
  {
    hide Clean, Accepted;
    if items != [] {
      var n := |items| - 1;
      ItemsAccepted(items[..n]);
      assert forall k :: 0 <= k < n ==> items[..n][k] == items[k];
      if Chosen(items[n]) { CleanIsAccepted(items[n].value.value); }
    }
  }

  lemma {:induction false} ItemPlace(items: seq<Item>, k: nat)
    requires FromItems(items).Printed? && k < |items| && Chosen(items[k])
    ensures var l, p := FromItems(items).settings, ChosenCount(items[..k]);
      p < |l| && l[p] == Setting(items[k].name, items[k].value.value)
    decreases |items|
  {
    hide Clean, Accepted;
    var n := |items| - 1;
    ItemsAccepted(items[..n]);
    if k < n {
      assert items[..n][..k] == items[..k];
      ItemPlace(items[..n], k);
    }
  }

  /** The plugin's settings: accepted exactly with good values, and then the chosen ones in their order. */
  lemma {:induction false} ItemsExactly(items: seq<Item>)
    ensures FromItems(items).Printed? <==>
      forall k :: 0 <= k < |items| && Chosen(items[k]) ==> Accepted(items[k].value.value)
    ensures !FromItems(items).Printed? ==> FromItems(items) == Rejected
    ensures FromItems(items).Printed? ==>
      var l := FromItems(items).settings;
      && |l| == ChosenCount(items)
      && forall k :: 0 <= k < |items| && Chosen(items[k]) ==>
           ChosenCount(items[..k]) < |l| && l[ChosenCount(items[..k])] == Setting(items[k].name, items[k].value.value)
  {
    hide FromItems, ChosenCount, Accepted;
    ItemsAccepted(items);
    if FromItems(items).Printed? {
      forall k | 0 <= k < |items| && Chosen(items[k])
        ensures var l, p := FromItems(items).settings, ChosenCount(items[..k]);
          p < |l| && l[p] == Setting(items[k].name, items[k].value.value)
      {
        ItemPlace(items, k);
      }
    }
  }

  /** A custom setting with a good value. */
  predicate Fine(x: Custom) {
    x.value.Some? && Accepted(x.value.value)
  }

  /** The custom settings: all or nothing, in their order; the first bad one decides how the form fails. */
  lemma {:induction false} CustomsExactly(o: FormResult, customs: seq<Custom>)
    requires o.Printed?
    ensures var p := FromCustoms(o, customs);
      && (p.Printed? <==> forall k :: 0 <= k < |customs| ==> Fine(customs[k]))
      && (p == NullValue <==> exists k :: 0 <= k < |customs| && customs[k].value.None?
                                          && forall j :: 0 <= j < k ==> Fine(customs[j]))
      && (p.Printed? ==>
            && |p.settings| == |o.settings| + |customs| && o.settings <= p.settings
            && forall k :: 0 <= k < |customs| ==>
                 p.settings[|o.settings| + k] == Setting(NameOf(customs[k].box), customs[k].value.value))
  {
    hide Clean, Accepted, NameOf;
    if customs != [] {
      var n := |customs| - 1;
      var g, x := customs[..n], customs[n];
      CustomsExactly(o, g);
      assert forall k :: 0 <= k < n ==> g[k] == customs[k];
      if x.value.Some? { CleanIsAccepted(x.value.value); }
    }
  }

  class Printer {
    var ss: string     // the stream
    var count: nat     // iModCfgItemCount

    method Append(x: Setting, ghost l: seq<Setting>)
      requires ss == Print(l) && count == |l|
      modifies this
      ensures ss == Print(l + [x]) && count == |l| + 1
    {
      PrintSnoc(l, x);
      if l != [] { NotEmpty(l); }
      if |ss| > 0 {
        ss := ss + ";" + x.name + " " + x.value;
      } else {
        ss := x.name + " " + x.value;
      }
      count := count + 1;
      assert ss == Print(l + [x]) by { assert ";" + x.name + " " + x.value == ";" + Text(x); }
    }

    method Run(items: seq<Item>, customs: seq<Custom>) returns (o: FormResult)
      modifies this
      ensures o == FromCustoms(FromItems(items), customs)
      ensures o.Printed? ==> ss == Print(o.settings) && count == |o.settings|
    {
      hide Print, Clean, NameOf;
      ss, count := "", 0;
      o := Printed([]);
      assert ss == Print([]) by { NothingPrinted(); }
      var i := 0;
      while i < |items|
        invariant 0 <= i <= |items| && o.Printed? && o == FromItems(items[..i])
        invariant ss == Print(o.settings) && count == |o.settings|
      {
        var x := items[i];
        assert items[..i + 1][..i] == items[..i];
        if Submitted(x) {
          if !Clean(x.value.value) {
            RejectedStays(items, customs, i + 1);
            return Rejected;
          }
          Append(Setting(x.name, x.value.value), o.settings);
          o := Printed(o.settings + [Setting(x.name, x.value.value)]);
        }
        i := i + 1;
      }
      assert items[..i] == items;
      ghost var p := o;
      i := 0;
      assert customs[..0] == [];
      while i < |customs|
        invariant 0 <= i <= |customs| && o.Printed? && o == FromCustoms(p, customs[..i])
        invariant ss == Print(o.settings) && count == |o.settings|
      {
        var x := customs[i];
        assert customs[..i + 1][..i] == customs[..i];
        if x.value.None? {
          FailureStays(p, customs, i + 1);
          return NullValue;
        }
        if !Clean(x.value.value) {
          FailureStays(p, customs, i + 1);
          return Rejected;
        }
        Append(Setting(NameOf(x.box), x.value.value), o.settings);
        o := Printed(o.settings + [Setting(NameOf(x.box), x.value.value)]);
        i := i + 1;
      }
      assert customs[..i] == customs;
    }
  }

  lemma {:induction false} NothingPrinted()
    ensures Print([]) == ""
  {
  }

  lemma {:induction false} FailureStays(o: FormResult, customs: seq<Custom>, i: nat)
    requires i <= |customs| && !FromCustoms(o, customs[..i]).Printed?
    ensures FromCustoms(o, customs) == FromCustoms(o, customs[..i])
    decreases |customs|
  {
    if i < |customs| {
      assert customs[..|customs| - 1][..i] == customs[..i];
      FailureStays(o, customs[..|customs| - 1], i);
    } else {
      assert customs[..i] == customs;
    }
  }

  lemma {:induction false} RejectedStays(items: seq<Item>, customs: seq<Custom>, i: nat)
    requires i <= |items| && FromItems(items[..i]) == Rejected
    ensures FromCustoms(FromItems(items), customs) == Rejected
    decreases |items|
  {
    if i < |items| {
      assert items[..|items| - 1][..i] == items[..i];
      RejectedStays(items[..|items| - 1], [], i);
    } else {
      assert items[..i] == items;
    }
    assert customs[..0] == [];
    FailureStays(FromItems(items), customs, 0);
  }
}
