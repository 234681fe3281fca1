/**
  The selection form: one dropdown per configured slot, in configuration
  order. A slot offers the "no selection" sentinel followed by its group's
  dish names, is labelled with its two-digit position and the group's display
  label, and records its pick in the selection dictionary under the composite
  key `<group key>_<position>`. Group keys may repeat across slots and may
  themselves contain underscores.
 */
module Form {
  import opened Common
  import opened Text
  import opened Catalog

  /** The "no selection" option every slot starts at. */
  const Sentinel: string := "-"

  /** The slots of the form, in order: slot i (from 1) offers the group
      `GroupKeysOrder[i - 1]`. */
  const GroupKeysOrder: seq<string> := [
    "grains_and_pasta", "baked_vegetables", "potato_dishes", "fish_dishes",
    "chicken_dishes", "meat_dishes", "fried_snacks", "stuffed_vegetables",
    "fish_dishes", "baked_vegetables", "fish_dishes", "soups", "soups",
    "grains_and_pasta", "grains_and_pasta",
    "meat_dishes", "meat_special", "meat_special"
  ]

  /** Display labels of the groups. */
  const GroupLabels: map<string, string> := map[
    "grains_and_pasta" := "🍝 דגנים ופסטה",
    "baked_vegetables" := "🍠 ירקות אפויים",
    "potato_dishes" := "🥔 מנות מתפוחי אדמה",
    "fish_dishes" := "🐟 מנות דגים",
    "chicken_dishes" := "🍗 מנות עוף",
    "meat_dishes" := "🥩 מנות בשר",
    "fried_snacks" := "🍟 נשנושים מטוגנים",
    "stuffed_vegetables" := "🍆 ירקות ממולאים",
    "soups" := "🍲 מרקים",
    "meat_special" := "🧤 מיוחד בשר"
  ]

  /** The configured form: 18 slots over fewer groups (some groups are
      offered in several slots), every group with a display label. */
  lemma ConfiguredForm()
    ensures |GroupKeysOrder| == 18
    ensures GroupKeysOrder[11] == GroupKeysOrder[12] == "soups"
    ensures forall g :: g in GroupKeysOrder ==> g in GroupLabels
  {
  }

  /** Slot positions after which a horizontal rule is drawn. */
  const BreakLinesAfter: set<nat> := {4, 8, 15}

  /** Every separator falls between two slots of the configured form. */
  lemma SeparatorsBetweenSlots()
    ensures forall idx :: idx in BreakLinesAfter ==> 1 <= idx < |GroupKeysOrder|
  {
  }

  predicate SeparatorAfter(idx: nat) {
    idx in BreakLinesAfter
  }

  /** `group_data.get(g, <empty table with the required columns>)`. */
  function Lookup(groupData: map<string, Table>, g: string): Table {
    if g in groupData then groupData[g] else EmptyTable()
  }

  /** `GROUP_LABELS_HE.get(g, g)`. */
  function DisplayName(g: string, labels: map<string, string>): string {
    if g in labels then labels[g] else g
  }

  /** The options of a slot showing table `t`. */
  function Options(t: Table): seq<string> {
    [Sentinel] + NonNullNames(t.rows)
  }

  /** A slot offers the sentinel first, then exactly the dish names of the
      rows that have one, in row order and with duplicates kept. */
  lemma OptionsAt(t: Table)
    ensures var ps := Positions(t.rows, HasName);
            |Options(t)| == 1 + |ps| && Options(t)[0] == Sentinel &&
            forall j :: 0 <= j < |ps| ==> Some(Options(t)[j + 1]) == NameOf(t.rows[ps[j]])
  {
    NonNullNamesAt(t.rows);
  }

  /** The dropdown label of slot `idx`: `f"{idx:02d}. {display label}"`. */
  function Label(idx: nat, g: string, labels: map<string, string>): string {
    ZeroPad2(idx) + ". " + DisplayName(g, labels)
  }

  /** Read back, a label is a numeral of at least two digits (exactly two
      below 100) that denotes the slot position, then ". ", then the display
      label of the group, or the group key itself when it has none. */
  lemma LabelReadsBack(idx: nat, g: string, labels: map<string, string>)
    ensures var caption := Label(idx, g, labels);
            var d := if g in labels then labels[g] else g;
            var n := |caption| - |d| - 2;
            && n >= 2 && (idx < 100 ==> n == 2)
            && AllDigits(caption[..n]) && ParseDecimal(caption[..n]) == idx
            && caption[n..n + 2] == ". " && caption[n + 2..] == d
  {
    ZeroPad2RoundTrip(idx);
    var p := ZeroPad2(idx);
    assert Label(idx, g, labels)[..|p|] == p;
  }

  /** The key under which slot `idx` of group `g` records its pick. */
  function SlotKey(g: string, idx: nat): string {
    g + "_" + Decimal(idx)
  }

  /** `"_".join(key.split("_")[:-1])`: the key with its last piece dropped. */
  function DecodeGroupKey(key: string): string {
    var pieces := Split(key, '_');
    Join(pieces[..|pieces| - 1], '_')
  }

  lemma NoUnderscoreInDecimal(n: nat)
    ensures '_' !in Decimal(n)
  {
  }

  /** The composite key splits into the group key's own pieces followed by
      the decimal position. */
  lemma SplitSlotKey(g: string, idx: nat)
    ensures Split(SlotKey(g, idx), '_') == Split(g, '_') + [Decimal(idx)]
  {
    NoUnderscoreInDecimal(idx);
    SplitLast(g, '_', Decimal(idx));
  }

  /** Decoding recovers the group key, underscores and all, because the
      position suffix is a numeral without underscores. */
  lemma SlotKeyRoundTrip(g: string, idx: nat)
    ensures DecodeGroupKey(SlotKey(g, idx)) == g
  {
    SplitSlotKey(g, idx);
    var front := Split(g, '_');
    assert (front + [Decimal(idx)])[..|front|] == front;
    JoinSplit(g, '_');
  }

  /** Different slots never share a key: the key determines both the group
      key and the position. */
  lemma SlotKeyInjective(g1: string, idx1: nat, g2: string, idx2: nat)
    requires SlotKey(g1, idx1) == SlotKey(g2, idx2)
    ensures g1 == g2 && idx1 == idx2
  {
    SlotKeyRoundTrip(g1, idx1);
    SlotKeyRoundTrip(g2, idx2);
    SplitSlotKey(g1, idx1);
    SplitSlotKey(g2, idx2);
    var p1, p2 := Split(g1, '_') + [Decimal(idx1)], Split(g2, '_') + [Decimal(idx2)];
    assert p1[|p1| - 1] == p2[|p2| - 1];
    DecimalRoundTrip(idx1);
    DecimalRoundTrip(idx2);
  }

  /** What the form shows for one slot. */
  datatype SlotView = SlotView(caption: string, options: seq<string>, separatorAfter: bool)

  /** The view of slot `idx`, which offers group `g`. */
  function ViewOf(idx: nat, g: string, groupData: map<string, Table>,
                  labels: map<string, string>): SlotView
  {
    SlotView(Label(idx, g, labels), Options(Lookup(groupData, g)), SeparatorAfter(idx))
  }

  /** The views of all slots, in slot order. */
  function Views(slots: seq<string>, groupData: map<string, Table>,
                 labels: map<string, string>): seq<SlotView>
  {
    if |slots| == 0 then []
    else Views(slots[..|slots| - 1], groupData, labels)
         + [ViewOf(|slots|, slots[|slots| - 1], groupData, labels)]
  }

  /** Slot j + 1 is shown with its own label, its group's options and its
      separator flag. */
  lemma {:induction false} ViewsAt(slots: seq<string>, groupData: map<string, Table>,
                                   labels: map<string, string>)
    ensures var views := Views(slots, groupData, labels);
            |views| == |slots| &&
            forall j :: 0 <= j < |slots| ==> views[j] == ViewOf(j + 1, slots[j], groupData, labels)
  {
    if |slots| > 0 {
      var front := slots[..|slots| - 1];
      ViewsAt(front, groupData, labels);
      var v, vf := Views(slots, groupData, labels), Views(front, groupData, labels);
      var last := ViewOf(|slots|, slots[|slots| - 1], groupData, labels);
      assert v == vf + [last];
      forall j | 0 <= j < |slots|
        ensures v[j] == ViewOf(j + 1, slots[j], groupData, labels)
      {
        if j < |front| {
          assert v[j] == vf[j] && front[j] == slots[j];
        }
      }
    }
  }

  /** The selection dictionary the form builds: the pick of slot i (from 1)
      under `SlotKey(slots[i - 1], i)`, in slot order. */
  function Selections(slots: seq<string>, picks: seq<string>): seq<Item<string, string>>
    requires |picks| == |slots|
  {
    seq(|slots|, j requires 0 <= j < |slots| => Item(SlotKey(slots[j], j + 1), picks[j]))
  }

  /** The selection dictionary has one entry per slot, even where group keys
      repeat: its keys are pairwise distinct and each slot's key maps to that
      slot's pick. */
  lemma SelectionsOnePerSlot(slots: seq<string>, picks: seq<string>)
    requires |picks| == |slots|
    ensures var sel := Selections(slots, picks);
            |sel| == |slots| &&
            (forall i, j :: 0 <= i < |sel| && 0 <= j < |sel| && i != j ==> sel[i].key != sel[j].key) &&
            forall j :: 0 <= j < |slots| ==> Get(sel, SlotKey(slots[j], j + 1)) == Some(picks[j])
  {
    var sel := Selections(slots, picks);
    forall i, j | 0 <= i < |sel| && 0 <= j < |sel| && i != j
      ensures sel[i].key != sel[j].key
    {
      if sel[i].key == sel[j].key {
        SlotKeyInjective(slots[i], i + 1, slots[j], j + 1);
      }
    }
    forall j | 0 <= j < |slots|
      ensures Get(sel, SlotKey(slots[j], j + 1)) == Some(picks[j])
    {
      var k := SlotKey(slots[j], j + 1);
      assert k in KeysOf(sel) by {
        assert KeysOf(sel)[j] == k;
      }
      var r := Get(sel, k);
      var i :| 0 <= i < |sel| && sel[i] == Item(k, r.value);
      assert sel[i].key == sel[j].key;
    }
  }

  /** Recording the pick of the next slot appends a new entry: the key of
      slot `n + 1` is not among the keys of the slots before it. */
  lemma SelectionsStep(slots: seq<string>, picks: seq<string>, n: nat)
    requires n < |slots| == |picks|
    ensures Put(Selections(slots[..n], picks[..n]), SlotKey(slots[n], n + 1), picks[n])
         == Selections(slots[..n + 1], picks[..n + 1])
  {
    var sel := Selections(slots[..n], picks[..n]);
    var key := SlotKey(slots[n], n + 1);
    forall j | 0 <= j < n
      ensures KeysOf(sel)[j] != key
    {
      if KeysOf(sel)[j] == key {
        SlotKeyInjective(slots[j], j + 1, slots[n], n + 1);
      }
    }
    assert key !in KeysOf(sel);
    assert Selections(slots[..n + 1], picks[..n + 1]) == sel + [Item(key, picks[n])];
  }

  /** The slot loop of the form: for slot positions 1, 2, ... it computes
      the label, the options and the separator flag, and stores the slot's
      pick (`picks`, one per slot, what each dropdown returned) in the
      selection dictionary. */
  method RenderSlots(slots: seq<string>, groupData: map<string, Table>,
                     labels: map<string, string>, picks: seq<string>)
    returns (views: seq<SlotView>, selected: seq<Item<string, string>>)
    requires |picks| == |slots|
    ensures views == Views(slots, groupData, labels)
    ensures selected == Selections(slots, picks)
  {
    views, selected := [], [];
    var idx := 1;
    while idx <= |slots|
      invariant 1 <= idx <= |slots| + 1
      invariant views == Views(slots[..idx - 1], groupData, labels)
      invariant selected == Selections(slots[..idx - 1], picks[..idx - 1])
    {
      var g := slots[idx - 1];
      var table := Lookup(groupData, g);
      var options := Options(table);
      var caption := Label(idx, g, labels);
      var key := SlotKey(g, idx);
      SelectionsStep(slots, picks, idx - 1);
      selected := Put(selected, key, picks[idx - 1]);
      assert slots[..idx][..idx - 1] == slots[..idx - 1];
      views := views + [SlotView(caption, options, SeparatorAfter(idx))];
      idx := idx + 1;
    }
    assert slots[..|slots|] == slots && picks[..|picks|] == picks;
  }
}
