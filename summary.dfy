/**
  The menu summary, built when the user presses the button: the slots are
  walked in order, slots left at the sentinel (or empty) are skipped, and each
  other slot yields one numbered row with the chosen dish and its note, looked
  up in the table of the group the slot's key names.
 */
module MenuSummary {
  import opened Common
  import opened Catalog
  import opened Form

  /** One line of the summary table: number, dish, note. */
  datatype SummaryRow = SummaryRow(number: nat, dish: string, note: string)

  /** A dropdown value that counts as a choice. */
  predicate IsPick(dish: string) {
    dish != Sentinel && dish != ""
  }

  /** A selection entry that produces a summary row. */
  predicate IsChosen(e: Item<string, string>) {
    IsPick(e.value)
  }

  /** The note of a chosen entry: its group key is recovered from the slot
      key, and the dish is looked up in that group's table. */
  function NoteFor(groupData: map<string, Table>, e: Item<string, string>): string {
    FindNote(Lookup(groupData, DecodeGroupKey(e.key)), e.value)
  }

  /** The summary of the selection dictionary `selected` (in insertion
      order); each new row is numbered one more than the rows before it. */
  function Summary(selected: seq<Item<string, string>>, groupData: map<string, Table>): seq<SummaryRow>
  {
    if |selected| == 0 then []
    else
      var front := Summary(selected[..|selected| - 1], groupData);
      var e := selected[|selected| - 1];
      if IsChosen(e) then front + [SummaryRow(|front| + 1, e.value, NoteFor(groupData, e))]
      else front
  }

  /** The summary has exactly one row per chosen entry, in entry order: its
      j-th row is numbered j + 1 and carries the dish and the note of the
      j-th chosen entry, however many entries were skipped before it. */
  lemma {:induction false} SummaryRows(selected: seq<Item<string, string>>, groupData: map<string, Table>)
    ensures var ps := Positions(selected, IsChosen);
            var r := Summary(selected, groupData);
            |r| == |ps| &&
            forall j :: 0 <= j < |ps| ==>
              r[j] == SummaryRow(j + 1, selected[ps[j]].value, NoteFor(groupData, selected[ps[j]]))
  {
    if |selected| > 0 {
      var front := selected[..|selected| - 1];
      var e := selected[|selected| - 1];
      SummaryRows(front, groupData);
      PositionsSnoc(front, e, IsChosen);
      assert selected == front + [e];
    }
  }

  /** No row at all (the "nothing selected" message) exactly when every
      entry is the sentinel or empty. */
  lemma SummaryEmptyIff(selected: seq<Item<string, string>>, groupData: map<string, Table>)
    ensures Summary(selected, groupData) == [] <==>
            forall i :: 0 <= i < |selected| ==> !IsChosen(selected[i])
  {
    SummaryRows(selected, groupData);
    PositionsEmpty(selected, IsChosen);
  }

  /** The summary loop: appends one row per chosen entry, numbering it by the
      length of the list so far. */
  method BuildSummary(selected: seq<Item<string, string>>, groupData: map<string, Table>)
    returns (chosen: seq<SummaryRow>)
    ensures chosen == Summary(selected, groupData)
  {
    chosen := [];
    for i := 0 to |selected|
      invariant chosen == Summary(selected[..i], groupData)
    {
      assert selected[..i + 1][..i] == selected[..i];
      var key, dish := selected[i].key, selected[i].value;
      if dish == Sentinel || dish == "" {
        continue;
      }
      var groupKey := DecodeGroupKey(key);
      var table := Lookup(groupData, groupKey);
      var note := FindNote(table, dish);
      chosen := chosen + [SummaryRow(|chosen| + 1, dish, note)];
    }
    assert selected[..|selected|] == selected;
  }

  /** From the form to the summary: with the selection dictionary the form
      builds, the j-th summary row is numbered j + 1 and shows the pick of the
      j-th slot that has one, with the note of the first row of that slot's
      own group table whose name is that pick. */
  lemma MenuSummaryNotes(slots: seq<string>, picks: seq<string>, groupData: map<string, Table>)
    requires |picks| == |slots|
    ensures var ps := Positions(picks, IsPick);
            var r := Summary(Selections(slots, picks), groupData);
            |r| == |ps| &&
            forall j :: 0 <= j < |ps| ==>
              r[j] == SummaryRow(j + 1, picks[ps[j]],
                                 FindNote(Lookup(groupData, slots[ps[j]]), picks[ps[j]]))
  {
    var sel := Selections(slots, picks);
    PositionsCorrespond(sel, IsChosen, picks, IsPick);
    var ps := Positions(sel, IsChosen);
    SummaryRows(sel, groupData);
    forall j | 0 <= j < |ps|
      ensures DecodeGroupKey(sel[ps[j]].key) == slots[ps[j]]
    {
      SlotKeyRoundTrip(slots[ps[j]], ps[j] + 1);
    }
  }
}
