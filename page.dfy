/**
  One run of the menu planner page: load every group once (keeping what each
  load reported), render the slots, and, if the button was pressed, build
  the summary and decide between the "nothing selected" message and the
  table. The static configuration (the slot list and the label map; the page
  uses `GroupKeysOrder` and `GroupLabels`), the files, the dropdown values
  and the button state are the inputs.
 */
module MenuPage {
  import opened Common
  import opened Catalog
  import opened Form
  import opened MenuSummary

  /** What the page shows below the form. */
  datatype Outcome = NoSummary | NothingSelected | MenuTable(rows: seq<SummaryRow>)

  /** What LoadCatalog promises about the tables of the groups of `slots`. */
  ghost predicate LoadedFrom(slots: seq<string>, files: map<string, Table>, groupData: map<string, Table>) {
    && groupData.Keys == (set g | g in slots)
    && forall g :: g in groupData ==> groupData[g] == LoadedTable(files, g)
  }

  /** Every group a slot offers was loaded, so looking it up gives the
      table the loader made from its file. */
  lemma CatalogLookup(slots: seq<string>, files: map<string, Table>, groupData: map<string, Table>)
    requires LoadedFrom(slots, files, groupData)
    ensures forall j :: 0 <= j < |slots| ==> Lookup(groupData, slots[j]) == LoadedTable(files, slots[j])
  {
    forall j | 0 <= j < |slots|
      ensures Lookup(groupData, slots[j]) == LoadedTable(files, slots[j])
    {
      assert slots[j] in groupData.Keys;
    }
  }

  /** The slot views in terms of the files: slot j + 1 offers the names of
      the table loaded for its group. */
  lemma PageViews(slots: seq<string>, labels: map<string, string>,
                  files: map<string, Table>, groupData: map<string, Table>)
    requires LoadedFrom(slots, files, groupData)
    ensures var views := Views(slots, groupData, labels);
            |views| == |slots| &&
            forall j :: 0 <= j < |slots| ==>
              views[j] == SlotView(Label(j + 1, slots[j], labels),
                                   Options(LoadedTable(files, slots[j])),
                                   SeparatorAfter(j + 1))
  {
    CatalogLookup(slots, files, groupData);
    ViewsAt(slots, groupData, labels);
  }

  /** The summary in terms of the files and the dropdown values. */
  lemma PageSummary(slots: seq<string>, picks: seq<string>,
                    files: map<string, Table>, groupData: map<string, Table>)
    requires |picks| == |slots|
    requires LoadedFrom(slots, files, groupData)
    ensures var r := Summary(Selections(slots, picks), groupData);
            var ps := Positions(picks, IsPick);
            && (r == [] <==> forall i :: 0 <= i < |picks| ==> !IsPick(picks[i]))
            && |r| == |ps|
            && forall j :: 0 <= j < |ps| ==>
                 r[j] == SummaryRow(j + 1, picks[ps[j]],
                                    FindNote(LoadedTable(files, slots[ps[j]]), picks[ps[j]]))
  {
    CatalogLookup(slots, files, groupData);
    MenuSummaryNotes(slots, picks, groupData);
    PositionsEmpty(picks, IsPick);
  }

  /** `files` maps each group key whose file exists to its parsed table,
      `picks` holds the value of each dropdown, and `pressed` says whether
      the summary button was clicked in this run. The page reports each
      group's load issue, shows one view per slot and then the outcome. */
  method ShowPage(slots: seq<string>, labels: map<string, string>,
                  files: map<string, Table>, picks: seq<string>, pressed: bool)
    returns (issues: map<string, Issue>, views: seq<SlotView>, outcome: Outcome)
    requires |picks| == |slots|
    ensures issues.Keys == set g | g in slots
    ensures forall g :: g in issues ==> issues[g] == LoadedIssue(files, g)
    ensures |views| == |slots|
    ensures forall j :: 0 <= j < |views| ==>
              views[j] == SlotView(Label(j + 1, slots[j], labels),
                                   Options(LoadedTable(files, slots[j])),
                                   SeparatorAfter(j + 1))
    ensures !pressed ==> outcome == NoSummary
    ensures pressed ==>
              (outcome == NothingSelected <==> forall i :: 0 <= i < |picks| ==> !IsPick(picks[i]))
    ensures pressed && outcome != NothingSelected ==>
              var ps := Positions(picks, IsPick);
              outcome.MenuTable? && |outcome.rows| == |ps| &&
              forall j :: 0 <= j < |ps| ==>
                outcome.rows[j] == SummaryRow(j + 1, picks[ps[j]],
                                              FindNote(LoadedTable(files, slots[ps[j]]), picks[ps[j]]))
  {
    var groupData;
    groupData, issues := LoadCatalog(slots, files);
    var selected;
    views, selected := RenderSlots(slots, groupData, labels, picks);
    PageViews(slots, labels, files, groupData);
    if !pressed {
      outcome := NoSummary;
      return;
    }
    var chosen := BuildSummary(selected, groupData);
    PageSummary(slots, picks, files, groupData);
    if |chosen| == 0 {
      outcome := NothingSelected;
    } else {
      outcome := MenuTable(chosen);
    }
  }
}
