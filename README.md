# Menu planner: a verified model of its selection logic

The menu planner is a single Streamlit page for a hotel kitchen. Each dish
group (soups, fish dishes, ...) is a CSV file. The page loads every group
once and shows 18 dropdown slots in a fixed order. Some groups appear in
several slots. When the button is pressed, the page lists the chosen dishes,
numbered, each with the note from its group's table.

This project models the deterministic part of that page in Dafny and proves
what it promises:

- **Catalog loader** (`catalog.dfy`, module `Catalog`). This is `load_group_csv`.
  The required-column check yields the missing columns in required order.
  A missing file or a missing column falls back to an empty table that has
  exactly the required columns; otherwise the parsed table is returned
  unchanged. The module also holds the dish-name column with nulls dropped,
  and the first-match note lookup.
- **Selection form** (`form.dfy`, module `Form`). This is the slot loop of
  `main`. A slot offers the sentinel `"-"` and then the dish names. Its label
  is the zero-padded position, `". "`, and the group's display label. It
  records its pick under the composite key `<group>_<position>`, and a
  separator follows positions 4, 8 and 15.
- **Summary** (`summary.dfy`, module `MenuSummary`). This is the button
  branch of `main`. Sentinel and empty picks are skipped. The group key is
  recovered from the composite key, the note is looked up, and rows are
  numbered by the running list length.
- **Page** (`page.dfy`, module `MenuPage`). This is one run of `main` as a
  whole. The configuration, the files, the dropdown values and the button
  state go in. The per-group load issues, the slot views and the outcome
  come out. The outcome is no summary, "nothing selected", or the table.
- **Helpers**. `common.dfy` holds an optional value, the enumeration of the
  positions a filter keeps, and an insertion-ordered dictionary with Python's
  `d[k] = v` semantics. `text.dfy` holds decimal numerals, two-digit zero
  padding, and split/join on a character, each with its inverse.

The file system is a map from group key to the table parsed from that
group's file. A key absent from the map is a file that does not exist.
Tables are a header plus rows. A row maps a column to an optional cell, and
`None` stands for an empty (NaN) cell. Each dropdown's returned value is an
input (`picks`, one per slot).

The composite-key round trip is the central lemma. Group keys such as
`grains_and_pasta` contain underscores. Splitting `g + "_" + str(i)` on `_`,
dropping the last piece and joining with `_` still gives back `g`, because
`str(i)` has no underscore (`Form.SlotKeyRoundTrip`). The key also
determines the position (`Form.SlotKeyInjective`). So the selection
dictionary has exactly one entry per slot, in slot order, even where group
keys repeat. And each summary row's note comes from the table of that
slot's own group (`MenuSummary.MenuSummaryNotes`).

Details of the code the model keeps:
- The option list keeps duplicate names. It drops only null cells, so an
  empty-string cell would stay.
- A note is used whenever the cell is non-null.
- The note lookup also checks that the table has a `notes` column.
- A dish that is literally named `"-"` is indistinguishable from the
  sentinel and produces no summary row.

## Model

| member | source | states |
|---|---|---|
| `Catalog.Missing` | app.py:42 | a column is listed iff it is required and absent from the header |
| `Catalog.MissingConcat` | app.py:42 | the missing list keeps the required-columns order (the filter distributes over concatenation) |
| `Catalog.LoadGroupCsv` | app.py:36-46 | no file: empty table with the required columns and a file-not-found report; a required column absent: the same empty table and the list of missing columns; otherwise the parsed table unchanged, extra columns included; in every case the table has all required columns |
| `Catalog.LoadCatalog` | app.py:55-57 | every distinct group key of the slot list is loaded exactly once; its table and its reported issue (warning or error) are what the loader gives for that group's file |
| `Catalog.NonNullNamesAt` | app.py:64 | the name list has one entry per row with a non-null name, in row order, duplicates kept |
| `Catalog.FirstMatch` | app.py:79 | returns the index of the first row whose name equals the dish exactly, or none when no row matches |
| `Catalog.FindNote` | app.py:79-82 | the note is the first matching row's `notes` cell; it is empty when no row matches, the table has no `notes` column, or the cell is null |
| `Text.DecimalRoundTrip` | app.py:67 | `str(n)` is a numeral that reads back as `n` |
| `Text.ZeroPad2RoundTrip` | app.py:65 | the `02d` rendering has at least two digits, exactly two below 100, and reads back as the number |
| `Text.JoinSplit` | app.py:77 | joining the pieces of a split with the same separator restores the string |
| `Text.SplitLast` | app.py:77 | splitting `a + sep + d` where `d` has no separator gives the pieces of `a` followed by `d` |
| `Common.Put` | app.py:67 | dict assignment appends a new key at the end and keeps the length for an existing key |
| `Common.PutKeepsKeys` | app.py:67-74 | assigning to a key already present keeps the key list, so the later walk over the items sees the same order |
| `Common.PutGet` | app.py:67 | after `d[k] = v`, `k` maps to `v` and every other key keeps its value |
| `Form.ConfiguredForm` | app.py:8-27 | the configuration has 18 slots with repeated groups and every configured group has a display label |
| `Form.SeparatorsBetweenSlots` | app.py:61 | every separator position (4, 8, 15) lies between two of the 18 slots |
| `Form.OptionsAt` | app.py:64 | a slot's options are the sentinel followed by exactly the non-null dish names in row order; the length is one plus their count |
| `Form.LabelReadsBack` | app.py:65 | the label reads back as a numeral of at least two digits denoting the position, then `". "`, then the display label, or the raw key when no label exists |
| `Form.ViewsAt` | app.py:62-70 | slot j + 1 is shown with its own label, the options of its group's table and its separator flag, for every slot in order |
| `Form.SplitSlotKey` | app.py:67 | the composite key splits into the group key's own pieces followed by the position numeral |
| `Form.SlotKeyRoundTrip` | app.py:67-77 | decoding the composite key (split on `_`, drop the last piece, join) gives back the group key, even if it contains underscores |
| `Form.SlotKeyInjective` | app.py:62-67 | equal composite keys have equal group keys and equal positions |
| `Form.SelectionsStep` | app.py:67 | recording the next slot's pick appends a fresh entry to the selection dictionary |
| `Form.SelectionsOnePerSlot` | app.py:59-67 | the selection dictionary has one entry per slot with pairwise distinct keys, and each slot's key maps to that slot's pick, even when group keys repeat |
| `Form.RenderSlots` | app.py:59-70 | the slot loop yields, per position, the label, the options and the separator flag, and a selection dictionary equal to the one-entry-per-slot dictionary in slot order |
| `MenuSummary.SummaryRows` | app.py:73-83 | the summary has exactly one row per non-sentinel, non-empty selection, in slot order; row j is numbered j + 1 and carries that selection's dish and note |
| `MenuSummary.SummaryEmptyIff` | app.py:74-86 | the summary is empty (the "nothing selected" branch) exactly when every selection is the sentinel or empty |
| `MenuSummary.BuildSummary` | app.py:72-83 | the loop's list of rows equals the summary of the selection dictionary |
| `MenuSummary.MenuSummaryNotes` | app.py:62-83 | the j-th row shows the pick of the j-th slot that has one, numbered j + 1, with the note of the first row of that slot's own group table named by the pick |
| `MenuPage.PageViews` | app.py:55-70 | each slot's view is its label, the options of its group's loaded table, and its separator flag |
| `MenuPage.PageSummary` | app.py:55-86 | the summary is empty exactly when nothing is picked; otherwise its rows are numbered 1..n in slot order, with notes from the loaded table of each slot's group |
| `MenuPage.ShowPage` | app.py:36-88 | a run reports each distinct group's load issue, shows one view per slot; without the button there is no summary; with it, "nothing selected" exactly when no slot has a pick, and otherwise the numbered table of picks and notes |

## Left out

- Streamlit rendering is not modelled: page config, title, markdown, warnings, errors, info, dropdown widgets, button and table drawing. The model returns what would be drawn: the per-group `Issue` map, the `SlotView`s and the `Outcome`.
- The dropdown widget's own state key (`group_<idx>`) and Streamlit's reruns are not modelled. A run gets the dropdown values as `picks`.
- `@st.cache_data` memoisation across runs is not modelled. It is framework caching. Within a run, each group is loaded once (`Catalog.LoadCatalog`).
- File access and CSV parsing (`os.path.exists`, `os.path.join`, `pd.read_csv`) are not modelled. Existence and the parsed table are inputs. Every cell is modelled as optional text, so pandas' type inference is not modelled, for example a name column parsed as numbers that never equals a string.
- The duplicate-column renaming that pandas applies to a header is not modelled.
- Row cells are not tied to the table's header, so the model reads the name cell where pandas would raise `KeyError` for a missing name column. The form only sees tables from `Catalog.LoadGroupCsv`, which always have the required columns.
- pandas semantics are modelled directly rather than reproduced: `dropna` is a filter over rows, `df.loc` masking plus `iloc[0]` is the first exact match, and `pd.notna` is `Some?`.
- Catalog.LoadGroupCsv: a file that exists but that `pd.read_csv` cannot parse (an empty file, a row with too many fields, bytes that are not UTF-8) raises out of the loader and stops the page before any slot is drawn. The model assumes every existing file parses, so `MenuPage.ShowPage`'s one view per slot holds only when every group file parses.
- MenuPage.ShowPage: the page takes the slot list and the label map as parameters. The running program passes the constants `Form.GroupKeysOrder` and `Form.GroupLabels`, whose shape `Form.ConfiguredForm` states.
- Text.Split: its own contract states only that there is at least one piece. Its meaning is given by `Text.JoinSplit` and `Text.SplitLast`, which are what key decoding needs. That a piece never contains the separator is not stated.
