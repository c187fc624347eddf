# OnTask view logic in Dafny

OnTask is a Django application. Instructors use it to upload and merge
student data tables and to define personalised "actions" on those tables.
This project models the small pieces of deterministic logic inside three of
its view modules and proves properties about them.

- **Upload and merge wizard** (`src/dataops/upload.py`, module `Upload`):
  - Step 2 keeps two lists in the session, `rename_column_names` and
    `columns_to_upload`. They are created on first entry and then
    overwritten position by position. This is the class `UploadData`.
  - Step 3 derives the destination and source candidate key lists by
    filtering.
  - Step 4 builds the merge preview report. The method `UploadReport` walks
    the sorted, duplicate-free union of destination names and renamed
    source names. It skips the two merge keys and emits one row per
    remaining column, following the eight documented cases. The method is
    proved against the function `MergeReport`. Python's
    `sorted(set(...))` is `SortedSet`, and `SortedUnique` shows that it is
    the only strictly sorted listing of that set.
- **Action views** (`src/action/views_action.py`, module `ActionViews`):
  - Preview navigation: the row count falls back to the table's row count,
    an index outside the rows is reset to 1, and previous/next wrap around.
  - Clone-name search: "Copy of " is prefixed until the name is unused.
  - Selecting and unselecting columns of an action. `Action` is a class
    holding a column set.
  - The server-side page of the run table: the Python slice
    `qs[start:start + length]`, with the first key column of every row
    turned into a link.
- **Export id list** (`src/workflow/import_export_views.py`, module
  `ImportExport`):
  - The export form joins the decimal ids of the selected actions with
    commas.
  - The export view splits on commas and parses every piece with Python's
    `int()`. Any bad piece makes the list invalid.
  - `ExportRoundTrip` proves that the written list reads back as the same
    ids.
- Module `Common` holds `Option` and the order-preserving filter
  `KeepWhere`, which is `[v for x, v in enumerate(s) if keep[x]]`.

The docstring of `export` says the first list element is a 0/1 "include
data" flag (`src/workflow/import_export_views.py:64-71`). The code treats
every element as an action id (lines 84 and 88), and the form writes only
ids (line 53). The model follows the code.

## Model

| member | source | states |
|---|---|---|
| Common.KeepWhere | src/dataops/upload.py:262-263 | the comprehension keeps every element whose flag is set, keeps nothing whose flag is clear, and never grows the list |
| Common.KeepWhereLength | src/dataops/upload.py:262-263 | the comprehension's result has exactly as many elements as there are set flags |
| Common.KeepWhereAppend | src/dataops/upload.py:262-263 | filtering a concatenation is the concatenation of the filtered parts, so the kept elements stay in their original order |
| Upload.UploadData.constructor | src/dataops/upload.py:57-59 | the session after step 1 knows the initial column names; neither step-2 list exists yet |
| Upload.UploadData.PrepareLists | src/dataops/upload.py:65-75 | get-or-create: a missing rename list becomes a copy of the initial names and a missing upload list becomes all true; on first entry both have the initial names' length; existing lists are kept |
| Upload.UploadData.ApplyColumnForm | src/dataops/upload.py:125-130 | position `i` of both lists is overwritten with the form's new name and upload flag for every `i` below the number of initial columns; lengths and all later positions are unchanged |
| Upload.DstUniqueColNames | src/dataops/upload.py:259-264 | exactly the destination names whose unique flag is set |
| Upload.SrcUniqueColNames | src/dataops/upload.py:266-272 | exactly the renamed source names whose key flag and upload flag are both true |
| Upload.BelowIrreflexive | src/dataops/upload.py:427-430 | no name sorts strictly before itself under Python's string order |
| Upload.BelowTransitive | src/dataops/upload.py:427-430 | Python's string order is transitive |
| Upload.BelowTotal | src/dataops/upload.py:427-430 | any two distinct names are ordered one way or the other |
| Upload.BelowAsymmetric | src/dataops/upload.py:427-430 | two names are never each below the other |
| Upload.Insert | src/dataops/upload.py:427-430 | inserting into a strictly sorted list keeps it strictly sorted and adds exactly the new name |
| Upload.SortedSet | src/dataops/upload.py:427-430 | `sorted(set(xs))`: strictly sorted, holding exactly the names of `xs` |
| Upload.SortedUnique | src/dataops/upload.py:427-430 | two strictly sorted lists with the same names are equal, so the final column list depends only on the set of names |
| Upload.SrcInfo | src/dataops/upload.py:431-436 | the dictionary's keys are exactly the renamed names of the zipped prefix |
| Upload.SrcInfoLastWins | src/dataops/upload.py:431-436 | a renamed name's entry holds the initial name and load flag of its last occurrence |
| Upload.ZipLength | src/dataops/upload.py:432-436 | `zip` stops at the shortest of the three lists |
| Upload.ReportRowFor | src/dataops/upload.py:474-505 | the row is marked loaded exactly when the column has a source counterpart marked for upload; for a non-empty name, the source side is empty exactly when there is no source counterpart, and the destination side is empty exactly for an ignored column absent from the destination |
| Upload.ReportRowByCase | src/dataops/upload.py:441-505 | the exact row of each documented case 2-8: (name, False, '') for destination-only columns, the " (Ignored)" rows, and the " (New)"/" (Update)" and " (Renamed)" tags of loaded columns |
| Upload.ReportRowShowsCase | src/dataops/upload.py:441-505 | for a non-empty name, the row shown determines its documented case, so no two cases look alike |
| Upload.NonKeyColumns | src/dataops/upload.py:468-472 | the columns that get a row are exactly those that are neither selected key; sortedness is kept |
| Upload.EachColumnOneRow | src/dataops/upload.py:467-505 | every column of the union other than the two keys gets exactly one row, and the rows are in strictly increasing name order |
| Upload.MergeReportStep | src/dataops/upload.py:468-505 | one more walked column adds exactly its row, or nothing when it is one of the two keys |
| Upload.UploadReport | src/dataops/upload.py:423-505 | the loop's `info` is the report of the sorted union, restricted to non-key columns, with the row of each column's case |
| ActionViews.PreviewNavigation | src/action/views_action.py:837-856 | the count falls back to the row count when there is no filter or the stored count is -1; a valid index is kept and any other index becomes 1; for a positive count the index, previous and next lie in [1, count] and next/previous are the cyclic successor/predecessor; for a count <= 0 the index and next are 1 and previous is the count |
| ActionViews.NavigationRoundTrip | src/action/views_action.py:850-856 | "previous" undoes "next" and "next" undoes "previous" |
| ActionViews.ForwardVisitsEveryRow | src/action/views_action.py:850-856 | pressing "next" from row 1 shows rows 2, 3, ..., count in turn |
| ActionViews.ForwardIsPeriodic | src/action/views_action.py:850-856 | after count presses of "next" the preview is back where it started |
| ActionViews.CopyName | src/action/views_action.py:1291-1294 | `k` prefixes: the name grows by 8 characters per prefix, ends with the original name and, for k >= 1, starts with "Copy of " |
| ActionViews.CloneName | src/action/views_action.py:1290-1294 | the clone's name is "Copy of " prefixed k >= 1 times for the least k giving an unused name; the loop terminates |
| ActionViews.SelectColumns | src/action/views_action.py:745-753 | without the key flag, or when it is a key, the chosen column is present afterwards; a non-key column selected with the key flag is present exactly when it was already there and was not the current key; under the key flag the current key is removed; no other column changes |
| ActionViews.SelectKeyKeepsOneKey | src/action/views_action.py:745-751 | selecting with the key flag keeps at most one key column, and that column is the chosen one when it is a key |
| ActionViews.Action.SelectColumn | src/action/views_action.py:745-753 | with the key flag, the current first key column is removed and the column is added only if it is a key; without it, the column is added; no other column changes |
| ActionViews.Action.UnselectColumn | src/action/views_action.py:794 | exactly the given column is removed; every other column stays as it was |
| ActionViews.KeyIndex | src/action/views_action.py:1143 | the position of the first key column, or none when there is no key column (the `next` call raises) |
| ActionViews.SliceBound | src/action/views_action.py:1171 | where a Python slice bound lands: an in-range bound is kept, a negative bound counts from the end (`x + len`), a bound below `-len` becomes 0 and one above `len` becomes `len` |
| ActionViews.PySlice | src/action/views_action.py:1171 | Python's `s[i:j]`: the elements of `s` from the start bound up to the end bound, in order, and empty when the end bound is not past the start bound; at most `j - i` long; the plain slice for in-range bounds |
| ActionViews.PySliceNegativeStart | src/action/views_action.py:1171 | a negative start counts from the end: `s[i:j] == s[i + len(s):j]` |
| ActionViews.PySliceNegativeEnd | src/action/views_action.py:1171 | a negative end counts from the end: `s[i:j] == s[i:j + len(s)]` |
| ActionViews.PySliceAllButLast | src/action/views_action.py:1171 | the page asked for with start 0 and length -1 is `qs[0:-1]`, every row but the last |
| ActionViews.LinkRow | src/action/views_action.py:1173-1185 | the row keeps its length; exactly the cell at the key position becomes a link, carrying the action, the key name and that row's key value; every other cell is the row's value |
| ActionViews.ServerSidePage | src/action/views_action.py:1141-1199 | no page exactly when no key column exists; otherwise the page is `qs[start:start+length]` in order, with at most `length` rows, each equal to its source row except the key cell, which becomes a link carrying that row's key value; `recordsFiltered` is `len(qs)` |
| ImportExport.NatToString | src/workflow/import_export_views.py:49 | `str(n)`: at least one decimal digit, no leading zero |
| ImportExport.DigitsOfNat | src/workflow/import_export_views.py:49 | the decimal digits of `n` denote `n` |
| ImportExport.Strip | src/workflow/import_export_views.py:84 | what `int()` ignores: only white space is removed, at both ends, and the kept part neither starts nor ends with white space |
| ImportExport.ParseInt | src/workflow/import_export_views.py:84 | `int()` rejects an empty or all-blank string |
| ImportExport.ParseIntAccepts | src/workflow/import_export_views.py:84 | `int()` accepts only strings holding a digit and nothing but white space, signs and digits |
| ImportExport.ParseNatToString | src/workflow/import_export_views.py:49-84 | `int(str(n)) == n` |
| ImportExport.ParseNegative | src/workflow/import_export_views.py:84 | `int("-" + str(n)) == -n` |
| ImportExport.ParseIgnoresLeadingSpace | src/workflow/import_export_views.py:84 | leading white space does not change what `int()` reads |
| ImportExport.Join | src/workflow/import_export_views.py:53 | `','.join(pieces)` is empty exactly for no pieces or a single empty piece |
| ImportExport.Split | src/workflow/import_export_views.py:84 | `split(',')` gives at least one piece, and no piece holds a comma |
| ImportExport.JoinSplit | src/workflow/import_export_views.py:84 | joining the pieces of a split with commas gives the string back |
| ImportExport.SplitJoin | src/workflow/import_export_views.py:53-84 | splitting the comma join of comma-free pieces gives the pieces back |
| ImportExport.ParseAll | src/workflow/import_export_views.py:84 | the list comprehension succeeds exactly when every piece parses, and then holds one integer per piece, in order |
| ImportExport.ParseActionIds | src/workflow/import_export_views.py:79-86 | missing or empty data is the empty list; otherwise the list is valid exactly when every piece parses, and then holds one id per piece, in order |
| ImportExport.EmptyPieceIsInvalid | src/workflow/import_export_views.py:84-86 | an empty piece such as in "3,,4" makes the list invalid |
| ImportExport.ExportRoundTrip | src/workflow/import_export_views.py:53-86 | the comma join of the decimal forms of any ids reads back as exactly those ids; the empty selection gives "" and reads back as [] |
| ImportExport.ExportSelection | src/workflow/import_export_views.py:42-53 | the `include` string joins, with commas, the decimal ids of exactly the selected actions in enumeration order, and the export view reads it back as those ids |

## Left out

- The rule-tree formula engine (`has_variable`, `rename_variable`, `evaluate_top_node`). `dataops/formula_evaluation.py` is not part of this model.
- Django plumbing: requests, the session dictionary, ORM queries, rendering, redirects, `reverse`, messages and logging. Database lookups become inputs:
  - the current first key column of an action (`currentKey`): some key column of the action, or none when it has no key column. Which key column `first()` returns depends on the query's ordering, which is not modelled;
  - the set of existing action names in the workflow (`existing`);
  - the filtered, searched and ordered rows of the run table (`qs`);
  - the stored row count of an action's filter, and the table's row count.
- The URL and HTML of the key link in `run_ss` (lines 1176-1183). Only "the key cell becomes a link carrying the action, key name and key value" is kept (`Cell.KeyLink`).
- The parts of `run_ss` before the page loop: parsing of the request parameters, the search tuples, the ordering column and the filter lookup. Their result `qs` is an input.
- ServerSidePage: drops the error paths of the ordering column. Without `order[0][column]`, `order_col.name` raises AttributeError (line 1162). A non-integer value raises ValueError outside the `try` (line 1147). An index past the last column raises IndexError (line 1147). The model returns a page in all of these cases.
- ActionViews.Action.SelectColumn: the key column lookup is taken as the input `currentKey`. The model does not re-run the query after the removal.
- ServerSidePage: requires every row of `qs` to hold one value per action column, as the database query guarantees. A shorter row would raise an IndexError in the view.
- ActionViews.PreviewNavigation: starts from the index already converted by `int(idx)` (line 838); that conversion is not modelled.
- CloneName: the number of prefixes is a ghost output. Only the name is computed.
- ImportExport.ParseInt: models Python 3's `int()` for ASCII input only. Non-ASCII white space and digits, and the underscores Python 3.6 accepts between digits, are not modelled. Python 2.7's `int()` also accepts white space between the sign and the digits, so `"- 5"` reads as -5 there. The model rejects that input.
- The ordering of names uses Python 3's comparison of code points. Python 2 byte-string and mixed-type comparisons are not modelled.
- Upload.UploadData.ApplyColumnForm: requires both lists to exist and to be at least as long as the initial names. `PrepareLists` establishes this earlier in the same request; otherwise the view raises.
- Upload.SrcUniqueColNames: requires a key flag for every name, and an upload flag for every key column. The comprehension would raise an IndexError otherwise.
- Common.KeepWhere: requires a flag for every element, for the same reason.
- `src/dataops/csvupload.py`, `src/scripts/scheduler_script.py`, the models, migrations and settings, the visualisation wrappers and the browser tests are not part of this model.
