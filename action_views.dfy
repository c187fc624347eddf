/** Logic of the action views: the preview's row navigation, the name given
    to a cloned action, adding and removing columns of an action, and the page
    of rows served to the table of the "run" page. */
module ActionViews {
  import opened Common

  // ---------------------------------------------------------------------
  // Preview navigation
  // ---------------------------------------------------------------------

  /** The number of rows to step through and the shown, previous and next
      row numbers (numbered from 1). */
  datatype Navigation = Navigation(count: int, idx: int, prv: int, nxt: int)

  /** `filterRowsSelected` is the stored row count of the action's filter, or
      None when the action has no filter; -1 marks a count not computed yet.
      The navigation wraps around at both ends. */
  function PreviewNavigation(idx: int, filterRowsSelected: Option<int>, nrows: int): (r: Navigation)
    ensures r.count == if filterRowsSelected.Some? && filterRowsSelected.value != -1
                       then filterRowsSelected.value else nrows
    ensures 1 <= idx <= r.count ==> r.idx == idx
    ensures !(1 <= idx <= r.count) ==> r.idx == 1
    ensures r.count >= 1 ==>
      1 <= r.idx <= r.count && 1 <= r.prv <= r.count && 1 <= r.nxt <= r.count
    ensures r.count >= 1 ==>
      r.nxt == r.idx % r.count + 1 && r.prv == (r.idx + r.count - 2) % r.count + 1
    ensures r.count <= 0 ==> r.idx == 1 && r.nxt == 1 && r.prv == r.count
  {
    var stored := if filterRowsSelected.Some? then filterRowsSelected.value else -1;
    var n := if stored == -1 then nrows else stored;
    var i := if !(1 <= idx <= n) then 1 else idx;
    var p := if i - 1 <= 0 then n else i - 1;
    var x := if i + 1 > n then 1 else i + 1;
    if n < 1 then Navigation(n, i, p, x)
    else
      assert x == i % n + 1 by {
        if i < n { ModBelow(i, n); } else { ModWrap(i, n); }
      }
      assert p == (i + n - 2) % n + 1 by {
        if i >= 2 { ModWrap(i + n - 2, n); } else { ModBelow(i + n - 2, n); }
      }
      Navigation(n, i, p, x)
  }

  lemma ModBelow(x: int, n: int)
    requires 0 <= x < n
    ensures x % n == x
  {
  }

  lemma ModWrap(x: int, n: int)
    requires 1 <= n <= x < 2 * n
    ensures x % n == x - n
  {
  }

  /** "Previous" undoes "next" and "next" undoes "previous". */
  lemma NavigationRoundTrip(idx: int, filterRowsSelected: Option<int>, nrows: int)
    requires 1 <= idx <= PreviewNavigation(idx, filterRowsSelected, nrows).count
    ensures var here := PreviewNavigation(idx, filterRowsSelected, nrows);
      PreviewNavigation(here.nxt, filterRowsSelected, nrows).prv == idx &&
      PreviewNavigation(here.prv, filterRowsSelected, nrows).nxt == idx
  {
  }

  /** The row shown after pressing "next" `k` times, starting from row 1. */
  function Forward(k: nat, filterRowsSelected: Option<int>, nrows: int): int {
    if k == 0 then 1
    else PreviewNavigation(Forward(k - 1, filterRowsSelected, nrows), filterRowsSelected, nrows).nxt
  }

  /** Pressing "next" from row 1 shows rows 2, 3, ... in turn, so every row
      of the count can be previewed. */
  lemma {:induction false} ForwardVisitsEveryRow(k: nat, filterRowsSelected: Option<int>, nrows: int)
    requires k < PreviewNavigation(1, filterRowsSelected, nrows).count
    ensures Forward(k, filterRowsSelected, nrows) == k + 1
  {
    if k > 0 {
      ForwardVisitsEveryRow(k - 1, filterRowsSelected, nrows);
    }
  }

  /** After as many "next" presses as there are rows, the preview is back
      where it started. */
  lemma {:induction false} ForwardIsPeriodic(k: nat, filterRowsSelected: Option<int>, nrows: int)
    requires PreviewNavigation(1, filterRowsSelected, nrows).count >= 1
    ensures var n := PreviewNavigation(1, filterRowsSelected, nrows).count;
      Forward(k + n, filterRowsSelected, nrows) == Forward(k, filterRowsSelected, nrows)
  {
    var n := PreviewNavigation(1, filterRowsSelected, nrows).count;
    if k == 0 {
      ForwardVisitsEveryRow(n - 1, filterRowsSelected, nrows);
    } else {
      ForwardIsPeriodic(k - 1, filterRowsSelected, nrows);
      assert k + n - 1 == (k - 1) + n;
    }
  }

  // ---------------------------------------------------------------------
  // Clone name
  // ---------------------------------------------------------------------

  /** `name` with "Copy of " put in front `k` times. */
  function CopyName(k: nat, name: string): (r: string)
    ensures |r| == 8 * k + |name| && r[8 * k..] == name
    ensures k > 0 ==> r[..8] == "Copy of "
  {
    if k == 0 then name else "Copy of " + CopyName(k - 1, name)
  }

  /** A length no name of `names` exceeds. */
  ghost function MaxLength(names: set<string>): (m: nat)
    ensures forall s :: s in names ==> |s| <= m
    decreases names
  {
    if names == {} then 0
    else
      var s :| s in names;
      var rest := MaxLength(names - {s});
      if |s| > rest then |s| else rest
  }

  /** The name of the clone: "Copy of " is prefixed as many times as needed
      for the name to be unused by the actions of the workflow, whose names
      are `existing`. */
  method CloneName(name: string, existing: set<string>) returns (newName: string, ghost copies: nat)
    ensures copies >= 1 && newName == CopyName(copies, name)
    ensures newName !in existing
    ensures forall j :: 1 <= j < copies ==> CopyName(j, name) in existing
  {
    newName := "Copy of " + name;
    copies := 1;
    ghost var longest := MaxLength(existing);
    while newName in existing
      invariant copies >= 1 && newName == CopyName(copies, name)
      invariant forall j :: 1 <= j < copies ==> CopyName(j, name) in existing
      decreases longest + 8 - |newName|
    {
      newName := "Copy of " + newName;
      copies := copies + 1;
    }
  }

  // ---------------------------------------------------------------------
  // Columns of an action
  // ---------------------------------------------------------------------

  /** A column of the workflow's table: its primary key, name and whether
      its values are unique. */
  datatype Column = Column(id: nat, name: string, isKey: bool)

  /** `answer` is a possible result of `cols.filter(is_key=True).first()`:
      some key column of `cols`, or None when `cols` has no key column. Which
      key column comes first depends on the query's ordering, which is not
      modelled. */
  ghost predicate FirstKeyAnswer(answer: Option<Column>, cols: set<Column>) {
    match answer
    case None => forall c :: c in cols ==> !c.isKey
    case Some(k) => k in cols && k.isKey
  }

  ghost predicate AtMostOneKey(cols: set<Column>) {
    forall a, b :: a in cols && b in cols && a.isKey && b.isKey ==> a == b
  }

  /** The column set after selecting `column`: with the key flag, the current
      key column is dropped and `column` is added only if it is a key;
      without it, `column` is added. */
  function SelectColumns(cols: set<Column>, column: Column, key: bool, currentKey: Option<Column>): (r: set<Column>)
    ensures !key || column.isKey ==> column in r
    ensures key && !column.isKey ==> (column in r <==> column in cols && currentKey != Some(column))
    ensures forall c :: c != column && (!key || currentKey != Some(c)) ==> (c in r <==> c in cols)
    ensures key && currentKey.Some? && currentKey.value != column ==> currentKey.value !in r
  {
    if key then
      (if currentKey.Some? then cols - {currentKey.value} else cols) + (if column.isKey then {column} else {})
    else cols + {column}
  }

  /** Selecting with the key flag keeps an action with at most one key column,
      and leaves `column` as its key exactly when `column` is a key. */
  lemma SelectKeyKeepsOneKey(cols: set<Column>, column: Column, currentKey: Option<Column>)
    requires FirstKeyAnswer(currentKey, cols) && AtMostOneKey(cols)
    ensures var after := SelectColumns(cols, column, true, currentKey);
      AtMostOneKey(after) &&
      (forall c :: c in after && c.isKey ==> c == column) &&
      (column.isKey ==> column in after)
  {
  }

  /** The action, restricted to its set of columns. */
  class Action {
    var columns: set<Column>

    constructor (columns: set<Column>)
      ensures this.columns == columns
    {
      this.columns := columns;
    }

    /** `currentKey` is the database's answer to "first key column of this
        action"; the view looks it up only when `key` is set. */
    method SelectColumn(column: Column, key: bool, currentKey: Option<Column>)
      requires key ==> FirstKeyAnswer(currentKey, columns)
      modifies this
      ensures columns == SelectColumns(old(columns), column, key, currentKey)
      ensures forall c :: c != column && (!key || currentKey != Some(c)) ==>
        (c in columns <==> c in old(columns))
      ensures !key || column.isKey ==> column in columns
    {
      if key {
        if currentKey.Some? {
          columns := columns - {currentKey.value};
        }
        if column.isKey {
          columns := columns + {column};
        }
      } else {
        columns := columns + {column};
      }
    }

    /** Removes exactly `column`. */
    method UnselectColumn(column: Column)
      modifies this
      ensures columns == old(columns) - {column}
      ensures column !in columns
      ensures forall c :: c != column ==> (c in columns <==> c in old(columns))
    {
      columns := columns - {column};
    }
  }

  // ---------------------------------------------------------------------
  // Server-side page of the run table
  // ---------------------------------------------------------------------

  /** Position of the first key column, or None when there is none (the
      view's `next(...)` then raises). */
  function KeyIndex(columns: seq<Column>): (r: Option<nat>)
    ensures r.Some? ==> r.value < |columns| && columns[r.value].isKey &&
                        forall j :: 0 <= j < r.value ==> !columns[j].isKey
    ensures r.None? ==> forall j :: 0 <= j < |columns| ==> !columns[j].isKey
    decreases |columns|
  {
    if columns == [] then None
    else if columns[0].isKey then Some(0)
    else match KeyIndex(columns[1..])
      case None => None
      case Some(j) => Some(j + 1)
  }

  /** Where a Python slice bound lands in a sequence of length `len`:
      negative bounds count from the end, and both are clamped. */
  function SliceBound(x: int, len: nat): (b: nat)
    ensures b <= len
    ensures 0 <= x <= len ==> b == x
    ensures x < 0 && 0 <= x + len ==> b == x + len
    ensures x + len < 0 ==> b == 0
    ensures x > len ==> b == len
  {
    if x < 0 then (if x + len < 0 then 0 else x + len)
    else if x > len then len
    else x
  }

  /** Python's `s[i:j]`. */
  function PySlice<T>(s: seq<T>, i: int, j: int): (r: seq<T>)
    ensures |r| <= |s|
    ensures i <= j ==> |r| <= j - i
    ensures |r| == if SliceBound(i, |s|) < SliceBound(j, |s|)
                   then SliceBound(j, |s|) - SliceBound(i, |s|) else 0
    ensures forall k :: 0 <= k < |r| ==> SliceBound(i, |s|) + k < |s| && r[k] == s[SliceBound(i, |s|) + k]
    ensures 0 <= i <= j ==> r == s[(if i <= |s| then i else |s|)..(if j <= |s| then j else |s|)]
  {
    var lo := SliceBound(i, |s|);
    var hi := SliceBound(j, |s|);
    if lo < hi then s[lo..hi] else []
  }

  /** A negative start counts from the end: `s[i:j] == s[i + len(s):j]`. */
  lemma PySliceNegativeStart<T>(s: seq<T>, i: int, j: int)
    requires -|s| <= i < 0
    ensures PySlice(s, i, j) == PySlice(s, i + |s|, j)
  {
  }

  /** A negative end counts from the end: `s[i:j] == s[i:j + len(s)]`. */
  lemma PySliceNegativeEnd<T>(s: seq<T>, i: int, j: int)
    requires -|s| <= j < 0
    ensures PySlice(s, i, j) == PySlice(s, i, j + |s|)
  {
  }

  /** The page asked for with `start = 0` and `length = -1` is `qs[0:-1]`:
      every row but the last. */
  lemma PySliceAllButLast<T>(s: seq<T>)
    requires s != []
    ensures PySlice(s, 0, 0 + -1) == s[..|s| - 1]
  {
  }

  /** A cell of the table: a plain value, or the key value turned into a
      link to the action's page for that row. */
  datatype Cell = Text(value: string) | KeyLink(actionId: nat, keyName: string, keyValue: string)

  datatype PageResponse = PageResponse(draw: int, recordsTotal: int, recordsFiltered: int,
                                       data: seq<seq<Cell>>)

  datatype RunResult = Page(response: PageResponse) | NoKeyColumn

  /** The cells shown for `row`: its values, with the key one made a link. */
  function LinkRow(row: seq<string>, keyIdx: nat, keyName: string, actionId: nat): (r: seq<Cell>)
    ensures |r| == |row|
    ensures forall j :: 0 <= j < |r| ==> (r[j].KeyLink? <==> j == keyIdx)
    ensures forall j :: 0 <= j < |r| && j != keyIdx ==> r[j] == Text(row[j])
    ensures keyIdx < |row| ==> r[keyIdx] == KeyLink(actionId, keyName, row[keyIdx])
  {
    seq(|row|, j requires 0 <= j < |row| =>
          if j == keyIdx then KeyLink(actionId, keyName, row[j]) else Text(row[j]))
  }

  /** The rows `qs[start:start + length]` of the filtered, searched and ordered
      table, each with its key cell turned into a link; `qs` holds one value
      per action column in every row. */
  method ServerSidePage(qs: seq<seq<string>>, columns: seq<Column>, actionId: nat,
                        draw: int, start: int, length: int, nrows: int)
    returns (r: RunResult)
    requires forall row :: row in qs ==> |row| == |columns|
    ensures r.NoKeyColumn? <==> KeyIndex(columns).None?
    ensures r.Page? ==>
      var keyIdx := KeyIndex(columns).value;
      var window := PySlice(qs, start, start + length);
      && r.response.draw == draw
      && r.response.recordsTotal == nrows
      && r.response.recordsFiltered == |qs|
      && |r.response.data| == |window|
      && forall k :: 0 <= k < |window| ==>
           |r.response.data[k]| == |columns| &&
           forall j :: 0 <= j < |columns| ==>
             r.response.data[k][j] ==
               if j == keyIdx then KeyLink(actionId, columns[keyIdx].name, window[k][j])
               else Text(window[k][j])
    ensures r.Page? && length >= 0 ==> |r.response.data| <= length
  {
    var keyIdx := KeyIndex(columns);
    if keyIdx.None? {
      return NoKeyColumn;
    }
    var key := keyIdx.value;
    var window := PySlice(qs, start, start + length);
    assert forall k :: 0 <= k < |window| ==> window[k] in qs;
    var finalQs: seq<seq<Cell>> := [];
    var items := 0;
    var i := 0;
    while i < |window|
      invariant 0 <= i <= |window|
      invariant items == i
      invariant |finalQs| == i
      invariant forall k :: 0 <= k < i ==>
        finalQs[k] == LinkRow(window[k], key, columns[key].name, actionId)
    {
      var row := window[i];
      items := items + 1;
      finalQs := finalQs + [LinkRow(row, key, columns[key].name, actionId)];
      i := i + 1;
      if items == length {
        break;
      }
    }
    assert i == |window|;
    r := Page(PageResponse(draw, nrows, |qs|, finalQs));
  }
}
