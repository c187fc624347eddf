/** The upload/merge wizard of the data operations pages: the bookkeeping of
    step 2 (which source columns are renamed and loaded), the candidate key
    lists of step 3 and the merge preview report of step 4. */
module Upload {
  import opened Common

  // ---------------------------------------------------------------------
  // Step 2: the renamed-names and load-flag lists kept in the session
  // ---------------------------------------------------------------------

  /** A list of `n` true flags: every source column is loaded by default. */
  function AllLoaded(n: nat): (r: seq<bool>)
    ensures |r| == n && forall i :: 0 <= i < n ==> r[i]
  {
    seq(n, _ => true)
  }

  /** The `upload_data` dictionary of the session, restricted to the entries
      step 2 reads and writes. The two lists are absent until step 2 first
      runs; afterwards step 2 overwrites them position by position. */
  class UploadData {
    const initialColumnNames: seq<string>
    var renameColumnNames: Option<seq<string>>
    var columnsToUpload: Option<seq<bool>>

    /** The dictionary as step 1 leaves it: only the initial names are known. */
    constructor (initialColumnNames: seq<string>)
      ensures this.initialColumnNames == initialColumnNames
      ensures renameColumnNames == None && columnsToUpload == None
    {
      this.initialColumnNames := initialColumnNames;
      renameColumnNames := None;
      columnsToUpload := None;
    }

    /** Get-or-create of both lists: a missing rename list becomes a copy of
        the initial names, a missing load list becomes all true of the same
        length; a list already present is kept as it is. */
    method PrepareLists()
      modifies this
      ensures renameColumnNames ==
        if old(renameColumnNames).None? then Some(initialColumnNames) else old(renameColumnNames)
      ensures columnsToUpload ==
        if old(columnsToUpload).None? then Some(AllLoaded(|initialColumnNames|)) else old(columnsToUpload)
      ensures old(renameColumnNames).None? && old(columnsToUpload).None? ==>
        |renameColumnNames.value| == |columnsToUpload.value| == |initialColumnNames|
    {
      if renameColumnNames.None? {
        renameColumnNames := Some(initialColumnNames);
      }
      if columnsToUpload.None? {
        columnsToUpload := Some(AllLoaded(|initialColumnNames|));
      }
    }

    /** A valid form overwrites entry `i` of both lists with the form's new
        name and load flag, for every `i` below the number of initial columns,
        and leaves the lengths and every later entry alone. */
    method ApplyColumnForm(newNames: seq<string>, upload: seq<bool>)
      requires renameColumnNames.Some? && columnsToUpload.Some?
      requires |renameColumnNames.value| >= |initialColumnNames|
      requires |columnsToUpload.value| >= |initialColumnNames|
      requires |newNames| >= |initialColumnNames| && |upload| >= |initialColumnNames|
      modifies this
      ensures renameColumnNames.Some? && columnsToUpload.Some?
      ensures |renameColumnNames.value| == |old(renameColumnNames.value)|
      ensures |columnsToUpload.value| == |old(columnsToUpload.value)|
      ensures forall i :: 0 <= i < |initialColumnNames| ==>
        renameColumnNames.value[i] == newNames[i] && columnsToUpload.value[i] == upload[i]
      ensures forall i :: |initialColumnNames| <= i < |renameColumnNames.value| ==>
        renameColumnNames.value[i] == old(renameColumnNames.value[i])
      ensures forall i :: |initialColumnNames| <= i < |columnsToUpload.value| ==>
        columnsToUpload.value[i] == old(columnsToUpload.value[i])
    {
      var n := |initialColumnNames|;
      var i := 0;
      while i < n
        invariant 0 <= i <= n
        invariant renameColumnNames.Some? && columnsToUpload.Some?
        invariant |renameColumnNames.value| == |old(renameColumnNames.value)|
        invariant |columnsToUpload.value| == |old(columnsToUpload.value)|
        invariant forall j :: 0 <= j < i ==>
          renameColumnNames.value[j] == newNames[j] && columnsToUpload.value[j] == upload[j]
        invariant forall j :: i <= j < |renameColumnNames.value| ==>
          renameColumnNames.value[j] == old(renameColumnNames.value[j])
        invariant forall j :: i <= j < |columnsToUpload.value| ==>
          columnsToUpload.value[j] == old(columnsToUpload.value[j])
      {
        renameColumnNames := Some(renameColumnNames.value[i := newNames[i]]);
        columnsToUpload := Some(columnsToUpload.value[i := upload[i]]);
        i := i + 1;
      }
    }
  }

  // ---------------------------------------------------------------------
  // Step 3: candidate key columns
  // ---------------------------------------------------------------------

  /** Destination names whose unique flag is set, in destination order. */
  function DstUniqueColNames(dstColumnNames: seq<string>, dstIsUniqueColumn: seq<bool>): (r: seq<string>)
    requires |dstIsUniqueColumn| >= |dstColumnNames|
    ensures |r| <= |dstColumnNames|
    ensures forall i :: 0 <= i < |dstColumnNames| && dstIsUniqueColumn[i] ==> dstColumnNames[i] in r
    ensures forall k :: 0 <= k < |r| ==> r[k] in Kept(dstColumnNames, dstIsUniqueColumn)
  {
    KeepWhere(dstColumnNames, dstIsUniqueColumn)
  }

  /** The renamed source names that are a key and are marked for upload. */
  ghost function UploadedKeyNames(srcColumnNames: seq<string>, srcIsKeyColumn: seq<bool>,
                                  columnsToUpload: seq<bool>): set<string>
    requires |srcIsKeyColumn| >= |srcColumnNames|
    requires forall i :: 0 <= i < |srcColumnNames| && srcIsKeyColumn[i] ==> i < |columnsToUpload|
  {
    set i | 0 <= i < |srcColumnNames| && srcIsKeyColumn[i] && columnsToUpload[i] :: srcColumnNames[i]
  }

  /** Renamed source names that are both a key and marked for upload, in
      source order. The upload flag is only consulted for key columns. */
  function SrcUniqueColNames(srcColumnNames: seq<string>, srcIsKeyColumn: seq<bool>,
                             columnsToUpload: seq<bool>): (r: seq<string>)
    requires |srcIsKeyColumn| >= |srcColumnNames|
    requires forall i :: 0 <= i < |srcColumnNames| && srcIsKeyColumn[i] ==> i < |columnsToUpload|
    ensures |r| <= |srcColumnNames|
    ensures forall i :: 0 <= i < |srcColumnNames| && srcIsKeyColumn[i] && columnsToUpload[i] ==>
      srcColumnNames[i] in r
    ensures forall k :: 0 <= k < |r| ==>
      r[k] in UploadedKeyNames(srcColumnNames, srcIsKeyColumn, columnsToUpload)
  {
    var both := BothFlags(srcColumnNames, srcIsKeyColumn, columnsToUpload);
    assert Kept(srcColumnNames, both) == UploadedKeyNames(srcColumnNames, srcIsKeyColumn, columnsToUpload);
    KeepWhere(srcColumnNames, both)
  }

  /** Position by position, the key flag and (only for keys) the upload flag. */
  function BothFlags(srcColumnNames: seq<string>, srcIsKeyColumn: seq<bool>,
                     columnsToUpload: seq<bool>): (r: seq<bool>)
    requires |srcIsKeyColumn| >= |srcColumnNames|
    requires forall i :: 0 <= i < |srcColumnNames| && srcIsKeyColumn[i] ==> i < |columnsToUpload|
    ensures |r| == |srcColumnNames|
    ensures forall i :: 0 <= i < |r| ==> (r[i] <==> srcIsKeyColumn[i] && columnsToUpload[i])
  {
    seq(|srcColumnNames|, i requires 0 <= i < |srcColumnNames| => srcIsKeyColumn[i] && columnsToUpload[i])
  }

  // ---------------------------------------------------------------------
  // Step 4: ordering of column names
  // ---------------------------------------------------------------------

  /** Python's `<` on strings: lexicographic by character code, a proper
      prefix coming first. */
  predicate Below(a: string, b: string)
    decreases |a|
  {
    if a == [] then b != []
    else b != [] && (a[0] < b[0] || (a[0] == b[0] && Below(a[1..], b[1..])))
  }

  lemma {:induction false} BelowIrreflexive(a: string)
    ensures !Below(a, a)
    decreases |a|
  {
    if a != [] {
      BelowIrreflexive(a[1..]);
    }
  }

  lemma {:induction false} BelowTransitive(a: string, b: string, c: string)
    requires Below(a, b) && Below(b, c)
    ensures Below(a, c)
    decreases |a|
  {
    if a != [] && a[0] == b[0] && b[0] == c[0] {
      BelowTransitive(a[1..], b[1..], c[1..]);
    }
  }

  lemma {:induction false} BelowTotal(a: string, b: string)
    ensures a == b || Below(a, b) || Below(b, a)
    decreases |a|
  {
    if a != [] && b != [] && a[0] == b[0] {
      BelowTotal(a[1..], b[1..]);
      if a[1..] == b[1..] {
        assert a == [a[0]] + a[1..] && b == [b[0]] + b[1..];
      }
    }
  }

  lemma BelowAsymmetric(a: string, b: string)
    requires Below(a, b)
    ensures !Below(b, a)
  {
    if Below(b, a) {
      BelowTransitive(a, b, a);
      BelowIrreflexive(a);
    }
  }

  /** Sorted in increasing order with no name repeated. */
  predicate StrictlySorted(s: seq<string>) {
    forall i, j :: 0 <= i < j < |s| ==> Below(s[i], s[j])
  }

  /** `x` put in its place in a strictly sorted list, unless already there. */
  function Insert(s: seq<string>, x: string): (r: seq<string>)
    requires StrictlySorted(s)
    ensures StrictlySorted(r)
    ensures forall v :: v in r <==> v in s || v == x
  {
    if s == [] then [x]
    else if x == s[0] then s
    else if Below(x, s[0]) then
      PrependSorted(x, s);
      [x] + s
    else
      BelowTotal(x, s[0]);
      var t := Insert(s[1..], x);
      assert forall v :: v in t ==> Below(s[0], v);
      [s[0]] + t
  }

  /** A name below the head of a strictly sorted list may go in front of it. */
  lemma PrependSorted(x: string, s: seq<string>)
    requires StrictlySorted(s) && s != [] && Below(x, s[0])
    ensures StrictlySorted([x] + s)
  {
    forall j | 0 < j < |s|
      ensures Below(x, s[j])
    {
      BelowTransitive(x, s[0], s[j]);
    }
  }

  /** The strictly sorted list of the distinct names in `xs`:
      Python's `sorted(set(xs))`. */
  function SortedSet(xs: seq<string>): (r: seq<string>)
    ensures StrictlySorted(r)
    ensures forall v :: v in r <==> v in xs
    decreases |xs|
  {
    if xs == [] then []
    else
      assert xs == xs[..|xs| - 1] + [xs[|xs| - 1]];
      Insert(SortedSet(xs[..|xs| - 1]), xs[|xs| - 1])
  }

  /** A set has exactly one strictly sorted listing, so the report's column
      list is determined by the set of names alone. */
  lemma {:induction false} SortedUnique(a: seq<string>, b: seq<string>)
    requires StrictlySorted(a) && StrictlySorted(b)
    requires forall v :: v in a <==> v in b
    ensures a == b
    decreases |a|
  {
    assert |a| == 0 <==> |b| == 0 by {
      if |a| > 0 { assert a[0] in b; }
      if |b| > 0 { assert b[0] in a; }
    }
    if a != [] {
      assert a[0] == b[0] by {
        assert a[0] in b;
        assert b[0] in a;
        var i :| 0 <= i < |a| && a[i] == b[0];
        var j :| 0 <= j < |b| && b[j] == a[0];
        if i > 0 && j > 0 {
          BelowAsymmetric(a[0], a[i]);
        } else if i > 0 {
          BelowIrreflexive(a[0]);
        } else if j > 0 {
          BelowIrreflexive(b[0]);
        }
      }
      forall v
        ensures v in a[1..] <==> v in b[1..]
      {
        if v in a[1..] {
          var k :| 1 <= k < |a| && a[k] == v;
          BelowIrreflexive(a[0]);
          assert v in b;
        }
        if v in b[1..] {
          var k :| 1 <= k < |b| && b[k] == v;
          BelowIrreflexive(b[0]);
          assert v in a;
        }
      }
      SortedUnique(a[1..], b[1..]);
      assert a == [a[0]] + a[1..] && b == [b[0]] + b[1..];
    }
  }

  // ---------------------------------------------------------------------
  // Step 4: the merge preview report
  // ---------------------------------------------------------------------

  /** What a renamed source column maps to: its initial name and whether it
      is loaded. */
  datatype SrcEntry = SrcEntry(initialName: string, toLoad: bool)

  /** The dictionary built from the first `n` triples of the zip of renamed
      names, initial names and load flags. A renamed name that occurs twice
      keeps the entry of its last occurrence. */
  function SrcInfo(renames: seq<string>, initial: seq<string>, toLoad: seq<bool>, n: nat): (m: map<string, SrcEntry>)
    requires n <= |renames| && n <= |initial| && n <= |toLoad|
    ensures forall x :: x in m <==> x in renames[..n]
  {
    if n == 0 then map[]
    else
      var prev := SrcInfo(renames, initial, toLoad, n - 1);
      assert renames[..n] == renames[..n - 1] + [renames[n - 1]];
      prev[renames[n - 1] := SrcEntry(initial[n - 1], toLoad[n - 1])]
  }

  /** The entry of a renamed name comes from its last occurrence: a later
      duplicate overwrites an earlier one. */
  lemma {:induction false} SrcInfoLastWins(renames: seq<string>, initial: seq<string>, toLoad: seq<bool>,
                                           n: nat, i: nat)
    requires n <= |renames| && n <= |initial| && n <= |toLoad|
    requires i < n && forall j :: i < j < n ==> renames[j] != renames[i]
    ensures renames[i] in SrcInfo(renames, initial, toLoad, n)
    ensures SrcInfo(renames, initial, toLoad, n)[renames[i]] == SrcEntry(initial[i], toLoad[i])
    decreases n
  {
    if i < n - 1 {
      SrcInfoLastWins(renames, initial, toLoad, n - 1, i);
    }
  }

  /** Python's zip stops at the shortest of its lists. */
  function ZipLength(renames: seq<string>, initial: seq<string>, toLoad: seq<bool>): (n: nat)
    ensures n <= |renames| && n <= |initial| && n <= |toLoad|
    ensures n == |renames| || n == |initial| || n == |toLoad|
  {
    var m := if |renames| <= |initial| then |renames| else |initial|;
    if m <= |toLoad| then m else |toLoad|
  }

  /** One line of the report: destination side, whether the column is loaded,
      source side. */
  datatype ReportRow = ReportRow(dst: string, loaded: bool, src: string)

  /** The row shown for a column that is not a merge key. */
  function ReportRowFor(colname: string, dstColumnNames: seq<string>,
                        srcInfo: map<string, SrcEntry>): (r: ReportRow)
    ensures r.loaded <==> colname in srcInfo && srcInfo[colname].toLoad
    ensures colname != "" ==> (r.src == "" <==> colname !in srcInfo)
    ensures colname != "" ==>
      (r.dst == "" <==> colname in srcInfo && !srcInfo[colname].toLoad && colname !in dstColumnNames)
  {
    if colname !in srcInfo then ReportRow(colname, false, "")
    else if !srcInfo[colname].toLoad then
      ReportRow(if colname in dstColumnNames then colname else "", false, colname + " (Ignored)")
    else
      var dstName := colname + (if colname !in dstColumnNames then " (New)" else " (Update)");
      var srcName := colname + (if colname != srcInfo[colname].initialName then " (Renamed)" else "");
      ReportRow(dstName, true, srcName)
  }

  /** The documented cases 2 to 8 of the report (case 1, a key column, shows
      no row). */
  datatype MergeCase =
    | DstOnly        // 2: in the destination, no source counterpart
    | IgnoredInDst   // 3: in both, not loaded
    | IgnoredNew     // 4: only in the source, not loaded
    | Update         // 5: in both, loaded, not renamed
    | UpdateRenamed  // 6: in both, loaded, renamed
    | New            // 7: only in the source, loaded, not renamed
    | NewRenamed     // 8: only in the source, loaded, renamed

  /** Which documented case a non-key column falls in. */
  function CaseOf(colname: string, dstColumnNames: seq<string>, srcInfo: map<string, SrcEntry>): MergeCase {
    if colname !in srcInfo then DstOnly
    else
      var inDst := colname in dstColumnNames;
      var renamed := colname != srcInfo[colname].initialName;
      if !srcInfo[colname].toLoad then (if inDst then IgnoredInDst else IgnoredNew)
      else if inDst then (if renamed then UpdateRenamed else Update)
      else (if renamed then NewRenamed else New)
  }

  /** How a reader of the report tells the case of the row shown for `colname`. */
  function RowCase(row: ReportRow, colname: string): MergeCase {
    if !row.loaded then
      (if row.src == "" then DstOnly else if row.dst == colname then IgnoredInDst else IgnoredNew)
    else if row.dst == colname + " (Update)" then
      (if row.src == colname then Update else UpdateRenamed)
    else
      (if row.src == colname then New else NewRenamed)
  }

  /** The exact row of each documented case. */
  lemma ReportRowByCase(colname: string, dstColumnNames: seq<string>, srcInfo: map<string, SrcEntry>)
    ensures var row := ReportRowFor(colname, dstColumnNames, srcInfo);
      match CaseOf(colname, dstColumnNames, srcInfo)
      case DstOnly => row == ReportRow(colname, false, "")
      case IgnoredInDst => row == ReportRow(colname, false, colname + " (Ignored)")
      case IgnoredNew => row == ReportRow("", false, colname + " (Ignored)")
      case Update => row == ReportRow(colname + " (Update)", true, colname)
      case UpdateRenamed => row == ReportRow(colname + " (Update)", true, colname + " (Renamed)")
      case New => row == ReportRow(colname + " (New)", true, colname)
      case NewRenamed => row == ReportRow(colname + " (New)", true, colname + " (Renamed)")
  {
  }

  /** The row determines its case: no two cases share a display, provided the
      column name is not empty (an empty name would show cases 3 and 4 alike). */
  lemma ReportRowShowsCase(colname: string, dstColumnNames: seq<string>, srcInfo: map<string, SrcEntry>)
    requires colname != ""
    ensures RowCase(ReportRowFor(colname, dstColumnNames, srcInfo), colname)
            == CaseOf(colname, dstColumnNames, srcInfo)
  {
    var update := colname + " (Update)";
    var renamed := colname + " (Renamed)";
    assert |update| != |colname + " (New)"|;
    assert |renamed| != |colname|;
    assert |colname + " (Ignored)"| != 0;
  }

  /** The columns that get a row: every column except the two selected keys,
      in the order given. */
  function NonKeyColumns(cols: seq<string>, srcSelectedKey: string, dstSelectedKey: string): (r: seq<string>)
    ensures forall c :: c in r <==> c in cols && c != srcSelectedKey && c != dstSelectedKey
    ensures StrictlySorted(cols) ==> StrictlySorted(r)
    decreases |cols|
  {
    if cols == [] then []
    else
      var init := cols[..|cols| - 1];
      var last := cols[|cols| - 1];
      assert cols == init + [last];
      var r := NonKeyColumns(init, srcSelectedKey, dstSelectedKey);
      assert StrictlySorted(cols) ==> StrictlySorted(init) && forall c :: c in init ==> Below(c, last);
      if last == srcSelectedKey || last == dstSelectedKey then r else r + [last]
  }

  /** The report: one row per non-key column, in the order of `cols`. */
  function MergeReport(cols: seq<string>, srcSelectedKey: string, dstSelectedKey: string,
                       dstColumnNames: seq<string>, srcInfo: map<string, SrcEntry>): seq<ReportRow>
  {
    var shown := NonKeyColumns(cols, srcSelectedKey, dstSelectedKey);
    seq(|shown|, k requires 0 <= k < |shown| => ReportRowFor(shown[k], dstColumnNames, srcInfo))
  }

  /** Every column of the union other than the two keys gets exactly one
      row, and the rows come in sorted column order. */
  lemma EachColumnOneRow(dstColumnNames: seq<string>, renameColumnNames: seq<string>,
                         srcSelectedKey: string, dstSelectedKey: string)
    ensures var shown := NonKeyColumns(SortedSet(dstColumnNames + renameColumnNames),
                                       srcSelectedKey, dstSelectedKey);
      && (forall c :: c in shown <==>
            (c in dstColumnNames || c in renameColumnNames) && c != srcSelectedKey && c != dstSelectedKey)
      && (forall i, j :: 0 <= i < j < |shown| ==> Below(shown[i], shown[j]) && shown[i] != shown[j])
  {
    var shown := NonKeyColumns(SortedSet(dstColumnNames + renameColumnNames), srcSelectedKey, dstSelectedKey);
    forall i, j | 0 <= i < j < |shown|
      ensures shown[i] != shown[j]
    {
      BelowIrreflexive(shown[i]);
    }
  }

  /** Extending the walked prefix by one column adds that column's row,
      unless it is a key. */
  lemma MergeReportStep(cols: seq<string>, i: nat, srcSelectedKey: string, dstSelectedKey: string,
                        dstColumnNames: seq<string>, srcInfo: map<string, SrcEntry>)
    requires i < |cols|
    ensures MergeReport(cols[..i + 1], srcSelectedKey, dstSelectedKey, dstColumnNames, srcInfo) ==
      MergeReport(cols[..i], srcSelectedKey, dstSelectedKey, dstColumnNames, srcInfo) +
      (if cols[i] == srcSelectedKey || cols[i] == dstSelectedKey then []
       else [ReportRowFor(cols[i], dstColumnNames, srcInfo)])
  {
    assert cols[..i + 1][..i] == cols[..i];
  }

  /** The preview of step 4: walks the sorted union of destination and renamed
      source names, skips the two keys and appends one row per other column. */
  method UploadReport(dstColumnNames: seq<string>, renameColumnNames: seq<string>,
                      initialColumnNames: seq<string>, columnsToUpload: seq<bool>,
                      srcSelectedKey: string, dstSelectedKey: string)
    returns (info: seq<ReportRow>)
    ensures info == MergeReport(SortedSet(dstColumnNames + renameColumnNames), srcSelectedKey, dstSelectedKey,
                                dstColumnNames,
                                SrcInfo(renameColumnNames, initialColumnNames, columnsToUpload,
                                        ZipLength(renameColumnNames, initialColumnNames, columnsToUpload)))
  {
    var finalColumns := SortedSet(dstColumnNames + renameColumnNames);
    var srcInfo := SrcInfo(renameColumnNames, initialColumnNames, columnsToUpload,
                           ZipLength(renameColumnNames, initialColumnNames, columnsToUpload));
    info := [];
    var i := 0;
    while i < |finalColumns|
      invariant 0 <= i <= |finalColumns|
      invariant info == MergeReport(finalColumns[..i], srcSelectedKey, dstSelectedKey, dstColumnNames, srcInfo)
    {
      var colname := finalColumns[i];
      MergeReportStep(finalColumns, i, srcSelectedKey, dstSelectedKey, dstColumnNames, srcInfo);
      i := i + 1;
      if colname == srcSelectedKey || colname == dstSelectedKey {
        continue;
      }
      info := info + [ReportRowFor(colname, dstColumnNames, srcInfo)];
    }
    assert finalColumns[..i] == finalColumns;
  }
}
