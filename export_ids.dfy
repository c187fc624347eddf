/** The list of action ids passed from the export form to the export view:
    the ids of the selected actions are written as decimal numbers joined
    with commas, and read back by splitting on commas and parsing every
    piece as an integer. */
module ImportExport {
  import opened Common

  // ---------------------------------------------------------------------
  // Decimal numbers
  // ---------------------------------------------------------------------

  predicate IsDigit(c: char) {
    '0' <= c <= '9'
  }

  predicate AllDigits(s: string) {
    forall k :: 0 <= k < |s| ==> IsDigit(s[k])
  }

  function DigitChar(d: nat): (c: char)
    requires d < 10
    ensures IsDigit(c) && DigitValue(c) == d
  {
    ('0' as int + d) as char
  }

  function DigitValue(c: char): (d: nat)
    requires IsDigit(c)
    ensures d < 10
  {
    c as int - '0' as int
  }

  /** `str(n)` for a non-negative integer: its decimal digits, most
      significant first, without leading zeros. */
  function NatToString(n: nat): (s: string)
    ensures |s| >= 1 && AllDigits(s)
    ensures |s| > 1 ==> s[0] != '0'
    decreases n
  {
    if n < 10 then [DigitChar(n)]
    else NatToString(n / 10) + [DigitChar(n % 10)]
  }

  /** The number a string of decimal digits denotes. */
  function DigitsValue(s: string): nat
    requires AllDigits(s)
    decreases |s|
  {
    if s == [] then 0
    else DigitsValue(s[..|s| - 1]) * 10 + DigitValue(s[|s| - 1])
  }

  /** Reading back the digits of `n` gives `n`. */
  lemma {:induction false} DigitsOfNat(n: nat)
    ensures DigitsValue(NatToString(n)) == n
    decreases n
  {
    if n >= 10 {
      var s := NatToString(n);
      assert s[..|s| - 1] == NatToString(n / 10);
      DigitsOfNat(n / 10);
    }
  }

  // ---------------------------------------------------------------------
  // Python's int() on a string
  // ---------------------------------------------------------------------

  /** The ASCII characters `str.isspace()` accepts: tab, line feed, vertical
      tab, form feed, carriage return, the four separators 0x1C-0x1F, and
      space. */
  predicate IsSpace(c: char) {
    c == ' ' || 9 <= c as int <= 13 || 28 <= c as int <= 31
  }

  /** Where `s` stops being white space, looking from position `i` on. */
  function SkipSpace(s: string, i: nat): (lo: nat)
    requires i <= |s|
    ensures i <= lo <= |s|
    ensures forall k :: i <= k < lo ==> IsSpace(s[k])
    ensures lo == |s| || !IsSpace(s[lo])
    decreases |s| - i
  {
    if i < |s| && IsSpace(s[i]) then SkipSpace(s, i + 1) else i
  }

  /** Where the trailing white space of `s[lo..hi]` starts. */
  function SkipSpaceBack(s: string, lo: nat, hi: nat): (end: nat)
    requires lo <= hi <= |s|
    ensures lo <= end <= hi
    ensures forall k :: end <= k < hi ==> IsSpace(s[k])
    ensures end == lo || !IsSpace(s[end - 1])
    decreases hi
  {
    if lo < hi && IsSpace(s[hi - 1]) then SkipSpaceBack(s, lo, hi - 1) else hi
  }

  /** The position after the leading white space of `s`. */
  function StripStart(s: string): nat
    ensures StripStart(s) <= |s|
  {
    SkipSpace(s, 0)
  }

  /** The position where the trailing white space of `s` starts. */
  function StripEnd(s: string): nat
    ensures StripStart(s) <= StripEnd(s) <= |s|
  {
    SkipSpaceBack(s, StripStart(s), |s|)
  }

  /** `s.strip()`: `s` without its leading and trailing white space. */
  function Strip(s: string): (r: string)
    ensures r == s[StripStart(s)..StripEnd(s)]
    ensures forall k :: 0 <= k < StripStart(s) ==> IsSpace(s[k])
    ensures forall k :: StripEnd(s) <= k < |s| ==> IsSpace(s[k])
    ensures r == [] || (!IsSpace(r[0]) && !IsSpace(r[|r| - 1]))
  {
    s[StripStart(s)..StripEnd(s)]
  }

  /** `int()` on a string without surrounding white space: an optional sign
      followed by at least one decimal digit. */
  function ParseStripped(t: string): (r: Option<int>)
    ensures r.Some? ==> t != [] && IsDigit(t[|t| - 1])
    ensures r.Some? ==> forall k :: 0 <= k < |t| ==>
      IsDigit(t[k]) || (k == 0 && (t[k] == '+' || t[k] == '-'))
  {
    if t != [] && (t[0] == '+' || t[0] == '-') then
      var digits := t[1..];
      if digits != [] && AllDigits(digits) then
        assert forall k :: 1 <= k < |t| ==> t[k] == digits[k - 1];
        var magnitude: int := DigitsValue(digits);
        Some(if t[0] == '-' then -magnitude else magnitude)
      else None
    else if t != [] && AllDigits(t) then
      Some(DigitsValue(t))
    else None
  }

  /** `int(s)`: surrounding white space is ignored, then an optional sign and
      at least one decimal digit must make up the rest; anything else is the
      ValueError, here None. */
  function ParseInt(s: string): (r: Option<int>)
    ensures (forall k :: 0 <= k < |s| ==> IsSpace(s[k])) ==> r.None?
  {
    ParseStripped(Strip(s))
  }

  /** What `int()` accepts holds a digit and nothing but white space, signs
      and digits. */
  lemma ParseIntAccepts(s: string)
    ensures ParseInt(s).Some? ==> exists k :: 0 <= k < |s| && IsDigit(s[k])
    ensures ParseInt(s).Some? ==> forall k :: 0 <= k < |s| ==>
      IsSpace(s[k]) || IsDigit(s[k]) || s[k] == '+' || s[k] == '-'
  {
    var t := Strip(s);
    if ParseStripped(t).Some? {
      var lead := StripStart(s);
      assert s[lead + |t| - 1] == t[|t| - 1];
      forall j | 0 <= j < |s|
        ensures IsSpace(s[j]) || IsDigit(s[j]) || s[j] == '+' || s[j] == '-'
      {
        if lead <= j < lead + |t| {
          assert s[j] == t[j - lead];
        }
      }
    }
  }

  /** `int(str(n)) == n`. */
  lemma ParseNatToString(n: nat)
    ensures ParseInt(NatToString(n)) == Some(n)
  {
    var s := NatToString(n);
    assert StripStart(s) == 0;
    assert StripEnd(s) == |s|;
    assert Strip(s) == s;
    DigitsOfNat(n);
  }

  /** `int("-" + str(n)) == -n`. */
  lemma ParseNegative(n: nat)
    ensures ParseInt("-" + NatToString(n)) == Some(-(n as int))
  {
    var d := NatToString(n);
    var s := "-" + d;
    assert StripStart(s) == 0;
    assert s[|s| - 1] == d[|d| - 1];
    assert StripEnd(s) == |s|;
    assert Strip(s) == s;
    assert s[1..] == d;
    DigitsOfNat(n);
  }

  /** Leading white space does not change what `int()` reads. */
  lemma ParseIgnoresLeadingSpace(c: char, s: string)
    requires IsSpace(c)
    ensures ParseInt([c] + s) == ParseInt(s)
  {
    StripShift(c, s);
  }

  lemma StripShift(c: char, s: string)
    requires IsSpace(c)
    ensures Strip([c] + s) == Strip(s)
  {
    var cs := [c] + s;
    var lo, hi := StripStart(s), StripEnd(s);
    StripBoundsShift(c, s);
    assert Strip(cs) == cs[lo + 1..hi + 1];
    assert cs[lo + 1..hi + 1] == s[lo..hi];
  }

  lemma StripBoundsShift(c: char, s: string)
    requires IsSpace(c)
    ensures StripStart([c] + s) == StripStart(s) + 1
    ensures StripEnd([c] + s) == StripEnd(s) + 1
  {
    SkipSpaceShift(c, s, 0);
    SkipSpaceBackShift(c, s, StripStart(s), |s|);
  }

  lemma {:induction false} SkipSpaceShift(c: char, s: string, i: nat)
    requires i <= |s|
    ensures SkipSpace([c] + s, i + 1) == SkipSpace(s, i) + 1
    decreases |s| - i
  {
    if i < |s| && IsSpace(s[i]) {
      SkipSpaceShift(c, s, i + 1);
    }
  }

  lemma {:induction false} SkipSpaceBackShift(c: char, s: string, lo: nat, hi: nat)
    requires lo <= hi <= |s|
    ensures SkipSpaceBack([c] + s, lo + 1, hi + 1) == SkipSpaceBack(s, lo, hi) + 1
    decreases hi
  {
    if lo < hi && IsSpace(s[hi - 1]) {
      SkipSpaceBackShift(c, s, lo, hi - 1);
    }
  }

  // ---------------------------------------------------------------------
  // Comma-separated lists
  // ---------------------------------------------------------------------

  /** `','.join(pieces)`. */
  function Join(pieces: seq<string>): (r: string)
    ensures r == "" <==> pieces == [] || pieces == [""]
    decreases |pieces|
  {
    if pieces == [] then ""
    else if |pieces| == 1 then pieces[0]
    else pieces[0] + "," + Join(pieces[1..])
  }

  /** `s.split(',')`: the pieces between commas; there is always at least
      one. */
  function Split(s: string): (r: seq<string>)
    ensures |r| >= 1
    ensures forall k :: 0 <= k < |r| ==> ',' !in r[k]
    decreases |s|
  {
    if s == [] then [""]
    else
      var rest := Split(s[1..]);
      if s[0] == ',' then [""] + rest
      else [[s[0]] + rest[0]] + rest[1..]
  }

  /** Joining the pieces with commas gives back the split string. */
  lemma {:induction false} JoinSplit(s: string)
    ensures Join(Split(s)) == s
    decreases |s|
  {
    if s != [] {
      var rest := Split(s[1..]);
      JoinSplit(s[1..]);
      if s[0] == ',' {
        assert ([""] + rest)[1..] == rest;
      } else {
        var r := [[s[0]] + rest[0]] + rest[1..];
        assert r[1..] == rest[1..];
        if |rest| > 1 {
          assert Join(rest) == rest[0] + "," + Join(rest[1..]);
        }
        assert s == [s[0]] + s[1..];
      }
    }
  }

  /** Splitting the join of comma-free pieces gives the pieces back. */
  lemma {:induction false} SplitJoin(pieces: seq<string>)
    requires |pieces| >= 1
    requires forall k :: 0 <= k < |pieces| ==> ',' !in pieces[k]
    ensures Split(Join(pieces)) == pieces
    decreases |pieces|
  {
    if |pieces| == 1 {
      SplitPiece(pieces[0]);
    } else {
      SplitJoin(pieces[1..]);
      SplitPrefix(pieces[0], Join(pieces[1..]));
    }
  }

  /** A string without commas is a single piece. */
  lemma {:induction false} SplitPiece(p: string)
    requires ',' !in p
    ensures Split(p) == [p]
    decreases |p|
  {
    if p != [] {
      assert ',' !in p[1..] by {
        assert forall k :: 0 <= k < |p[1..]| ==> p[1..][k] == p[k + 1];
      }
      SplitPiece(p[1..]);
      assert [p[0]] + p[1..] == p;
    }
  }

  /** A comma-free piece followed by a comma splits off as the first piece. */
  lemma {:induction false} SplitPrefix(p: string, tail: string)
    requires ',' !in p
    ensures Split(p + "," + tail) == [p] + Split(tail)
    decreases |p|
  {
    if p == [] {
      assert p + "," + tail == [','] + tail;
      assert ([','] + tail)[1..] == tail;
    } else {
      assert ',' !in p[1..] by {
        assert forall k :: 0 <= k < |p[1..]| ==> p[1..][k] == p[k + 1];
      }
      var whole := p + "," + tail;
      assert whole[0] == p[0];
      assert whole[1..] == p[1..] + "," + tail;
      SplitPrefix(p[1..], tail);
      var rest := Split(whole[1..]);
      assert rest[0] == p[1..] && rest[1..] == Split(tail);
      assert [p[0]] + p[1..] == p;
    }
  }

  // ---------------------------------------------------------------------
  // The export view and the export form
  // ---------------------------------------------------------------------

  /** What the export view makes of its `data` parameter: the list of
      action ids, or the error that sends the user back to the index. */
  datatype IdList = Ids(ids: seq<int>) | Invalid

  /** Every piece is something `int()` accepts. */
  predicate AllIntegers(pieces: seq<string>) {
    forall k :: 0 <= k < |pieces| ==> ParseInt(pieces[k]).Some?
  }

  /** `[int(x) for x in pieces]`, or None when one of the pieces is not an
      integer. */
  function ParseAll(pieces: seq<string>): (r: Option<seq<int>>)
    ensures r.Some? <==> AllIntegers(pieces)
    ensures r.Some? ==> |r.value| == |pieces|
    ensures r.Some? ==> forall k :: 0 <= k < |pieces| ==> Some(r.value[k]) == ParseInt(pieces[k])
    decreases |pieces|
  {
    if pieces == [] then Some([])
    else
      var rest := ParseAll(pieces[1..]);
      match ParseInt(pieces[0])
      case None => None
      case Some(v) =>
        if rest.None? then None else Some([v] + rest.value)
  }

  /** The export view's reading of `data`: nothing, or the empty string, is
      the empty list; otherwise every comma-separated piece must be an
      integer, and the list holds them in order. */
  function ParseActionIds(data: Option<string>): (r: IdList)
    ensures data.None? || data.value == "" ==> r == Ids([])
    ensures data.Some? && data.value != "" ==>
      (r.Ids? <==> AllIntegers(Split(data.value)))
    ensures data.Some? && data.value != "" && r.Ids? ==>
      var pieces := Split(data.value);
      |r.ids| == |pieces| && forall k :: 0 <= k < |pieces| ==> Some(r.ids[k]) == ParseInt(pieces[k])
  {
    if data.None? || data.value == "" then Ids([])
    else
      var pieces := Split(data.value);
      match ParseAll(pieces)
      case None =>
        Invalid
      case Some(ids) => Ids(ids)
  }

  /** An empty piece, as in "3,,4", makes the whole list invalid. */
  lemma EmptyPieceIsInvalid(a: string, b: string)
    requires ',' !in a
    ensures ParseActionIds(Some(a + ",," + b)) == Invalid
  {
    assert a + ",," + b == a + "," + ("," + b);
    SplitPrefix(a, "," + b);
    SplitPrefix("", b);
    assert "" + "," + b == "," + b;
    assert Split(a + ",," + b)[1] == "";
  }

  /** The decimal form of every id. */
  function Decimals(ids: seq<nat>): (r: seq<string>)
    ensures |r| == |ids|
    ensures forall k :: 0 <= k < |ids| ==> r[k] == NatToString(ids[k])
  {
    seq(|ids|, k requires 0 <= k < |ids| => NatToString(ids[k]))
  }

  /** Reading back the joined decimal forms of some ids gives those ids; an
      empty selection is the empty string, read as the empty list. */
  lemma ExportRoundTrip(ids: seq<nat>)
    ensures ParseActionIds(Some(Join(Decimals(ids)))) == Ids(ids)
  {
    var pieces := Decimals(ids);
    if ids != [] {
      forall k | 0 <= k < |pieces|
        ensures ',' !in pieces[k]
      {
        assert AllDigits(pieces[k]);
      }
      SplitJoin(pieces);
      assert Join(pieces) != "" by {
        assert Split(Join(pieces)) == pieces;
      }
      forall k | 0 <= k < |pieces|
        ensures ParseInt(pieces[k]) == Some(ids[k] as int)
      {
        ParseNatToString(ids[k]);
      }
      var r := ParseActionIds(Some(Join(pieces)));
      assert r.Ids?;
      assert r.ids == ids;
    }
  }

  /** The decimal forms of a concatenation are the concatenated forms. */
  lemma DecimalsAppend(a: seq<nat>, b: seq<nat>)
    ensures Decimals(a + b) == Decimals(a) + Decimals(b)
  {
  }

  /** The export form: `actionIds` are the ids of the workflow's actions in
      the order the query lists them, and `selected[idx]` is the form's
      `select_<idx>` box. The result is the `include` string handed to the
      export page, which the export view reads back as exactly the selected
      ids in that order. */
  method ExportSelection(actionIds: seq<nat>, selected: seq<bool>) returns (includeIds: string)
    requires |selected| >= |actionIds|
    ensures includeIds == Join(Decimals(KeepWhere(actionIds, selected)))
    ensures ParseActionIds(Some(includeIds)) == Ids(KeepWhere(actionIds, selected))
  {
    var toInclude: seq<string> := [];
    for idx := 0 to |actionIds|
      invariant toInclude == Decimals(KeepWhere(actionIds[..idx], selected))
    {
      assert actionIds[..idx + 1][..idx] == actionIds[..idx];
      DecimalsAppend(KeepWhere(actionIds[..idx], selected),
                     if selected[idx] then [actionIds[idx]] else []);
      if selected[idx] {
        toInclude := toInclude + [NatToString(actionIds[idx])];
      }
    }
    assert actionIds[..|actionIds|] == actionIds;
    includeIds := Join(toInclude);
    ExportRoundTrip(KeepWhere(actionIds, selected));
  }
}
