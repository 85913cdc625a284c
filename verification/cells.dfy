/** Cells and rows of the crash tables.

    Every column of every table is read as text. A row maps a column name to
    its cell; `None` is an empty CSV cell (Spark's null), and a column that
    the row does not carry reads as null too. Comparisons follow SQL's
    three-valued logic: a comparison against a null cell is itself null, and
    a filter drops the row. */
module Cells {

  datatype Option<+T> = None | Some(value: T)

  datatype Result<+R, +E> = Success(value: R) | Failure(error: E)

  type Cell = Option<string>

  type Row = map<string, Cell>

  function Get(row: Row, column: string): (c: Cell)
    ensures column !in row ==> c == None
  {
    if column in row then row[column] else None
  }

  /** `col == v` as a filter: holds only for a non-null cell equal to `v`. */
  predicate CellIs(row: Row, column: string, v: string) {
    Get(row, column) == Some(v)
  }

  /** `col != v` as a filter: a null cell is dropped as well. */
  predicate CellIsNot(row: Row, column: string, v: string) {
    Get(row, column).Some? && Get(row, column).value != v
  }

  /** `col.isin(vs)` as a filter. */
  predicate CellIn(row: Row, column: string, vs: set<string>) {
    Get(row, column).Some? && Get(row, column).value in vs
  }

  /** `~col.isin(vs)` as a filter: negating null leaves null, so a null cell is dropped. */
  predicate CellNotIn(row: Row, column: string, vs: set<string>) {
    Get(row, column).Some? && Get(row, column).value !in vs
  }

  /** `col.isin(list)` where the list was collected from another query and may
      itself hold null: a null cell never matches, a non-null one matches an
      equal non-null entry. */
  predicate CellInList(c: Cell, list: seq<Cell>) {
    c.Some? && c in list
  }

  /** `col.contains(sub)` as a filter. */
  predicate CellContains(row: Row, column: string, sub: string) {
    Get(row, column).Some? && IsSubstring(sub, Get(row, column).value)
  }

  /** `sub` sits in `s` starting at index `i`. */
  predicate OccursAt(sub: string, s: string, i: int) {
    0 <= i && i + |sub| <= |s| && s[i..i + |sub|] == sub
  }

  predicate IsSubstring(sub: string, s: string)
    decreases |s|
  {
    sub <= s || (|s| > 0 && IsSubstring(sub, s[1..]))
  }

  /** `sub` occurs inside `s` exactly when some slice of `s` equals it. */
  lemma {:induction false} SubstringAt(sub: string, s: string, i: nat)
    requires OccursAt(sub, s, i)
    ensures IsSubstring(sub, s)
    decreases i
  {
    if i == 0 {
      assert s[..|sub|] == sub;
    } else {
      assert s[1..][i - 1..i - 1 + |sub|] == s[i..i + |sub|];
      SubstringAt(sub, s[1..], i - 1);
    }
  }

  lemma {:induction false} SubstringHasPosition(sub: string, s: string)
    requires IsSubstring(sub, s)
    ensures exists i :: OccursAt(sub, s, i)
    decreases |s|
  {
    if sub <= s {
      assert OccursAt(sub, s, 0);
    } else {
      SubstringHasPosition(sub, s[1..]);
      var i :| OccursAt(sub, s[1..], i);
      assert s[i + 1..i + 1 + |sub|] == s[1..][i..i + |sub|];
      assert OccursAt(sub, s, i + 1);
    }
  }

  // ---------------------------------------------------------------------
  // Text to number coercion
  // ---------------------------------------------------------------------

  predicate IsDigit(c: char) {
    '0' <= c <= '9'
  }

  predicate IsDigits(s: string) {
    |s| > 0 && forall i :: 0 <= i < |s| ==> IsDigit(s[i])
  }

  /** Decimal value of a run of digits, most significant first. */
  function DigitsValue(s: string): (n: nat)
    requires forall i :: 0 <= i < |s| ==> IsDigit(s[i])
  {
    if |s| == 0 then 0
    else
      assert IsDigit(s[|s| - 1]);
      DigitsValue(s[..|s| - 1]) * 10 + (s[|s| - 1] as int - '0' as int)
  }

  /** The explicit coercion used wherever `CarCrashAnalysis` compares or adds
      text columns as numbers: an optional minus sign followed by one or more
      decimal digits; anything else (including the empty string) is `None`. */
  function ParseInt(s: string): (r: Option<int>)
    ensures r.Some? <==> IsDigits(s) || (|s| > 0 && s[0] == '-' && IsDigits(s[1..]))
    ensures r.Some? && IsDigits(s) ==> r.value >= 0
  {
    if IsDigits(s) then Some(DigitsValue(s))
    else if |s| > 0 && s[0] == '-' && IsDigits(s[1..]) then Some(0 - DigitsValue(s[1..]) as int)
    else None
  }

  /** Coercion of a cell: a null cell has no number. */
  function ParseCell(c: Cell): (r: Option<int>)
    ensures c.None? ==> r.None?
  {
    match c
    case None => None
    case Some(s) => ParseInt(s)
  }

  const Int32Min: int := -0x8000_0000
  const Int32Max: int := 0x7fff_ffff

  predicate InInt32(n: int) {
    Int32Min <= n <= Int32Max
  }

  /** Coercion of a cell to a 32-bit integer, as when a text column is
      compared with an integer literal: a number outside the 32-bit range
      becomes null, like text that does not parse. */
  function CastInt32(c: Cell): (r: Option<int>)
    ensures r.Some? ==> InInt32(r.value) && ParseCell(c) == r
    ensures ParseCell(c).Some? && InInt32(ParseCell(c).value) ==> r.Some?
  {
    var n := ParseCell(c);
    if n.Some? && InInt32(n.value) then n else None
  }

  /** Shortest decimal spelling of a number, used as ParseInt's inverse. */
  function NatToString(n: nat): (s: string)
    ensures IsDigits(s)
  {
    var d := ['0' + (n % 10) as char];
    if n < 10 then d else NatToString(n / 10) + d
  }

  function IntToString(n: int): string {
    if n >= 0 then NatToString(n) else "-" + NatToString(-n)
  }

  lemma {:induction false} NatToStringValue(n: nat)
    ensures DigitsValue(NatToString(n)) == n
    decreases n
  {
    var s := NatToString(n);
    if n >= 10 {
      NatToStringValue(n / 10);
      assert s[..|s| - 1] == NatToString(n / 10);
    }
  }

  /** Round trip: every integer printed in decimal parses back to itself. */
  lemma ParseIntRoundTrip(n: int)
    ensures ParseInt(IntToString(n)) == Some(n)
  {
    if n >= 0 {
      NatToStringValue(n);
    } else {
      var s := IntToString(n);
      assert s[1..] == NatToString(-n);
      assert !IsDigits(s) by { assert !IsDigit(s[0]); }
      NatToStringValue(-n);
    }
  }

  /** The 32-bit cast keeps every decimal spelling of a number in range and
      turns every number out of range into null. */
  lemma CastInt32RoundTrip(n: int)
    ensures CastInt32(Some(IntToString(n))) == if InInt32(n) then Some(n) else None
  {
    ParseIntRoundTrip(n);
  }
}
