/** The address part of `get_cell_value`: an Excel address such as "H2", or a
    (row, column) pair, both 1-based, becomes the 0-based (row, column) index
    the spreadsheet reader expects. */
module Cells {
  import opened Results
  import opened Text
  import opened Columns

  /** The `address` argument together with the `rcformat` flag that says how to read it. */
  datatype Address =
    | A1(text: string)              // rcformat False: an address such as "H2"
    | RowCol(row: int, col: int)    // rcformat True: a 1-based (row, column) pair

  /** A 0-based (row, column) index into the sheet. */
  datatype CellIndex = CellIndex(row: int, col: int)

  /** Reference meaning of the pattern \A[a-z]+[0-9]+\Z: one or more lower-case
      letters followed by one or more digits, and nothing else. */
  ghost predicate IsA1(s: string) {
    exists k :: 0 < k < |s| && AllLower(s[..k]) && AllDigits(s[k..])
  }

  /** The length of the longest run of lower-case letters at the front of `s`
      (what the greedy `[a-z]+` consumes). */
  function LetterRun(s: string): (k: nat)
    ensures k <= |s| && AllLower(s[..k])
    ensures k < |s| ==> !IsLower(s[k])
    decreases |s|
  {
    if s == [] || !IsLower(s[0]) then 0
    else
      var k := LetterRun(s[1..]);
      assert s[..k + 1] == [s[0]] + s[1..][..k];
      k + 1
  }

  /** `get_cell_value` up to the sheet lookup. In rcformat mode the pair is only
      shifted down by one. Otherwise the address is lower-cased and must match
      \A[a-z]+[0-9]+\Z; the letters are decoded by `column`, the digits by `int`,
      and both are shifted down by one. A failed match leaves `match` as None and
      `match.group` raises AttributeError. */
  function SheetIndex(address: Address): (r: Result<CellIndex>)
    ensures address.RowCol? ==> r.Ok?
    ensures r.Err? ==> r.error == AttributeError
    ensures address.A1? && r.Ok? ==> r.value.row >= -1 && r.value.col >= 0
  {
    match address
    case RowCol(row, col) => Ok(CellIndex(row - 1, col - 1))
    case A1(text) => ParseLowered(LowerStr(text))
  }

  /** The rcformat-False branch of `get_cell_value`, after `address.lower()`. */
  function ParseLowered(s: string): (r: Result<CellIndex>)
    ensures r.Err? ==> r.error == AttributeError
    ensures r.Ok? ==> r.value.row >= -1 && r.value.col >= 0
  {
    var k := LetterRun(s);
    if k == 0 || k == |s| || !AllDigits(s[k..]) then Err(AttributeError)
    else
      var row := Decimal(s[k..]);
      ColumnOfLower(s[..k]);
      match Column(s[..k], 0)
      case Err(e) => Err(e)
      case Ok(col) => Ok(CellIndex(row - 1, col - 1))
  }

  /** A lower-cased address has exactly one split into letters then digits, at
      the end of its leading letter run. */
  lemma SplitIsLetterRun(s: string, k: nat)
    requires 0 < k < |s| && AllLower(s[..k]) && AllDigits(s[k..])
    ensures LetterRun(s) == k
  {
    var j := LetterRun(s);
    assert forall i :: 0 <= i < j ==> s[..j][i] == s[i];
    assert IsDigit(s[k..][0]) && s[k..][0] == s[k];
  }

  /** An Excel address is accepted exactly when, lower-cased, it matches the pattern. */
  lemma SheetIndexAccepts(text: string)
    ensures SheetIndex(A1(text)).Ok? <==> IsA1(LowerStr(text))
    ensures SheetIndex(A1(text)).Err? ==> SheetIndex(A1(text)).error == AttributeError
  {
    var s := LowerStr(text);
    var k := LetterRun(s);
    if 0 < k < |s| && AllDigits(s[k..]) {
      ColumnOfLower(s[..k]);
      assert IsA1(s);
    } else if IsA1(s) {
      var j :| 0 < j < |s| && AllLower(s[..j]) && AllDigits(s[j..]);
      SplitIsLetterRun(s, j);
      assert false;
    }
  }

  /** For an address made of letters L followed by digits D the result is
      (int(D) - 1, column(L) - 1). */
  lemma SheetIndexOfSplit(text: string, letters: string, digits: string)
    requires LowerStr(text) == letters + digits
    requires |letters| > 0 && AllLower(letters)
    requires |digits| > 0 && AllDigits(digits)
    ensures Column(letters, 0).Ok?
    ensures SheetIndex(A1(text)) == Ok(CellIndex(Decimal(digits) - 1, Column(letters, 0).value - 1))
  {
    ColumnOfLower(letters);
    SheetIndexOfLetters(text, letters, digits);
  }

  lemma SheetIndexOfLetters(text: string, letters: string, digits: string)
    requires LowerStr(text) == letters + digits
    requires |letters| > 0 && AllLower(letters)
    requires |digits| > 0 && AllDigits(digits)
    ensures SheetIndex(A1(text)) == Ok(CellIndex(Decimal(digits) - 1, Value(letters) - 1))
  {
    ParseSplit(letters, digits);
    SheetIndexLowered(text, letters + digits);
  }

  lemma ParseSplit(letters: string, digits: string)
    requires |letters| > 0 && AllLower(letters)
    requires |digits| > 0 && AllDigits(digits)
    ensures ParseLowered(letters + digits) == Ok(CellIndex(Decimal(digits) - 1, Value(letters) - 1))
  {
    SplitRun(letters, digits);
    SplitDigits(letters, digits);
    SplitColumn(letters, digits);
    ParseAtRun(letters, digits, Value(letters));
  }

  lemma SplitRun(letters: string, digits: string)
    requires |letters| > 0 && AllLower(letters)
    requires |digits| > 0 && AllDigits(digits)
    ensures LetterRun(letters + digits) == |letters|
  {
    SplitIsLetterRun(letters + digits, |letters|);
  }

  lemma SplitDigits(letters: string, digits: string)
    requires AllDigits(digits)
    ensures AllDigits((letters + digits)[|letters|..])
    ensures Decimal((letters + digits)[|letters|..]) == Decimal(digits)
  {
  }

  lemma SplitColumn(letters: string, digits: string)
    requires AllLower(letters)
    ensures Column((letters + digits)[..|letters|], 0) == Ok(Value(letters))
  {
    ColumnOfLower(letters);
  }

  /** Once the letter run, the digits and the column are known, parsing is one step. */
  lemma ParseAtRun(letters: string, digits: string, col: int)
    requires 0 < |letters| < |letters + digits|
    requires LetterRun(letters + digits) == |letters|
    requires AllDigits((letters + digits)[|letters|..])
    requires Decimal((letters + digits)[|letters|..]) == Decimal(digits)
    requires Column((letters + digits)[..|letters|], 0) == Ok(col)
    ensures ParseLowered(letters + digits) == Ok(CellIndex(Decimal(digits) - 1, col - 1))
  {
  }

  /** The two address forms agree: the name of a column followed by `str(row)`
      addresses the same cell as the pair (row, column). This is how the
      importers build addresses from a column name and a row number. */
  lemma AddressFormsAgree(colname: string, row: nat)
    requires |colname| > 0 && AllLetters(colname)
    ensures Column(colname, 0).Ok?
    ensures SheetIndex(A1(colname + Str(row))) == SheetIndex(RowCol(row, Column(colname, 0).value))
  {
    ColumnOfLetters(colname);
    AgreeAtColumn(colname, row, Column(colname, 0).value);
  }

  lemma AgreeAtColumn(colname: string, row: nat, col: nat)
    requires |colname| > 0 && AllLetters(colname)
    requires AllLower(LowerStr(colname)) && col == Value(LowerStr(colname))
    ensures SheetIndex(A1(colname + Str(row))) == SheetIndex(RowCol(row, col))
  {
    AddressOfColumnName(colname, row);
    SheetIndexRowCol(row, col);
  }

  /** An address built as letters followed by `str(row)` is read back as that
      row and that column, each shifted down by one. */
  lemma AddressOfColumnName(colname: string, row: nat)
    requires |colname| > 0 && AllLetters(colname)
    ensures AllLower(LowerStr(colname))
    ensures SheetIndex(A1(colname + Str(row))) == Ok(CellIndex(row - 1, Value(LowerStr(colname)) - 1))
  {
    var letters := LowerStr(colname);
    var digits := Str(row);
    LettersIffLowered(colname);
    LowerStrAppendDigits(colname, digits);
    DecimalOfStr(row);
    ParseSplit(letters, digits);
    SheetIndexLowered(colname + digits, letters + digits);
  }

  /** An Excel address is parsed through its lower-cased form. */
  lemma SheetIndexLowered(text: string, s: string)
    requires LowerStr(text) == s
    ensures SheetIndex(A1(text)) == ParseLowered(s)
  {
  }

  /** In rcformat mode the pair is shifted down by one, with no range check. */
  lemma SheetIndexRowCol(row: int, col: int)
    ensures SheetIndex(RowCol(row, col)) == Ok(CellIndex(row - 1, col - 1))
  {
  }

  /** Concrete addresses: "H2" is (1, 7); "A0" shows that no range check is
      made; digits before letters, trailing junk and the empty address fail. */
  lemma SheetIndexExamples()
    ensures SheetIndex(A1("H2")) == Ok(CellIndex(1, 7))
    ensures SheetIndex(A1("a0")) == Ok(CellIndex(-1, 0))
    ensures SheetIndex(A1("2H")) == Err(AttributeError)
    ensures SheetIndex(A1("h2x")) == Err(AttributeError)
    ensures SheetIndex(A1("")) == Err(AttributeError)
    ensures SheetIndex(RowCol(0, 18)) == Ok(CellIndex(-1, 17))
  {
    SheetIndexOfSplit("H2", "h", "2");
  }
}
