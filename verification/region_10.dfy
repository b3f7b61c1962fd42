/** The Region 10 price-list schedule: gleaning labor-category rows out of the
    "Service Pricing" sheet of a workbook, and sorting them into valid and invalid
    rows with the `Region10PriceListRow` form.

    The spreadsheet helpers (`safe_cell_str_value`, `generate_column_index_map`),
    the coercers' bodies, the two field validators and Django's integer and decimal
    parsing are not part of this model: they enter as function-valued parameters. */
module Region10 {
  import opened PyStr

  datatype Option<T> = None | Some(value: T)

  datatype Result<T, E> = Success(value: T) | Failure(error: E)

  /** The canonical field names of a labor-category row. */
  datatype Field =
    | Sin
    | LaborCategory
    | EducationLevel
    | MinYearsExperience
    | UnitOfIssue
    | PriceIncludingIff

  /** The coercers the gleaner hands to the cell reader; `ToInt` is Python's `int`. */
  datatype Coercer = StripNonNumeric | ToInt | ExtractMinEducation | ExtractHourUnitOfIssue

  /** A sheet is its rows of cell texts; a workbook maps sheet names to sheets. */
  type Sheet = seq<seq<string>>
  type Book = map<string, Sheet>

  /** Field name to zero-based column, as resolved from the heading row. */
  type ColumnIndexMap = map<Field, nat>

  /** One gleaned labor category: field name to (possibly coerced) cell text. */
  type RawRow = map<Field, string>

  /** `safe_cell_str_value(sheet, rownum, col, coercer=...)`. */
  type CellReader = (Sheet, nat, nat, Option<Coercer>) -> string

  /** `generate_column_index_map(heading_row, field_title_map)`; a `Failure` stands
      for any exception it raises. */
  type ColumnMapper = (seq<string>, map<Field, string>) -> Result<ColumnIndexMap, string>

  const DefaultSheetName: string := "Service Pricing"

  /** The heading row and one data row of a well-formed Region 10 sheet. */
  const ExampleSheetRows: Sheet := [
    [
      "SIN(s) Proposed",
      "Service Proposed (e.g. Labor Category or Job Title/Task)",
      "Minimum Education / Certification Level",
      "Minimum Years of Experience (cannot be a range)",
      "Contractor or Customer Facility or Both",
      "Domestic or Overseas",
      "Commercial Price List (CPL) OR Market Prices",
      "Unit of Issue (e.g. Hour, Task, Sq Ft)",
      "Most Favored Commercial Customer (MFC)*",
      "Discount Offered to Commercial MFC (%)",
      "Commercial MFC Price",
      "Discount Offered to GSA (off CPL or Market Prices) (%)",
      "Price Offered to GSA (Excluding IFF)",
      "Price Offered to GSA (including IFF)",
      "Discount Offered to GSA (off MFC Prices) (%)"
    ],
    [
      "123-1", "Consultant II", "Professional Certification", "2", "Both",
      "Domestic Only", "$100.00", "hour", "ABC Company", "5.00%", "$95.00",
      "10.00%", "$90.00", "$90.68", "5.26%"
    ]
  ]

  /** The heading text expected in row 0 for each field. */
  const DefaultFieldTitleMap: map<Field, string> := map[
    Sin := "SIN(s) Proposed",
    LaborCategory := "Service Proposed (e.g. Labor Category or Job Title/Task)",
    EducationLevel := "Minimum Education / Certification Level",
    MinYearsExperience := "Minimum Years of Experience (cannot be a range)",
    UnitOfIssue := "Unit of Issue (e.g. Hour, Task, Sq Ft)",
    PriceIncludingIff := "Price Offered to GSA (including IFF)"
  ]

  /** The coercer applied to each field; `sin` and `labor_category` are read raw. */
  const CoercionMap: map<Field, Coercer> := map[
    PriceIncludingIff := StripNonNumeric,
    MinYearsExperience := ToInt,
    EducationLevel := ExtractMinEducation,
    UnitOfIssue := ExtractHourUnitOfIssue
  ]

  /** Every field has a heading, the headings are pairwise distinct, and each of them
      occurs in the heading row of the example sheet. */
  lemma ExampleHeadingHasEveryTitle()
    ensures forall f: Field :: f in DefaultFieldTitleMap
    ensures forall f, g :: f in DefaultFieldTitleMap && g in DefaultFieldTitleMap && f != g
                           ==> DefaultFieldTitleMap[f] != DefaultFieldTitleMap[g]
    ensures forall f :: f in DefaultFieldTitleMap ==> DefaultFieldTitleMap[f] in ExampleSheetRows[0]
  {
    forall f: Field ensures f in DefaultFieldTitleMap {
      match f
      case Sin =>
      case LaborCategory =>
      case EducationLevel =>
      case MinYearsExperience =>
      case UnitOfIssue =>
      case PriceIncludingIff =>
    }
    assert ExampleSheetRows[0][0] == DefaultFieldTitleMap[Sin];
    assert ExampleSheetRows[0][1] == DefaultFieldTitleMap[LaborCategory];
    assert ExampleSheetRows[0][2] == DefaultFieldTitleMap[EducationLevel];
    assert ExampleSheetRows[0][3] == DefaultFieldTitleMap[MinYearsExperience];
    assert ExampleSheetRows[0][7] == DefaultFieldTitleMap[UnitOfIssue];
    assert ExampleSheetRows[0][13] == DefaultFieldTitleMap[PriceIncludingIff];
  }

  /** `coercion_map.get(field, None)`: exactly `sin` and `labor_category` are read
      without a coercer, and the price is read with the same coercer that the
      end-of-data test applies to it. */
  function CoercerFor(f: Field): (k: Option<Coercer>)
    ensures k.None? <==> f == Sin || f == LaborCategory
    ensures f == PriceIncludingIff ==> k == Some(StripNonNumeric)
  {
    if f in CoercionMap then Some(CoercionMap[f])
    else
      assert f.Sin? || f.LaborCategory? || f.EducationLevel? || f.MinYearsExperience?
             || f.UnitOfIssue? || f.PriceIncludingIff?;
      None
  }

  /** The assumption that bounds the scan: at or past the end of the sheet, the two reads
      the end-of-data test makes (a raw read and a `strip_non_numeric` read) yield blank
      text, whatever the column. */
  ghost predicate ReadsBlankPastEnd(read: CellReader) {
    forall s: Sheet, r: nat, c: nat :: r >= |s| ==>
      IsBlank(read(s, r, c, None)) && IsBlank(read(s, r, c, Some(StripNonNumeric)))
  }

  /** The two columns the end-of-data test reads are resolved. */
  predicate HasStopColumns(colIdx: ColumnIndexMap) {
    Sin in colIdx && PriceIncludingIff in colIdx
  }

  /** Row `rownum` marks the end of data: its `sin` and its coerced price are both blank.
      Under the scan's assumption, every row past the end of the sheet is an end row. */
  predicate IsEndRow(read: CellReader, sheet: Sheet, rownum: nat, colIdx: ColumnIndexMap): (end: bool)
    requires HasStopColumns(colIdx)
    ensures ReadsBlankPastEnd(read) && rownum >= |sheet| ==> end
  {
    && IsBlank(read(sheet, rownum, colIdx[Sin], None))
    && IsBlank(read(sheet, rownum, colIdx[PriceIncludingIff], Some(StripNonNumeric)))
  }

  /** The dict built for row `rownum`: every mapped field, read through its coercer.
      Its `sin` and its price are the very values the end-of-data test reads. */
  function ReadRow(read: CellReader, sheet: Sheet, rownum: nat, colIdx: ColumnIndexMap): (cat: RawRow)
    ensures cat.Keys == colIdx.Keys
    ensures HasStopColumns(colIdx) ==>
              && cat[Sin] == read(sheet, rownum, colIdx[Sin], None)
              && cat[PriceIncludingIff] == read(sheet, rownum, colIdx[PriceIncludingIff], Some(StripNonNumeric))
  {
    map f | f in colIdx :: read(sheet, rownum, colIdx[f], CoercerFor(f))
  }

  /** The rows gleaned from `rownum` on: one per row up to the first end row. */
  function GleanFrom(read: CellReader, sheet: Sheet, colIdx: ColumnIndexMap, rownum: nat): (cats: seq<RawRow>)
    requires ReadsBlankPastEnd(read) && HasStopColumns(colIdx)
    ensures rownum <= |sheet| ==> rownum + |cats| <= |sheet|
    decreases |sheet| - rownum
  {
    if IsEndRow(read, sheet, rownum, colIdx) then []
    else
      assert rownum < |sheet|;
      [ReadRow(read, sheet, rownum, colIdx)] + GleanFrom(read, sheet, colIdx, rownum + 1)
  }

  /** How gleaning can fail before any row is read. */
  datatype GleanError =
    | NoSuchSheet(name: string)        // the ValidationError for a missing sheet
    | NoHeadingRow                     // `sheet.row(0)` on a sheet without rows
    | ColumnMapFailed(message: string) // raised by the column index mapper
    | MissingColumn(field: Field)      // KeyError on `col_idx_map[...]`

  /** `glean_labor_categories_from_book` as a value. It succeeds exactly when the sheet
      exists, has a heading row, the columns resolve and `sin` and the price are among
      them; a success is the scan that starts on row 1, just after the heading row, and
      stops at the first end row, which lies inside the sheet. */
  function Glean(book: Book, mapColumns: ColumnMapper, read: CellReader, sheetName: string := DefaultSheetName)
    : (r: Result<seq<RawRow>, GleanError>)
    requires ReadsBlankPastEnd(read)
    ensures sheetName !in book ==> r == Failure(NoSuchSheet(sheetName))
    ensures r.Success? <==>
              && sheetName in book
              && |book[sheetName]| > 0
              && mapColumns(book[sheetName][0], DefaultFieldTitleMap).Success?
              && HasStopColumns(mapColumns(book[sheetName][0], DefaultFieldTitleMap).value)
    ensures r.Success? ==>
              var sheet := book[sheetName];
              IsScan(read, sheet, mapColumns(sheet[0], DefaultFieldTitleMap).value, 1, r.value)
              && |r.value| < |sheet|
  {
    if sheetName !in book then Failure(NoSuchSheet(sheetName))
    else
      var sheet := book[sheetName];
      if |sheet| == 0 then Failure(NoHeadingRow)
      else match mapColumns(sheet[0], DefaultFieldTitleMap)
        case Failure(message) => Failure(ColumnMapFailed(message))
        case Success(colIdx) =>
          if Sin !in colIdx then Failure(MissingColumn(Sin))
          else if PriceIncludingIff !in colIdx then Failure(MissingColumn(PriceIncludingIff))
          else
            GleanFromIsScan(read, sheet, colIdx, 1);
            Success(GleanFrom(read, sheet, colIdx, 1))
  }

  /** `cat` is the dict of row `rownum`, and that row is not an end row. */
  predicate ScannedRow(read: CellReader, sheet: Sheet, colIdx: ColumnIndexMap, rownum: nat, cat: RawRow)
    requires HasStopColumns(colIdx)
  {
    cat == ReadRow(read, sheet, rownum, colIdx) && !IsEndRow(read, sheet, rownum, colIdx)
  }

  /** `cats` is what a scan from row `start` produces: its k-th entry is the dict of row
      `start + k`, which is not an end row, and row `start + |cats|` is an end row. */
  predicate IsScan(read: CellReader, sheet: Sheet, colIdx: ColumnIndexMap, start: nat, cats: seq<RawRow>) {
    && HasStopColumns(colIdx)
    && (forall k :: 0 <= k < |cats| ==> ScannedRow(read, sheet, colIdx, start + k, cats[k]))
    && IsEndRow(read, sheet, start + |cats|, colIdx)
  }

  /** The gleaner's rows from `start` are a scan from `start`. */
  lemma {:induction false} GleanFromIsScan(read: CellReader, sheet: Sheet, colIdx: ColumnIndexMap, start: nat)
    requires ReadsBlankPastEnd(read) && HasStopColumns(colIdx)
    ensures IsScan(read, sheet, colIdx, start, GleanFrom(read, sheet, colIdx, start))
    decreases |sheet| - start
  {
    var cats := GleanFrom(read, sheet, colIdx, start);
    if !IsEndRow(read, sheet, start, colIdx) {
      var rest := GleanFrom(read, sheet, colIdx, start + 1);
      GleanFromIsScan(read, sheet, colIdx, start + 1);
      assert cats == [ReadRow(read, sheet, start, colIdx)] + rest;
      forall k | 0 <= k < |cats|
        ensures ScannedRow(read, sheet, colIdx, start + k, cats[k])
      {
        if k > 0 {
          assert cats[k] == rest[k - 1];
        }
      }
    }
  }

  /** A scan from `start` is the gleaner's rows from `start`: the two definitions agree. */
  lemma {:induction false} ScanIsGleanFrom(read: CellReader, sheet: Sheet, colIdx: ColumnIndexMap, start: nat, cats: seq<RawRow>)
    requires ReadsBlankPastEnd(read)
    requires IsScan(read, sheet, colIdx, start, cats)
    ensures cats == GleanFrom(read, sheet, colIdx, start)
    decreases |cats|
  {
    if cats != [] {
      var rest := cats[1..];
      forall k | 0 <= k < |rest|
        ensures ScannedRow(read, sheet, colIdx, start + 1 + k, rest[k])
      {
        assert rest[k] == cats[k + 1];
      }
      ScanIsGleanFrom(read, sheet, colIdx, start + 1, rest);
      assert ScannedRow(read, sheet, colIdx, start, cats[0]);
      assert GleanFrom(read, sheet, colIdx, start) == [cats[0]] + rest;
      assert cats == [cats[0]] + rest;
    }
  }

  /** Every gleaned dict has exactly the mapped fields, and its `sin` or its coerced
      price is not blank. */
  lemma {:induction false} GleanedRowsNotBlank(read: CellReader, sheet: Sheet, colIdx: ColumnIndexMap, start: nat)
    requires ReadsBlankPastEnd(read) && HasStopColumns(colIdx)
    ensures forall cat :: cat in GleanFrom(read, sheet, colIdx, start) ==>
              cat.Keys == colIdx.Keys && (!IsBlank(cat[Sin]) || !IsBlank(cat[PriceIncludingIff]))
  {
    var cats := GleanFrom(read, sheet, colIdx, start);
    GleanFromIsScan(read, sheet, colIdx, start);
    forall cat | cat in cats
      ensures cat.Keys == colIdx.Keys && (!IsBlank(cat[Sin]) || !IsBlank(cat[PriceIncludingIff]))
    {
      var k :| 0 <= k < |cats| && cats[k] == cat;
      assert ScannedRow(read, sheet, colIdx, start + k, cats[k]);
    }
  }

  /** Nothing past the end row is read: two cell readers that agree on the rows from
      `start` up to and including the end row glean the same rows. */
  lemma {:induction false} GleanIgnoresRowsPastEnd(read1: CellReader, read2: CellReader, sheet: Sheet, colIdx: ColumnIndexMap, start: nat)
    requires ReadsBlankPastEnd(read1) && ReadsBlankPastEnd(read2) && HasStopColumns(colIdx)
    requires forall r: nat, c: nat, k: Option<Coercer> ::
               start <= r <= start + |GleanFrom(read1, sheet, colIdx, start)| ==> read1(sheet, r, c, k) == read2(sheet, r, c, k)
    ensures GleanFrom(read2, sheet, colIdx, start) == GleanFrom(read1, sheet, colIdx, start)
    decreases |sheet| - start
  {
    assert IsEndRow(read1, sheet, start, colIdx) == IsEndRow(read2, sheet, start, colIdx);
    if !IsEndRow(read1, sheet, start, colIdx) {
      assert start < |sheet|;
      GleanIgnoresRowsPastEnd(read1, read2, sheet, colIdx, start + 1);
      assert ReadRow(read1, sheet, start, colIdx) == ReadRow(read2, sheet, start, colIdx);
    }
  }

  /** The inner loop of the gleaner: the dict of one row, field by field. */
  method ReadCategory(read: CellReader, sheet: Sheet, rownum: nat, colIdx: ColumnIndexMap) returns (cat: RawRow)
    ensures cat.Keys == colIdx.Keys
    ensures forall f :: f in cat ==> cat[f] == read(sheet, rownum, colIdx[f], CoercerFor(f))
    ensures cat == ReadRow(read, sheet, rownum, colIdx)
  {
    cat := map[];
    var pending := colIdx.Keys;
    while pending != {}
      invariant pending <= colIdx.Keys
      invariant cat.Keys == colIdx.Keys - pending
      invariant forall f :: f in cat ==> cat[f] == read(sheet, rownum, colIdx[f], CoercerFor(f))
      decreases pending
    {
      var field :| field in pending;
      var coercer := CoercerFor(field);
      cat := cat[field := read(sheet, rownum, colIdx[field], coercer)];
      pending := pending - {field};
    }
  }

  /** `glean_labor_categories_from_book(book, sheet_name)`: fails when the sheet is
      missing, and otherwise appends one dict per row from row 1 until the first row
      whose `sin` and coerced price are both blank. */
  method GleanLaborCategoriesFromBook(book: Book, mapColumns: ColumnMapper, read: CellReader, sheetName: string := DefaultSheetName)
    returns (r: Result<seq<RawRow>, GleanError>)
    requires ReadsBlankPastEnd(read)
    ensures sheetName !in book ==> r == Failure(NoSuchSheet(sheetName))
    ensures r.Success? ==>
              && sheetName in book && |book[sheetName]| > 0
              && mapColumns(book[sheetName][0], DefaultFieldTitleMap).Success?
              && IsScan(read, book[sheetName], mapColumns(book[sheetName][0], DefaultFieldTitleMap).value, 1, r.value)
    ensures r == Glean(book, mapColumns, read, sheetName)
  {
    if sheetName !in book {
      return Failure(NoSuchSheet(sheetName));
    }
    var sheet := book[sheetName];
    var rownum: nat := 1;
    var cats: seq<RawRow> := [];
    if |sheet| == 0 {
      return Failure(NoHeadingRow);
    }
    var headingRow := sheet[0];
    var mapped := mapColumns(headingRow, DefaultFieldTitleMap);
    if mapped.Failure? {
      return Failure(ColumnMapFailed(mapped.error));
    }
    var colIdx := mapped.value;
    while true
      invariant 1 <= rownum <= |sheet|
      invariant |cats| == rownum - 1
      invariant cats != [] ==> HasStopColumns(colIdx)
      invariant forall k :: 0 <= k < |cats| ==> HasStopColumns(colIdx) && ScannedRow(read, sheet, colIdx, 1 + k, cats[k])
      decreases |sheet| - rownum
    {
      if Sin !in colIdx {
        return Failure(MissingColumn(Sin));
      }
      var sin := read(sheet, rownum, colIdx[Sin], None);
      if PriceIncludingIff !in colIdx {
        return Failure(MissingColumn(PriceIncludingIff));
      }
      var priceIncludingIff := read(sheet, rownum, colIdx[PriceIncludingIff], Some(StripNonNumeric));
      var sinBlank := StripsToEmpty(sin);
      var priceBlank := StripsToEmpty(priceIncludingIff);
      if sinBlank && priceBlank {
        break;
      }
      assert rownum < |sheet| by {
        assert !IsEndRow(read, sheet, rownum, colIdx);
      }
      var cat := ReadCategory(read, sheet, rownum, colIdx);
      assert ScannedRow(read, sheet, colIdx, rownum, cat);
      cats := cats + [cat];
      rownum := rownum + 1;
    }
    assert IsScan(read, sheet, colIdx, 1, cats);
    ScanIsGleanFrom(read, sheet, colIdx, 1, cats);
    return Success(cats);
  }

  /** Django's parsing of the typed form fields and the two field validators.
      `stripsText` says whether `forms.CharField` strips its input before the required
      check and the validators (Django 1.9 and later) or passes it on as given (Django
      1.8 and earlier). */
  datatype RowValidators = RowValidators(
    stripsText: bool,
    parsesAsInteger: string -> bool,  // forms.IntegerField
    parsesAsDecimal: string -> bool,  // forms.DecimalField
    hourlyRatesOnly: string -> bool,  // hourly_rates_only_validator
    minPrice: string -> bool)         // min_price_validator

  /** The value a `CharField` cleans `text` to. */
  function CharFieldValue(text: string, stripsText: bool): string {
    if stripsText then Strip(text) else text
  }

  /** A required `CharField`: present, and not empty once cleaned. */
  predicate RequiredText(row: RawRow, f: Field, stripsText: bool) {
    f in row && CharFieldValue(row[f], stripsText) != ""
  }

  /** A dict holding all six fields holds exactly the fields of the title map. */
  lemma HasSixFields(row: RawRow)
    ensures (&& Sin in row && LaborCategory in row && EducationLevel in row
             && MinYearsExperience in row && UnitOfIssue in row && PriceIncludingIff in row)
            ==> row.Keys == DefaultFieldTitleMap.Keys
  {
    forall f: Field ensures f in DefaultFieldTitleMap {
      match f
      case Sin =>
      case LaborCategory =>
      case EducationLevel =>
      case MinYearsExperience =>
      case UnitOfIssue =>
      case PriceIncludingIff =>
    }
  }

  /** `Region10PriceListRow(row).is_valid()`: the four required `CharField`s are present
      and not empty once cleaned, the integer and decimal fields parse, and the two
      validators accept. A row that validates holds exactly the six fields. */
  predicate RowFormIsValid(row: RawRow, v: RowValidators): (valid: bool)
    ensures valid ==> row.Keys == DefaultFieldTitleMap.Keys
  {
    HasSixFields(row);
    && RequiredText(row, Sin, v.stripsText)
    && RequiredText(row, LaborCategory, v.stripsText)
    && RequiredText(row, EducationLevel, v.stripsText)
    && MinYearsExperience in row && v.parsesAsInteger(row[MinYearsExperience])
    && RequiredText(row, UnitOfIssue, v.stripsText)
    && v.hourlyRatesOnly(CharFieldValue(row[UnitOfIssue], v.stripsText))
    && PriceIncludingIff in row && v.parsesAsDecimal(row[PriceIncludingIff]) && v.minPrice(row[PriceIncludingIff])
  }

  /** A row whose form validates has a value for every field; its required text fields
      are not empty, and not blank either when the form strips text. */
  lemma ValidRowHasEveryField(row: RawRow, v: RowValidators)
    requires RowFormIsValid(row, v)
    ensures row.Keys == DefaultFieldTitleMap.Keys
    ensures row[Sin] != "" && row[LaborCategory] != "" && row[EducationLevel] != "" && row[UnitOfIssue] != ""
    ensures v.stripsText ==>
              !IsBlank(row[Sin]) && !IsBlank(row[LaborCategory]) && !IsBlank(row[EducationLevel])
              && !IsBlank(row[UnitOfIssue])
  {
    if v.stripsText {
      StripEmptyIffBlank(row[Sin]);
      StripEmptyIffBlank(row[LaborCategory]);
      StripEmptyIffBlank(row[EducationLevel]);
      StripEmptyIffBlank(row[UnitOfIssue]);
    }
  }

  /** The rows on which `isValid` gives `valid`, in input order: never more rows than
      the input, and every one of them of that validity. */
  function Bucket(rows: seq<RawRow>, isValid: RawRow -> bool, valid: bool): (r: seq<RawRow>)
    ensures |r| <= |rows|
    ensures forall i :: 0 <= i < |r| ==> isValid(r[i]) == valid
  {
    if rows == [] then []
    else
      var last := rows[|rows| - 1];
      Bucket(rows[..|rows| - 1], isValid, valid) + (if isValid(last) == valid then [last] else [])
  }

  /** The input positions of the rows on which `isValid` gives `valid`, ascending. */
  function BucketIndices(rows: seq<RawRow>, isValid: RawRow -> bool, valid: bool): seq<nat> {
    if rows == [] then []
    else
      var n := |rows| - 1;
      BucketIndices(rows[..n], isValid, valid) + (if isValid(rows[n]) == valid then [n] else [])
  }

  /** A row is in a bucket exactly when it is an input row of that validity. */
  lemma {:induction false} BucketMembers(rows: seq<RawRow>, isValid: RawRow -> bool, valid: bool)
    ensures forall x :: x in Bucket(rows, isValid, valid) <==> x in rows && isValid(x) == valid
  {
    if rows != [] {
      var init := rows[..|rows| - 1];
      BucketMembers(init, isValid, valid);
      assert rows == init + [rows[|rows| - 1]];
    }
  }

  /** Together the two buckets hold every input row exactly once. */
  lemma {:induction false} BucketsPartition(rows: seq<RawRow>, isValid: RawRow -> bool)
    ensures |Bucket(rows, isValid, true)| + |Bucket(rows, isValid, false)| == |rows|
    ensures multiset(Bucket(rows, isValid, true)) + multiset(Bucket(rows, isValid, false)) == multiset(rows)
  {
    if rows != [] {
      var init, last := rows[..|rows| - 1], rows[|rows| - 1];
      BucketsPartition(init, isValid);
      assert rows == init + [last];
      assert multiset(rows) == multiset(init) + multiset{last};
      var valid, invalid := Bucket(init, isValid, true), Bucket(init, isValid, false);
      if isValid(last) {
        assert Bucket(rows, isValid, true) == valid + [last];
        assert Bucket(rows, isValid, false) == invalid;
        assert multiset(valid + [last]) == multiset(valid) + multiset{last};
      } else {
        assert Bucket(rows, isValid, true) == valid;
        assert Bucket(rows, isValid, false) == invalid + [last];
        assert multiset(invalid + [last]) == multiset(invalid) + multiset{last};
      }
    }
  }

  /** A bucket keeps the input order: it is the input read at its ascending indices,
      which are exactly the positions of the rows of that validity. */
  lemma {:induction false} BucketKeepsOrder(rows: seq<RawRow>, isValid: RawRow -> bool, valid: bool)
    ensures var idx := BucketIndices(rows, isValid, valid);
            var b := Bucket(rows, isValid, valid);
            && |idx| == |b|
            && (forall k :: 0 <= k < |idx| ==> idx[k] < |rows| && b[k] == rows[idx[k]])
            && (forall k, l :: 0 <= k < l < |idx| ==> idx[k] < idx[l])
            && (forall i :: 0 <= i < |rows| ==> (i in idx <==> isValid(rows[i]) == valid))
  {
    if rows != [] {
      var n := |rows| - 1;
      var init := rows[..n];
      BucketKeepsOrder(init, isValid, valid);
      var idx0 := BucketIndices(init, isValid, valid);
      var idx := BucketIndices(rows, isValid, valid);
      var b := Bucket(rows, isValid, valid);
      forall k | 0 <= k < |idx|
        ensures idx[k] < |rows| && b[k] == rows[idx[k]]
      {
        if k < |idx0| {
          assert idx[k] == idx0[k];
          assert rows[idx0[k]] == init[idx0[k]];
        }
      }
      forall i | 0 <= i < |rows|
        ensures i in idx <==> isValid(rows[i]) == valid
      {
        if i < n {
          assert rows[i] == init[i];
          assert i in idx0 <==> i in idx;
        } else {
          assert i !in idx0;
        }
      }
    }
  }

  /** Splitting the input splits each bucket the same way. */
  lemma {:induction false} BucketConcat(a: seq<RawRow>, b: seq<RawRow>, isValid: RawRow -> bool, valid: bool)
    ensures Bucket(a + b, isValid, valid) == Bucket(a, isValid, valid) + Bucket(b, isValid, valid)
    decreases |b|
  {
    if b == [] {
      assert a + b == a;
    } else {
      var init := b[..|b| - 1];
      assert (a + b)[..|a + b| - 1] == a + init;
      BucketConcat(a, init, isValid, valid);
    }
  }

  /** `Region10PriceList`: the gleaned rows and the forms built from them, sorted
      into valid and invalid rows once, when the price list is constructed. */
  class Region10PriceList {
    var rows: seq<RawRow>
    var validRows: seq<RawRow>
    var invalidRows: seq<RawRow>
    const validators: RowValidators
    /** `Region10PriceListRow(row).is_valid()` for the validators of this price list. */
    const formIsValid: RawRow -> bool

    ghost predicate Valid()
      reads this
    {
      && (forall row :: formIsValid(row) == RowFormIsValid(row, validators))
      && validRows == Bucket(rows, formIsValid, true)
      && invalidRows == Bucket(rows, formIsValid, false)
    }

    /** `Region10PriceList(rows)`: every row goes, in order, to the valid rows when its
        form validates and to the invalid rows otherwise. */
    constructor (rows: seq<RawRow>, validators: RowValidators)
      ensures Valid()
      ensures this.rows == rows && this.validators == validators
      ensures validRows == Bucket(rows, formIsValid, true)
      ensures invalidRows == Bucket(rows, formIsValid, false)
    {
      this.rows := rows;
      this.validators := validators;
      formIsValid := row => RowFormIsValid(row, validators);
      validRows := [];
      invalidRows := [];
      new;
      var i := 0;
      while i < |this.rows|
        invariant this.rows == rows
        invariant 0 <= i <= |rows|
        invariant validRows == Bucket(rows[..i], formIsValid, true)
        invariant invalidRows == Bucket(rows[..i], formIsValid, false)
      {
        var row := this.rows[i];
        ghost var seen := rows[..i + 1];
        assert seen[..i] == rows[..i] && seen[i] == row;
        if formIsValid(row) {
          assert Bucket(seen, formIsValid, true) == validRows + [row];
          assert Bucket(seen, formIsValid, false) == invalidRows;
          validRows := validRows + [row];
        } else {
          assert Bucket(seen, formIsValid, true) == validRows;
          assert Bucket(seen, formIsValid, false) == invalidRows + [row];
          invalidRows := invalidRows + [row];
        }
        i := i + 1;
      }
      assert rows[..i] == rows;
    }

    /** The rows `to_table` renders: exactly the input rows whose form validates. */
    function TableRows(): (r: seq<RawRow>)
      reads this
      requires Valid()
      ensures forall x :: x in r <==> x in rows && RowFormIsValid(x, validators)
    {
      BucketMembers(rows, formIsValid, true);
      validRows
    }

    /** The rows `to_error_table` renders as written: the valid rows again. */
    function ErrorTableRowsAsWritten(): (r: seq<RawRow>)
      reads this
      requires Valid()
      ensures forall x :: x in r ==> RowFormIsValid(x, validators)
    {
      BucketMembers(rows, formIsValid, true);
      validRows
    }

    /** The rows an error table is meant to render: exactly the input rows whose form
        does not validate. */
    function ErrorTableRows(): (r: seq<RawRow>)
      reads this
      requires Valid()
      ensures forall x :: x in r <==> x in rows && !RowFormIsValid(x, validators)
    {
      BucketMembers(rows, formIsValid, false);
      invalidRows
    }
  }

  /** A row as the gleaner builds it from a sheet row that prices a task rather than
      an hour: every field is present and only the unit of issue is out of place. */
  const TaskPricedRow: RawRow := map[
    Sin := "123-1",
    LaborCategory := "Consultant II",
    EducationLevel := "Bachelors",
    MinYearsExperience := "2",
    UnitOfIssue := "Task",
    PriceIncludingIff := "90.68"
  ]

  /** A price list whose one row prices a task, which the hourly-rates-only validator
      rejects: the row is invalid, yet the error table as written shows nothing, while
      the intended one shows that row. */
  lemma ErrorTableOmitsInvalidRow(pl: Region10PriceList)
    requires pl.Valid() && pl.rows == [TaskPricedRow]
    requires !pl.validators.hourlyRatesOnly("Task")
    ensures pl.ErrorTableRowsAsWritten() == []
    ensures pl.ErrorTableRows() == pl.rows
  {
    assert CharFieldValue("Task", pl.validators.stripsText) == "Task" by {
      assert Strip("Task") == "Task";
    }
    assert !pl.formIsValid(TaskPricedRow) by {
      assert !RowFormIsValid(TaskPricedRow, pl.validators);
    }
    assert pl.rows[..0] == [];
    assert Bucket(pl.rows, pl.formIsValid, true) == [];
    assert Bucket(pl.rows, pl.formIsValid, false) == pl.rows;
  }
}
