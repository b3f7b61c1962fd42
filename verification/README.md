# Region 10 price-list ingestion, modelled in Dafny

This project models the Region 10 schedule of a price-list ingestion service. The
service reads a vendor's spreadsheet and builds one labor-category record per data row.
It then sorts those records into valid and invalid rows. The model has two parts:

- **The gleaner** (`glean_labor_categories_from_book`). It rejects a workbook without the
  requested sheet. It resolves field columns from the heading row. Then it scans the rows
  from row 1 on and builds a field-to-text dict for each row, running each field through
  its coercer. It stops at the first row whose SIN and coerced price (including the
  Industrial Funding Fee) are both blank after whitespace stripping.
- **The price list** (`Region10PriceList`). Its constructor runs each gleaned row
  through the `Region10PriceListRow` form. It appends the row to `valid_rows` or
  `invalid_rows`, keeping input order.

Files:

- `pystr.dfy`, module `PyStr`: Python's `str.isspace`, `str.strip` and the
  `not s.strip()` test, with lemmas saying what stripping keeps and drops.
- `region_10.dfy`, module `Region10`:
  - the constants: default sheet name, example sheet, field-title map, coercion map;
  - the gleaner, as a specification function (`GleanFrom`, `Glean`) and as an imperative
    method with loop invariants (`GleanLaborCategoriesFromBook`, `ReadCategory`);
  - row-form validity (`RowFormIsValid`);
  - the partition (`Bucket`) with its lemmas;
  - the `Region10PriceList` class.

Collaborators whose code is not part of this model are function-valued parameters:

- `CellReader` stands for `safe_cell_str_value(sheet, row, col, coercer=…)`. It is told
  which coercer to apply, and the coercers are named by the `Coercer` datatype.
- `ColumnMapper` stands for `generate_column_index_map`. A `Failure` result stands for
  any exception it raises.
- `RowValidators` holds Django's integer and decimal field parsing,
  `hourly_rates_only_validator` and `min_price_validator`. Its `stripsText` flag says
  whether `forms.CharField` strips its input: Django 1.9 and later do, and Django 1.8
  and earlier pass the text on as given. The version the service runs on is not
  part of this model, so both behaviours are modelled.

The source's scan loop is `while True` and has no bound. The model bounds it with the
precondition `ReadsBlankPastEnd`: at or past the last row of the sheet, the two reads the
end-of-data test makes yield blank text, whatever the column. These are the raw read and
the `strip_non_numeric` read. That is the contract the cell reader is expected to keep. It is an assumption about code outside this model, and every member that scans
requires it.

## Model

| member | source | states |
|---|---|---|
| PyStr.StripLeading | data_capture/schedules/region_10.py:106 | the left-stripped text is never longer than the input |
| PyStr.StripTrailing | data_capture/schedules/region_10.py:106 | the right-stripped text is never longer than the input |
| PyStr.Strip | data_capture/schedules/region_10.py:106 | `s.strip()` is `rstrip` applied to `lstrip`, over the same whitespace set; the result is never longer than the input |
| PyStr.StripLeadingDropsLeadingSpace | data_capture/schedules/region_10.py:106 | `lstrip` returns the suffix left after the leading whitespace; everything dropped is whitespace and the result does not start with whitespace |
| PyStr.StripTrailingDropsTrailingSpace | data_capture/schedules/region_10.py:106 | `rstrip` returns the prefix left before the trailing whitespace; everything dropped is whitespace and the result does not end with whitespace |
| PyStr.StripIsTrimmedRun | data_capture/schedules/region_10.py:106 | `strip` returns the run of the input between its leading and trailing whitespace; what lies around it is whitespace and its two ends are not |
| PyStr.StripIsIdempotent | data_capture/schedules/region_10.py:106 | stripping an already stripped string changes nothing |
| PyStr.StripEmptyIffBlank | data_capture/schedules/region_10.py:106 | `not s.strip()` holds exactly when every character of `s` is whitespace |
| PyStr.StripsToEmpty | data_capture/schedules/region_10.py:106 | the blank test the stop condition applies returns true iff the text is all whitespace |
| Region10.ExampleHeadingHasEveryTitle | data_capture/schedules/region_10.py:17-62 | every field has a heading title; the titles are pairwise distinct; each occurs in the heading row of the example sheet |
| Region10.CoercerFor | data_capture/schedules/region_10.py:89-112 | `coercion_map.get(field, None)` over the four-entry coercion map: exactly `sin` and `labor_category` are read without a coercer, and the price is read through `strip_non_numeric`, the coercer the stop test uses |
| Region10.IsEndRow | data_capture/schedules/region_10.py:99-107 | the stop test: the row's raw `sin` and its `strip_non_numeric` price are both blank after stripping; under the reader assumption, every row at or past the end of the sheet is an end row, so the scan stops |
| Region10.ReadRow | data_capture/schedules/region_10.py:109-113 | the dict `cat` of one row: one entry per mapped field, read through `coercion_map.get(field)`; its `sin` and price entries are the very reads the stop test made |
| Region10.GleanFrom | data_capture/schedules/region_10.py:97-117 | a scan that starts inside the sheet emits rows only from within the sheet |
| Region10.GleanFromIsScan | data_capture/schedules/region_10.py:97-117 | entry k of the result is the dict of sheet row `start + k`, which is not an end row; row `start + length` is an end row |
| Region10.ScanIsGleanFrom | data_capture/schedules/region_10.py:97-117 | conversely, any sequence with those properties is the gleaner's result, so the scan is fully determined by where it starts |
| Region10.GleanIgnoresRowsPastEnd | data_capture/schedules/region_10.py:97-107 | rows after the first end row are never read: two readers that agree up to and including the end row give the same result |
| Region10.GleanedRowsNotBlank | data_capture/schedules/region_10.py:100-115 | every returned dict has exactly the mapped fields, and its `sin` or its coerced `price_including_iff` is not blank |
| Region10.Glean | data_capture/schedules/region_10.py:70-119 | the gleaner as a value, with `sheet_name` defaulting to `"Service Pricing"`: a missing sheet gives the missing-sheet error; it succeeds iff the sheet exists, has a heading row, the columns resolve, and `sin` and price are mapped; a success is the scan from row 1 (the heading row is never emitted), and it ends before the sheet does |
| Region10.ReadCategory | data_capture/schedules/region_10.py:109-113 | the dict has exactly one entry per mapped field, holding that column's cell read through the field's coercer if it has one and raw otherwise |
| Region10.GleanLaborCategoriesFromBook | data_capture/schedules/region_10.py:70-119 | `sheetName` defaults to `"Service Pricing"`; fails with the missing-sheet error when the sheet is absent; on success the k-th dict comes from sheet row k+1, none of the emitted rows is an end row, and the row after the last emitted one is; the result equals `Glean` |
| Region10.RowFormIsValid | data_capture/schedules/region_10.py:122-140 | `Region10PriceListRow(row).is_valid()`: the four required `CharField`s are present and not empty after cleaning, stripped iff `stripsText`; `unit_of_issue` passes `hourly_rates_only_validator` after the same cleaning; `min_years_experience` parses as an integer; `price_including_iff` parses as a decimal and passes `min_price_validator` (parsing and validators are parameters); a row that validates holds exactly the six fields |
| Region10.ValidRowHasEveryField | data_capture/schedules/region_10.py:122-140 | a row whose form validates has a value for every field; its required text fields (`sin`, `labor_category`, `education_level`, `unit_of_issue`) are not empty, and not blank either when `CharField` strips text |
| Region10.Bucket | data_capture/schedules/region_10.py:159-164 | the rows the loop appends to one of the two lists, in input order: never more rows than the input, and each of them of that list's form verdict |
| Region10.BucketMembers | data_capture/schedules/region_10.py:159-164 | a row is in the valid (invalid) bucket iff it is an input row and its form does (does not) validate |
| Region10.BucketsPartition | data_capture/schedules/region_10.py:159-164 | the two buckets' lengths add up to the input's, and together they hold every input row exactly as often as the input does |
| Region10.BucketKeepsOrder | data_capture/schedules/region_10.py:159-164 | each bucket is the input read at strictly ascending positions, and those positions are exactly the rows of that validity |
| Region10.BucketConcat | data_capture/schedules/region_10.py:159-164 | sorting a concatenation gives the concatenation of the sorted parts, so appending rows only appends to the buckets |
| Region10.Region10PriceList.constructor | data_capture/schedules/region_10.py:156-164 | keeps the input rows and fills `validRows` and `invalidRows` with the valid and invalid buckets, in one pass, in input order |
| Region10.Region10PriceList.TableRows | data_capture/schedules/region_10.py:166-168 | the rows handed to the table are exactly the input rows whose form validates |
| Region10.Region10PriceList.ErrorTableRowsAsWritten | data_capture/schedules/region_10.py:170-172 | as written, the error table is handed only rows whose form validates |
| Region10.Region10PriceList.ErrorTableRows | data_capture/schedules/region_10.py:170-172 | the rows an error table should get: exactly the input rows whose form does not validate |
| Region10.ErrorTableOmitsInvalidRow | data_capture/schedules/region_10.py:170-172 | for a price list whose one row is shaped like a gleaned row but prices a `"Task"`, which the hourly-rates-only validator rejects, the error table as written is empty, while the corrected one holds that row |

## Left out

- `glean_labor_categories_from_file` and the xlrd workbook parsing: file I/O through a
  foreign library. A workbook is modelled as a map from sheet name to rows of cell text.
- The bodies of `safe_cell_str_value`, `generate_column_index_map`, `strip_non_numeric`,
  `extract_min_education`, `extract_hour_unit_of_issue`, `hourly_rates_only_validator` and
  `min_price_validator` are not part of this model. They are parameters, and nothing is
  assumed of them beyond `ReadsBlankPastEnd`.
- Coercer results are modelled as text. The `int` coercer's integer value and any
  exception a coercer raises are not modelled separately.
- Django's form machinery behind `Region10PriceListRow.is_valid()` is reduced to
  `RowFormIsValid`: required text fields present and not empty once cleaned (stripped
  or not, as `stripsText` says), plus the parameters for integer and decimal parsing and for the two validators. The form's
  cleaned data and error messages are not modelled. The valid and invalid lists hold
  each row's input dict rather than the form object built from it.
- `BasePriceList.__init__` is not part of this model. It is taken to start
  `valid_rows` and `invalid_rows` empty.
- `to_table` and `to_error_table`: the template rendering through `render_to_string` is
  left out. Only the choice of rows handed to the template is modelled.
- Python's `dict` iteration order: the inner loop fills the row dict in an arbitrary key
  order. The resulting dict is the same in every order.
- GleanLaborCategoriesFromBook: does not model an unbounded scan of a sheet whose reads
  past its end are not blank. The `ReadsBlankPastEnd` precondition rules that case out.
- The Django test-client tests (security headers, health check, robots, authentication
  redirects, environment loading) and the front-end module entry point: web and
  configuration plumbing with no logic to model.

## Findings

| source | as written | input that shows it | evidently intended | confidence | as-written member | corrected member |
|---|---|---|---|---|---|---|
| data_capture/schedules/region_10.py:170-172 | `to_error_table` renders `self.valid_rows`, the same rows as `to_table` | a price list whose only row has every field but `unit_of_issue` `"Task"`, which the hourly-rates-only validator rejects: the error table shows no rows | render `self.invalid_rows`, the rows that failed validation | medium, not executed | Region10.Region10PriceList.ErrorTableRowsAsWritten (shown by Region10.ErrorTableOmitsInvalidRow) | Region10.Region10PriceList.ErrorTableRows |
