/** The UNESCO normaliser (pipelines/tidy_unesco.py): reads one raw table in
    one of three layouts and produces tidy rows. */
module TidyUnesco {
  import opened Wrappers
  import opened Seqs
  import opened Strings
  import opened Cells
  import opened Frames
  import opened Schema
  import opened Paths

  datatype FileKind = Excel | Csv

  datatype TidyError =
    | UnsupportedFileType(ext: string)
      /** pandas refuses to build a table whose every column is a scalar. */
    | AllScalarColumns
      /** The table already has a "value" column, which pandas refuses to
          melt into a new "value" column. */
    | ValueColumnExists
      /** The table has a "year" column, which the melt carries along beside
          its new "year" column; the coercion of "year" then refuses the
          two columns it finds. */
    | YearColumnDuplicated

  /** The suffixes `_read_any` accepts, compared after lower-casing. */
  const SUPPORTED: seq<string> := [".xls", ".xlsx", ".csv"]

  /** `_read_any`: which reader a path is opened with. */
  function ReadKind(path: string): (r: Result<FileKind, TidyError>)
    ensures r.Ok? <==> LowerAscii(Suffix(path)) in SUPPORTED
    ensures r.Err? ==> r.error == UnsupportedFileType(LowerAscii(Suffix(path)))
  {
    var ext := LowerAscii(Suffix(path));
    if ext == ".xls" || ext == ".xlsx" then Ok(Excel)
    else if ext == ".csv" then Ok(Csv)
    else Err(UnsupportedFileType(ext))
  }

  /** The reader is chosen case-insensitively: a path and its lower-cased
      form are read alike. */
  lemma ReadKindIgnoresCase(path: string)
    ensures ReadKind(LowerAscii(path)) == ReadKind(path)
  {
    SuffixLower(path);
    LowerAsciiIdempotent(Suffix(path));
  }

  /** A file `stem + ext` in any directory is read according to `ext`
      alone, whatever the letter case of `ext`. */
  lemma ReadKindOfFile(dir: string, stem: string, ext: string)
    requires '/' !in stem && '/' !in ext
    requires |stem| > 0 && |ext| >= 2 && ext[0] == '.' && '.' !in ext[1..]
    ensures ReadKind(Join(dir, stem + ext)).Ok? <==> LowerAscii(ext) in SUPPORTED
    ensures LowerAscii(ext) == ".xlsx" ==> ReadKind(Join(dir, stem + ext)) == Ok(Excel)
    ensures LowerAscii(ext) == ".csv" ==> ReadKind(Join(dir, stem + ext)) == Ok(Csv)
  {
    SuffixOfJoin(dir, stem, ext);
  }

  /** An upper-case suffix is accepted. */
  lemma ReadKindUpperCase(dir: string, stem: string)
    requires '/' !in stem && |stem| > 0
    ensures ReadKind(Join(dir, stem + ".XLSX")) == Ok(Excel)
  {
    assert LowerAscii(".XLSX") == ".xlsx";
    ReadKindOfFile(dir, stem, ".XLSX");
  }

  /** Any other file type is refused. */
  lemma ReadKindRefusesJson(dir: string, stem: string)
    requires '/' !in stem && |stem| > 0
    ensures ReadKind(Join(dir, stem + ".json")) == Err(UnsupportedFileType(".json"))
  {
    assert LowerAscii(".json") == ".json";
    SuffixOfJoin(dir, stem, ".json");
  }

  /** A name that is only ".csv" has no suffix, so it is refused too. */
  lemma ReadKindRefusesDotName()
    ensures ReadKind("raw/.csv") == Err(UnsupportedFileType(""))
  {
    NameOfJoin("raw", ".csv");
    assert "raw/.csv" == Join("raw", ".csv");
    LastIndexOfUnique(".csv", '.', 0);
    assert LowerAscii("") == "";
  }

  const GEO_AREA := "GeoAreaName"
  const COUNTRY_CANDIDATES: seq<string> := ["Country", "COUNTRY", "country", "Ref_Area", "LOCATION_NAME"]
  /** The list searched again in the melted table; it lacks "country". */
  const COUNTRY_CANDIDATES_LONG: seq<string> := ["Country", "COUNTRY", "Ref_Area", "LOCATION_NAME"]
  const ISO3_CANDIDATES: seq<string> := ["ISO3", "Code", "Country Code", "REF_AREA", "LOCATION"]
  const YEAR_CANDIDATES: seq<string> := ["Year", "Time", "TIME_PERIOD", "Year_Code"]
  const VALUE_CANDIDATES: seq<string> := ["Value", "OBS_VALUE", "Observation Value", "obs_value"]
  const UNIT_CANDIDATES: seq<string> := ["Units", "Unit"]

  /** Every label the normaliser looks up by name. */
  function Candidates(): seq<string> {
    [GEO_AREA] + COUNTRY_CANDIDATES + ISO3_CANDIDATES + YEAR_CANDIDATES
      + VALUE_CANDIDATES + UNIT_CANDIDATES
  }

  /** None of those labels is a year label or clashes with the columns the
      melt adds, so each of them survives a melt as an identifier column. */
  lemma CandidatesAreIdentifiers()
    ensures forall c :: c in Candidates() ==> !IsYearLabel(c) && c != "year" && c != "value"
  {
    assert !IsDigit("ISO3"[0]) && !IsDigit("Code"[0]) && !IsDigit("Year"[0]);
    assert !IsDigit("Time"[0]) && !IsDigit("Unit"[0]);
  }

  /** One long row: identifier cells, coerced year and coerced value. */
  datatype LongRow = LongRow(ids: seq<Cell>, year: Option<real>, value: Option<real>)

  /** A melted table: the identifier column labels and the long rows. Its
      columns are `idCols` followed by "year" and "value". */
  datatype LongTable = LongTable(idCols: seq<string>, rows: seq<LongRow>)

  predicate Consistent(long: LongTable) {
    forall r :: r in long.rows ==> |r.ids| == |long.idCols|
  }

  function LongColumns(long: LongTable): seq<string> {
    long.idCols + ["year", "value"]
  }

  /** The cell of long row `k` in identifier column `c`. */
  function LongAt(long: LongTable, k: nat, c: string): Cell
    requires Consistent(long) && k < |long.rows| && c in long.idCols
  {
    assert long.rows[k] in long.rows;
    long.rows[k].ids[Position(long.idCols, c)]
  }

  /** The columns whose label is a year, in table order. */
  function YearColumns(t: Table): seq<string> {
    Filter(t.columns, IsYearLabel)
  }

  /** The remaining columns, in table order. */
  function IdColumns(t: Table): seq<string> {
    Filter(t.columns, c => c !in YearColumns(t))
  }

  /** `_melt_years`: every year column is melted, every other column is
      carried along; year and value are coerced to numbers, never failing. */
  function MeltYears(t: Table): (long: LongTable)
    ensures long.idCols == IdColumns(t)
    ensures forall c :: c in long.idCols <==> c in t.columns && !IsYearLabel(c)
    ensures |long.rows| == |YearColumns(t)| * |t.rows|
    ensures Consistent(long)
  {
    var yc := YearColumns(t);
    var ic := IdColumns(t);
    var melted := Melt(t, ic, yc);
    LongTable(ic, seq(|melted|, k requires 0 <= k < |melted| =>
      LongRow(melted[k].ids, ParseNumber(melted[k].variable), ToNumeric(melted[k].value))))
  }

  /** Input row `i` under year column `j` is the melted row at `Offset(j, i, n)`:
      it carries the row's identifier cells, the year the label names, and
      the coerced cell. */
  lemma MeltYearsAt(t: Table, j: nat, i: nat)
    requires j < |YearColumns(t)| && i < |t.rows|
    ensures Offset(j, i, |t.rows|) < |MeltYears(t).rows|
    ensures MeltYears(t).rows[Offset(j, i, |t.rows|)]
            == LongRow(Project(t, i, IdColumns(t)),
                       Some(DigitsValue(YearColumns(t)[j]) as real),
                       ToNumeric(At(t, i, YearColumns(t)[j])))
  {
    MeltAt(t, IdColumns(t), YearColumns(t), j, i);
    YearLabelValue(YearColumns(t)[j]);
  }

  /** An identifier cell of a melted row is the cell of the row it came from. */
  lemma LongAtMelted(t: Table, j: nat, i: nat, c: string)
    requires j < |YearColumns(t)| && i < |t.rows|
    requires c in t.columns && !IsYearLabel(c)
    ensures Offset(j, i, |t.rows|) < |MeltYears(t).rows|
    ensures LongAt(MeltYears(t), Offset(j, i, |t.rows|), c) == At(t, i, c)
  {
    MeltYearsAt(t, j, i);
    var ic := IdColumns(t);
    assert ic[Position(ic, c)] == c;
  }

  /** Whether `_melt_years` fails on a table: it names its new columns
      "year" and "value", and a column of either name in the table makes it
      fail. */
  predicate MeltClashes(t: Table) {
    "value" in t.columns || "year" in t.columns
  }

  /** The failure of `_melt_years` on a table where it fails: the melt's
      own check of "value" comes before the coercion of "year". */
  function MeltError(t: Table): (e: TidyError)
    requires MeltClashes(t)
    ensures e == ValueColumnExists || e == YearColumnDuplicated
    ensures e == YearColumnDuplicated ==> "value" !in t.columns && "year" in t.columns
  {
    if "value" in t.columns then ValueColumnExists else YearColumnDuplicated
  }

  /** Which of the three layouts `tidy_unesco_file` handles a table as. */
  datatype Layout = GeoArea | WideYears | Flexible

  function LayoutOf(t: Table): Layout {
    if GEO_AREA in t.columns then GeoArea
    else if FirstColumn(t.columns, YEAR_CANDIDATES).None? && |YearColumns(t)| > 0 then WideYears
    else Flexible
  }

  /** The fixed columns of a UNESCO row around the four looked-up ones. */
  function UnescoRow(iso3: Cell, name: Cell, year: Option<real>, indicatorId: string,
                     value: Option<real>, unit: Cell): (r: TidyRow)
    ensures Stamped(r, indicatorId, "UNESCO")
  {
    TidyRow(iso3, name, year, indicatorId, value, unit, "UNESCO", Missing, Missing, false, Missing)
  }

  /** Case A, the SDG portal layout: melt the years, take the country name
      from "GeoAreaName", resolve it when a resolver is available, and take
      the unit from a "Units"/"Unit" column when there is one. */
  function GeoAreaRows(t: Table, indicatorId: string, unit: string, cc: Option<Resolver>): (rows: seq<TidyRow>)
    requires GEO_AREA in t.columns
    ensures |rows| == |YearColumns(t)| * |t.rows|
    ensures forall r :: r in rows ==> Stamped(r, indicatorId, "UNESCO")
  {
    CandidatesAreIdentifiers();
    var long := MeltYears(t);
    var unitCol := FirstColumn(LongColumns(long), UNIT_CANDIDATES);
    assert unitCol.Some? ==> unitCol.value in long.idCols;
    seq(|long.rows|, k requires 0 <= k < |long.rows| => GeoAreaRow(long, k, unitCol, indicatorId, unit, cc))
  }

  /** One row of case A, from melted row `k`. */
  function GeoAreaRow(long: LongTable, k: nat, unitCol: Option<string>, indicatorId: string, unit: string,
                      cc: Option<Resolver>): (r: TidyRow)
    requires Consistent(long) && k < |long.rows| && GEO_AREA in long.idCols
    requires unitCol.Some? ==> unitCol.value in long.idCols
    ensures Stamped(r, indicatorId, "UNESCO")
  {
    var name := LongAt(long, k, GEO_AREA);
    UnescoRow(
      if cc.Some? then ResolvedCell(cc.value, name) else Missing,
      name, long.rows[k].year, indicatorId, long.rows[k].value,
      if unitCol.Some? then LongAt(long, k, unitCol.value) else Str(unit))
  }

  /** Case B with wide years: melt the years; search the country again in
      the melted table when the first search found none; resolve the
      country when no code column exists. */
  function WideRows(t: Table, ctry0: Option<string>, iso30: Option<string>,
                    indicatorId: string, unit: string, cc: Option<Resolver>): (rows: seq<TidyRow>)
    requires ctry0.Some? ==> ctry0.value in t.columns && ctry0.value in COUNTRY_CANDIDATES
    requires iso30.Some? ==> iso30.value in t.columns && iso30.value in ISO3_CANDIDATES
    ensures |rows| == |YearColumns(t)| * |t.rows|
    ensures forall r :: r in rows ==> Stamped(r, indicatorId, "UNESCO") && r.unit == Str(unit)
  {
    var long := MeltYears(t);
    var ctry := WideCountry(t, ctry0);
    seq(|long.rows|, k requires 0 <= k < |long.rows| => WideRow(long, k, ctry, iso30, indicatorId, unit, cc))
  }

  /** The country column of the wide-years case: the one found in the input,
      or else the first of `COUNTRY_CANDIDATES_LONG` among the melted table's
      columns. */
  function WideCountry(t: Table, ctry0: Option<string>): (ctry: Option<string>)
    requires ctry0.Some? ==> ctry0.value in t.columns && ctry0.value in COUNTRY_CANDIDATES
    ensures ctry.Some? ==> ctry.value in MeltYears(t).idCols && ctry.value in t.columns
  {
    if ctry0.Some? then
      assert !IsYearLabel(ctry0.value);
      ctry0
    else
      var found := FirstColumn(LongColumns(MeltYears(t)), COUNTRY_CANDIDATES_LONG);
      assert found.Some? ==> found.value != "year" && found.value != "value";
      found
  }

  /** One row of the wide-years case, from melted row `k`. */
  function WideRow(long: LongTable, k: nat, ctry: Option<string>, iso3Col: Option<string>,
                   indicatorId: string, unit: string, cc: Option<Resolver>): (r: TidyRow)
    requires Consistent(long) && k < |long.rows|
    requires ctry.Some? ==> ctry.value in long.idCols
    ensures Stamped(r, indicatorId, "UNESCO") && r.unit == Str(unit)
  {
    var iso3 :=
      if iso3Col.None? && cc.Some? && ctry.Some? then ResolvedCell(cc.value, LongAt(long, k, ctry.value))
      else if iso3Col.Some? && iso3Col.value in long.idCols then LongAt(long, k, iso3Col.value)
      else Missing;
    UnescoRow(
      iso3,
      if ctry.Some? then LongAt(long, k, ctry.value) else Missing,
      long.rows[k].year, indicatorId, long.rows[k].value, Str(unit))
  }

  /** The fallback: one row per input row, each looked-up column copied (year
      and value coerced), each column not found left missing. With no column
      found at all pandas has no row index to build the table from. */
  function FlexibleRows(t: Table, ctry: Option<string>, iso3: Option<string>, year: Option<string>,
                        val: Option<string>, indicatorId: string, unit: string)
    : (r: Result<seq<TidyRow>, TidyError>)
    requires ctry.Some? ==> ctry.value in t.columns
    requires iso3.Some? ==> iso3.value in t.columns
    requires year.Some? ==> year.value in t.columns
    requires val.Some? ==> val.value in t.columns
    ensures r.Err? <==> ctry.None? && iso3.None? && year.None? && val.None?
    ensures r.Err? ==> r.error == AllScalarColumns
    ensures r.Ok? ==> |r.value| == |t.rows|
    ensures r.Ok? ==> forall row :: row in r.value ==> Stamped(row, indicatorId, "UNESCO") && row.unit == Str(unit)
  {
    if ctry.None? && iso3.None? && year.None? && val.None? then Err(AllScalarColumns)
    else
      Ok(seq(|t.rows|, i requires 0 <= i < |t.rows| =>
        UnescoRow(
          if iso3.Some? then At(t, i, iso3.value) else Missing,
          if ctry.Some? then At(t, i, ctry.value) else Missing,
          if year.Some? then ToNumeric(At(t, i, year.value)) else None,
          indicatorId,
          if val.Some? then ToNumeric(At(t, i, val.value)) else None,
          Str(unit))))
  }

  /** No candidate column of case B is present. */
  predicate NoCandidateFound(t: Table) {
    && FirstColumn(t.columns, COUNTRY_CANDIDATES).None?
    && FirstColumn(t.columns, ISO3_CANDIDATES).None?
    && FirstColumn(t.columns, YEAR_CANDIDATES).None?
    && FirstColumn(t.columns, VALUE_CANDIDATES).None?
  }

  /** `tidy_unesco_file` after the file is read: dispatch on the layout. */
  function TidyFrame(t: Table, indicatorId: string, unit: string, cc: Option<Resolver>)
    : (r: Result<seq<TidyRow>, TidyError>)
    ensures r.Err? <==> if LayoutOf(t) == Flexible then NoCandidateFound(t) else MeltClashes(t)
    ensures r.Err? && LayoutOf(t) == Flexible ==> r.error == AllScalarColumns
    ensures r.Err? && LayoutOf(t) != Flexible ==> r.error == MeltError(t)
    ensures r.Ok? ==> forall row :: row in r.value ==> Stamped(row, indicatorId, "UNESCO")
    ensures r.Ok? && LayoutOf(t) != Flexible ==> |r.value| == |YearColumns(t)| * |t.rows|
    ensures r.Ok? && LayoutOf(t) == Flexible ==> |r.value| == |t.rows|
  {
    if GEO_AREA in t.columns then
      if MeltClashes(t) then Err(MeltError(t)) else Ok(GeoAreaRows(t, indicatorId, unit, cc))
    else
      var ctry := FirstColumn(t.columns, COUNTRY_CANDIDATES);
      var iso3 := FirstColumn(t.columns, ISO3_CANDIDATES);
      var year := FirstColumn(t.columns, YEAR_CANDIDATES);
      var val := FirstColumn(t.columns, VALUE_CANDIDATES);
      if year.None? && |YearColumns(t)| > 0 then
        if MeltClashes(t) then Err(MeltError(t)) else Ok(WideRows(t, ctry, iso3, indicatorId, unit, cc))
      else FlexibleRows(t, ctry, iso3, year, val, indicatorId, unit)
  }

  /** `tidy_unesco_file`: choose the reader from the suffix, read, normalise.
      `read` stands for the file's contents as that reader delivers them. */
  function TidyUnescoFile(path: string, read: FileKind -> Table, indicatorId: string, unit: string,
                          cc: Option<Resolver>): (r: Result<seq<TidyRow>, TidyError>)
    ensures r.Ok? ==> LowerAscii(Suffix(path)) in SUPPORTED
    ensures LowerAscii(Suffix(path)) !in SUPPORTED ==> r == Err(UnsupportedFileType(LowerAscii(Suffix(path))))
    ensures r.Ok? ==> forall row :: row in r.value ==> Stamped(row, indicatorId, "UNESCO")
  {
    var kind :- ReadKind(path);
    TidyFrame(read(kind), indicatorId, unit, cc)
  }

  /** The search of the melted table never finds a country column that the
      first search missed: its candidates are a subset of the first list and
      the melt adds only "year" and "value". */
  lemma RecomputedCountryFindsNothingNew(t: Table)
    requires FirstColumn(t.columns, COUNTRY_CANDIDATES).None?
    ensures WideCountry(t, None) == None
  {
    var cols := LongColumns(MeltYears(t));
    forall o | o in COUNTRY_CANDIDATES_LONG
      ensures o !in cols
    {
      assert o in COUNTRY_CANDIDATES;
    }
  }

  /** Case A's row for input row `i` under year column `j`: the country
      name is the "GeoAreaName" cell, the code is that name resolved
      (missing without a resolver), the year is the label's year, the value
      is the coerced cell, and the unit comes from a "Units"/"Unit" column
      when there is one and from `unit` otherwise. */
  function GeoAreaRowOf(t: Table, indicatorId: string, unit: string, cc: Option<Resolver>, j: nat, i: nat): TidyRow
    requires GEO_AREA in t.columns
    requires j < |YearColumns(t)| && i < |t.rows|
  {
    UnescoRow(
      if cc.Some? then ResolvedCell(cc.value, At(t, i, GEO_AREA)) else Missing,
      At(t, i, GEO_AREA),
      Some(DigitsValue(YearColumns(t)[j]) as real),
      indicatorId,
      ToNumeric(At(t, i, YearColumns(t)[j])),
      match FirstColumn(t.columns, UNIT_CANDIDATES)
      case Some(u) => At(t, i, u)
      case None => Str(unit))
  }

  /** The melted rows of case A are the rows `GeoAreaRowOf` describes. */
  lemma GeoAreaRowAt(t: Table, indicatorId: string, unit: string, cc: Option<Resolver>, j: nat, i: nat)
    requires GEO_AREA in t.columns
    requires j < |YearColumns(t)| && i < |t.rows|
    ensures Offset(j, i, |t.rows|) < |GeoAreaRows(t, indicatorId, unit, cc)|
    ensures GeoAreaRows(t, indicatorId, unit, cc)[Offset(j, i, |t.rows|)] == GeoAreaRowOf(t, indicatorId, unit, cc, j, i)
  {
    CandidatesAreIdentifiers();
    var long := MeltYears(t);
    var k := Offset(j, i, |t.rows|);
    MeltYearsAt(t, j, i);
    FirstColumnOnlyCandidatesMatter(LongColumns(long), t.columns, UNIT_CANDIDATES);
    var unitCol := FirstColumn(t.columns, UNIT_CANDIDATES);
    assert FirstColumn(LongColumns(long), UNIT_CANDIDATES) == unitCol;
    assert GeoAreaRows(t, indicatorId, unit, cc)[k] == GeoAreaRow(long, k, unitCol, indicatorId, unit, cc);
    LongAtMelted(t, j, i, GEO_AREA);
    if unitCol.Some? {
      LongAtMelted(t, j, i, unitCol.value);
    }
  }

  /** Case A, row by row: a table with "GeoAreaName" and no clashing column
      is tidied into the rows `GeoAreaRowOf` describes. */
  lemma GeoAreaRowsAt(t: Table, indicatorId: string, unit: string, cc: Option<Resolver>, j: nat, i: nat)
    requires GEO_AREA in t.columns && !MeltClashes(t)
    requires j < |YearColumns(t)| && i < |t.rows|
    ensures TidyFrame(t, indicatorId, unit, cc).Ok?
    ensures Offset(j, i, |t.rows|) < |TidyFrame(t, indicatorId, unit, cc).value|
    ensures TidyFrame(t, indicatorId, unit, cc).value[Offset(j, i, |t.rows|)] == GeoAreaRowOf(t, indicatorId, unit, cc, j, i)
  {
    assert TidyFrame(t, indicatorId, unit, cc) == Ok(GeoAreaRows(t, indicatorId, unit, cc));
    GeoAreaRowAt(t, indicatorId, unit, cc, j, i);
  }

  /** Case B with wide years, row by row: the year and value come from the
      melt, the country name from the first country column (missing when
      there is none), the code from the first code column or else from
      resolving the country, and the unit from `unit`. */
  lemma WideYearsRowsAt(t: Table, indicatorId: string, unit: string, cc: Option<Resolver>, j: nat, i: nat)
    requires LayoutOf(t) == WideYears && !MeltClashes(t)
    requires j < |YearColumns(t)| && i < |t.rows|
    ensures TidyFrame(t, indicatorId, unit, cc).Ok?
    ensures Offset(j, i, |t.rows|) < |TidyFrame(t, indicatorId, unit, cc).value|
    ensures
      var row := TidyFrame(t, indicatorId, unit, cc).value[Offset(j, i, |t.rows|)];
      var ctry := FirstColumn(t.columns, COUNTRY_CANDIDATES);
      var iso3 := FirstColumn(t.columns, ISO3_CANDIDATES);
      var name := if ctry.Some? then At(t, i, ctry.value) else Missing;
      && row.year == Some(DigitsValue(YearColumns(t)[j]) as real)
      && row.value == ToNumeric(At(t, i, YearColumns(t)[j]))
      && row.name == name
      && row.iso3 == (if iso3.Some? then At(t, i, iso3.value)
                      else if cc.Some? && ctry.Some? then ResolvedCell(cc.value, name)
                      else Missing)
      && row.unit == Str(unit)
      && Stamped(row, indicatorId, "UNESCO")
  {
    CandidatesAreIdentifiers();
    var ctry := FirstColumn(t.columns, COUNTRY_CANDIDATES);
    var iso3 := FirstColumn(t.columns, ISO3_CANDIDATES);
    var k := Offset(j, i, |t.rows|);
    var long := MeltYears(t);
    MeltYearsAt(t, j, i);
    assert TidyFrame(t, indicatorId, unit, cc) == Ok(WideRows(t, ctry, iso3, indicatorId, unit, cc));
    assert WideRows(t, ctry, iso3, indicatorId, unit, cc)[k]
        == WideRow(long, k, WideCountry(t, ctry), iso3, indicatorId, unit, cc);
    if ctry.None? {
      RecomputedCountryFindsNothingNew(t);
    } else {
      LongAtMelted(t, j, i, ctry.value);
    }
    if iso3.Some? {
      LongAtMelted(t, j, i, iso3.value);
    }
  }

  /** The fallback, row by row: each field is the first matching column's
      cell (year and value coerced), and a field whose column was not found
      is missing in every row. */
  lemma FlexibleRowsAt(t: Table, indicatorId: string, unit: string, cc: Option<Resolver>, i: nat)
    requires LayoutOf(t) == Flexible && !NoCandidateFound(t)
    requires i < |t.rows|
    ensures TidyFrame(t, indicatorId, unit, cc).Ok?
    ensures |TidyFrame(t, indicatorId, unit, cc).value| == |t.rows|
    ensures
      var row := TidyFrame(t, indicatorId, unit, cc).value[i];
      var ctry := FirstColumn(t.columns, COUNTRY_CANDIDATES);
      var iso3 := FirstColumn(t.columns, ISO3_CANDIDATES);
      var year := FirstColumn(t.columns, YEAR_CANDIDATES);
      var val := FirstColumn(t.columns, VALUE_CANDIDATES);
      && row.iso3 == (if iso3.Some? then At(t, i, iso3.value) else Missing)
      && row.name == (if ctry.Some? then At(t, i, ctry.value) else Missing)
      && row.year == (if year.Some? then ToNumeric(At(t, i, year.value)) else None)
      && row.value == (if val.Some? then ToNumeric(At(t, i, val.value)) else None)
      && row.unit == Str(unit)
  {
  }
}
