/** The World Bank normaliser and the raw-file lookup of pipelines/harmonize.py. */
module Harmonize {
  import opened Wrappers
  import opened Seqs
  import opened Strings
  import opened Cells
  import opened Frames
  import opened Schema
  import opened Paths
  import TidyUnesco

  datatype WbError =
      /** No archive member is an "API_*.csv" file (the `[0]` of an empty list). */
    | NoApiMember
      /** An identifier column of the melt is absent from the table. */
    | MissingIdColumn(column: string)
      /** The table already has a column named like melt's value column,
          which pandas refuses to melt. */
    | ValueColumnExists

  /** The archive member holding the data. */
  predicate IsApiCsv(member: string) {
    EndsWith(member, ".csv") && StartsWith(member, "API_")
  }

  /** The first archive member, in archive order, that is an "API_*.csv". */
  function SelectApiMember(names: seq<string>): (r: Result<string, WbError>)
    ensures r.Ok? ==> exists pos :: 0 <= pos < |names| && names[pos] == r.value && IsApiCsv(r.value)
                        && forall k :: 0 <= k < pos ==> !IsApiCsv(names[k])
    ensures r.Err? <==> forall n :: n in names ==> !IsApiCsv(n)
    ensures r.Err? ==> r.error == NoApiMember
  {
    var matching := Filter(names, IsApiCsv);
    if |matching| == 0 then Err(NoApiMember)
    else
      FilterHead(names, IsApiCsv);
      assert matching[0] in matching;
      Ok(matching[0])
  }

  const COUNTRY_NAME := "Country Name"
  const COUNTRY_CODE := "Country Code"
  /** The name `tidy_wb_zip` gives the melted values. */
  const VALUE := "value"

  /** Every column other than the two identifier columns is melted. */
  function ValueColumns(t: Table): seq<string> {
    Filter(t.columns, c => c != COUNTRY_NAME && c != COUNTRY_CODE)
  }

  /** A value cell: the literal ".." is missing, anything else is coerced. */
  function WbValue(c: Cell): (v: Option<real>)
    ensures c == Str("..") ==> v == None
  {
    if c == Str("..") then None else ToNumeric(c)
  }

  /** One row of the World Bank output, from one melted row. */
  function WbRow(m: MeltRow, indicatorId: string, unit: string): (r: TidyRow)
    requires |m.ids| == 2
    ensures Stamped(r, indicatorId, "WorldBank")
  {
    TidyRow(m.ids[1], m.ids[0], ParseNumber(m.variable), indicatorId, WbValue(m.value),
            Str(unit), "WorldBank", Missing, Missing, false, Missing)
  }

  /** The reshape of `tidy_wb_zip` after the member is read: melt everything
      but "Country Name"/"Country Code", coerce the column label to a year,
      turn ".." and other non-numbers into missing values, and stamp. */
  function TidyWbFrame(t: Table, indicatorId: string, unit: string): (r: Result<seq<TidyRow>, WbError>)
    ensures r.Err? <==> VALUE in t.columns || COUNTRY_NAME !in t.columns || COUNTRY_CODE !in t.columns
    ensures VALUE in t.columns ==> r == Err(ValueColumnExists)
    ensures r.Ok? ==> |r.value| == |ValueColumns(t)| * |t.rows|
    ensures r.Ok? ==> forall row :: row in r.value ==> Stamped(row, indicatorId, "WorldBank") && row.unit == Str(unit)
  {
    if VALUE in t.columns then Err(ValueColumnExists)
    else if COUNTRY_NAME !in t.columns then Err(MissingIdColumn(COUNTRY_NAME))
    else if COUNTRY_CODE !in t.columns then Err(MissingIdColumn(COUNTRY_CODE))
    else
      var melted := Melt(t, [COUNTRY_NAME, COUNTRY_CODE], ValueColumns(t));
      Ok(seq(|melted|, k requires 0 <= k < |melted| =>
        assert melted[k] in melted;
        WbRow(melted[k], indicatorId, unit)))
  }

  /** Row by row: input row `i` under the `j`-th melted column carries the
      row's code and name, the column label coerced to a year, and the cell
      with ".." and other non-numbers as missing. */
  lemma TidyWbFrameAt(t: Table, indicatorId: string, unit: string, j: nat, i: nat)
    requires VALUE !in t.columns && COUNTRY_NAME in t.columns && COUNTRY_CODE in t.columns
    requires j < |ValueColumns(t)| && i < |t.rows|
    ensures TidyWbFrame(t, indicatorId, unit).Ok?
    ensures Offset(j, i, |t.rows|) < |TidyWbFrame(t, indicatorId, unit).value|
    ensures TidyWbFrame(t, indicatorId, unit).value[Offset(j, i, |t.rows|)]
            == TidyRow(At(t, i, COUNTRY_CODE), At(t, i, COUNTRY_NAME), ParseNumber(ValueColumns(t)[j]),
                       indicatorId,
                       if At(t, i, ValueColumns(t)[j]) == Str("..") then None
                       else ToNumeric(At(t, i, ValueColumns(t)[j])),
                       Str(unit), "WorldBank", Missing, Missing, false, Missing)
  {
    MeltAt(t, [COUNTRY_NAME, COUNTRY_CODE], ValueColumns(t), j, i);
  }

  /** A melted column whose label is not a number, such as "Indicator Name",
      gives rows with a missing year. */
  lemma TextLabelsGiveMissingYears(t: Table, indicatorId: string, unit: string, j: nat, i: nat, p: nat)
    requires VALUE !in t.columns && COUNTRY_NAME in t.columns && COUNTRY_CODE in t.columns
    requires j < |ValueColumns(t)| && i < |t.rows|
    requires p < |ValueColumns(t)[j]| && !NumberChar(ValueColumns(t)[j][p])
    ensures TidyWbFrame(t, indicatorId, unit).Ok?
    ensures Offset(j, i, |t.rows|) < |TidyWbFrame(t, indicatorId, unit).value|
    ensures TidyWbFrame(t, indicatorId, unit).value[Offset(j, i, |t.rows|)].year == None
  {
    TidyWbFrameAt(t, indicatorId, unit, j, i);
    NonNumericTextIsMissing(ValueColumns(t)[j], p);
  }

  /** `tidy_wb_zip`: pick the member, read it, reshape it. `read` stands for
      the member's contents as the CSV reader delivers them. */
  function TidyWbZip(names: seq<string>, read: string -> Table, indicatorId: string, unit: string)
    : (r: Result<seq<TidyRow>, WbError>)
    ensures (forall n :: n in names ==> !IsApiCsv(n)) ==> r == Err(NoApiMember)
    ensures r.Ok? ==> forall row :: row in r.value ==> Stamped(row, indicatorId, "WorldBank")
  {
    var member :- SelectApiMember(names);
    TidyWbFrame(read(member), indicatorId, unit)
  }

  /** The extensions `_first_existing` tries, in order. */
  const EXTENSIONS: seq<string> := [".xlsx", ".xls", ".csv"]

  /** The candidate paths for a stem, in the order they are tried. */
  function Candidates(dir: string, stem: string): seq<string> {
    seq(|EXTENSIONS|, k requires 0 <= k < |EXTENSIONS| => Join(dir, stem + EXTENSIONS[k]))
  }

  /** `_first_existing`: the first candidate that `isFile` reports present. */
  function FirstExisting(dir: string, stem: string, isFile: string -> bool): (r: Option<string>)
    ensures r.Some? ==> isFile(r.value)
    ensures r.Some? ==> exists k :: 0 <= k < |EXTENSIONS| && r.value == Join(dir, stem + EXTENSIONS[k])
                          && forall j :: 0 <= j < k ==> !isFile(Join(dir, stem + EXTENSIONS[j]))
    ensures r.None? <==> forall k :: 0 <= k < |EXTENSIONS| ==> !isFile(Join(dir, stem + EXTENSIONS[k]))
  {
    var cs := Candidates(dir, stem);
    var present := Filter(cs, isFile);
    if |present| == 0 then
      assert forall k :: 0 <= k < |EXTENSIONS| ==> !isFile(Join(dir, stem + EXTENSIONS[k])) by {
        forall k | 0 <= k < |EXTENSIONS| ensures !isFile(Join(dir, stem + EXTENSIONS[k])) {
          assert cs[k] == Join(dir, stem + EXTENSIONS[k]);
          assert cs[k] in cs;
          assert cs[k] !in present;
        }
      }
      None
    else
      FilterHead(cs, isFile);
      assert present[0] in present;
      Some(present[0])
  }

  /** Whatever `_first_existing` returns is a file the UNESCO reader accepts,
      provided the stem is a plain non-empty file name. */
  lemma FirstExistingIsReadable(dir: string, stem: string, isFile: string -> bool)
    requires |stem| > 0 && '/' !in stem
    requires FirstExisting(dir, stem, isFile).Some?
    ensures TidyUnesco.ReadKind(FirstExisting(dir, stem, isFile).value).Ok?
  {
    var k :| 0 <= k < |EXTENSIONS| && FirstExisting(dir, stem, isFile).value == Join(dir, stem + EXTENSIONS[k]);
    var ext := EXTENSIONS[k];
    assert LowerAscii(".xlsx") == ".xlsx" && LowerAscii(".xls") == ".xls" && LowerAscii(".csv") == ".csv";
    TidyUnesco.ReadKindOfFile(dir, stem, ext);
  }
}
