/** The coverage report of pipelines/check_coverage.py: for every
    (country code, country name, year) of the interim store, which indicators
    have a value, how many do, and the rows ordered by year and then by that
    count, both descending. */
module CheckCoverage {
  import opened Wrappers
  import opened Seqs
  import opened Cells
  import opened Schema
  import ExportTableau

  /** The indicators whose interim files are read, in this order. */
  const INDICATOR_IDS: seq<string> := [
    "SE.PRM.CMPT.ZS",
    "SDG_4.1.1_read",
    "SDG_4.2.2",
    "SDG_4.5.1_GPI_SEC",
    "SDG_4.a.1_elec",
    "SDG_4.c.1_prim"
  ]

  /** The report reads the same files, in the same order, as the exports. */
  lemma IndicatorListsAgree()
    ensures |INDICATOR_IDS| == |ExportTableau.INDICATORS|
    ensures forall i :: 0 <= i < |INDICATOR_IDS| ==> INDICATOR_IDS[i] == ExportTableau.INDICATORS[i].id
  {
  }

  datatype CoverageError =
      /** No interim file exists: the script stops with a message. */
    | NoInterimFiles

  /** A row of the report's index. The grouping drops rows whose code, name
      or year is null, so every key has all three. */
  datatype Key = Key(iso3: Cell, name: Cell, year: real)

  /** A row of the concatenated table reduced to the grouping columns and
      `has_value = value.notna()`. */
  datatype Obs = Obs(key: Key, indicator: string, hasValue: bool)

  /** The observation a tidy row contributes, or `None` when one of its key
      columns is null and the grouping drops it. */
  function ObsOf(r: TidyRow): Option<Obs> {
    if r.iso3 == Missing || r.name == Missing || r.year.None? then None
    else Some(Obs(Key(r.iso3, r.name, r.year.value), r.indicatorId, r.value.Some?))
  }

  /** A tidy row of an existing interim file that yields observation `o`. */
  predicate ObservedAs(interim: Interim, id: string, x: TidyRow, o: Obs) {
    && id in INDICATOR_IDS
    && interim(id).Some?
    && x in interim(id).value
    && ObsOf(x) == Some(o)
  }

  /** The observations of the `i`-th interim file, none when it is missing. */
  function FileObs(interim: Interim, i: nat): (obs: seq<Obs>)
    requires i < |INDICATOR_IDS|
    ensures forall o :: o in obs <==> exists x :: ObservedAs(interim, INDICATOR_IDS[i], x, o)
  {
    if interim(INDICATOR_IDS[i]).Some? then
      var rows := interim(INDICATOR_IDS[i]).value;
      var obs := FilterMap(rows, ObsOf);
      assert forall o :: o in obs <==> exists x :: ObservedAs(interim, INDICATOR_IDS[i], x, o) by {
        assert INDICATOR_IDS[i] in INDICATOR_IDS;
        forall o
          ensures o in obs <==> exists x :: ObservedAs(interim, INDICATOR_IDS[i], x, o)
        {
          if o in obs {
            var x :| x in rows && ObsOf(x) == Some(o);
            assert ObservedAs(interim, INDICATOR_IDS[i], x, o);
          }
          if exists x :: ObservedAs(interim, INDICATOR_IDS[i], x, o) {
            var x :| ObservedAs(interim, INDICATOR_IDS[i], x, o);
            assert x in rows && ObsOf(x) == Some(o);
          }
        }
      }
      obs
    else []
  }

  /** Reading the interim files: the observations of every existing file,
      concatenated in `INDICATOR_IDS` order, or an error when none exists. */
  function Gather(interim: Interim): (r: Result<seq<Obs>, CoverageError>)
    ensures r.Err? <==> forall id :: id in INDICATOR_IDS ==> interim(id).None?
    ensures r.Ok? ==> forall o :: o in r.value <==> exists id, x :: ObservedAs(interim, id, x, o)
  {
    if forall id :: id in INDICATOR_IDS ==> interim(id).None? then Err(NoInterimFiles)
    else
      var parts := seq(|INDICATOR_IDS|, i requires 0 <= i < |INDICATOR_IDS| => FileObs(interim, i));
      var all := Flatten(parts);
      assert forall o :: o in all <==> exists id, x :: ObservedAs(interim, id, x, o) by {
        forall o | o in all
          ensures exists id, x :: ObservedAs(interim, id, x, o)
        {
          var i :| 0 <= i < |parts| && o in parts[i];
          var x :| ObservedAs(interim, INDICATOR_IDS[i], x, o);
        }
        forall o | exists id, x :: ObservedAs(interim, id, x, o)
          ensures o in all
        {
          var id, x :| ObservedAs(interim, id, x, o);
          var i :| 0 <= i < |INDICATOR_IDS| && INDICATOR_IDS[i] == id;
          assert o in parts[i];
        }
      }
      Ok(all)
  }

  /** Some row of country-year `k` and indicator `ind` has a value. */
  predicate HasValue(obs: seq<Obs>, k: Key, ind: string) {
    exists o :: o in obs && About(o, k, ind) && o.hasValue
  }

  /** The indicators of the pivot's columns that have a value for `k`. */
  function Available(obs: seq<Obs>, k: Key): set<string> {
    set ind | ind in Columns(obs) && HasValue(obs, k, ind)
  }

  /** An observation of indicator `ind` for key `k`. */
  predicate About(o: Obs, k: Key, ind: string) {
    o.key == k && o.indicator == ind
  }

  /** `groupby(key + indicator).agg(has_value=max)`: the group's maximum,
      or `None` when the group is empty and the pair has no row. */
  function GroupMax(obs: seq<Obs>, k: Key, ind: string): (g: Option<bool>)
    ensures g.Some? <==> exists o :: o in obs && About(o, k, ind)
    ensures g.Some? ==> (g.value <==> HasValue(obs, k, ind))
    decreases |obs|
  {
    if |obs| == 0 then None
    else
      var rest := GroupMax(obs[1..], k, ind);
      assert forall o :: o in obs <==> o == obs[0] || o in obs[1..];
      if About(obs[0], k, ind) then Some(obs[0].hasValue || (rest.Some? && rest.value))
      else rest
  }

  /** A cell of the pivot: the group's maximum, `False` where the pair has no
      row (`fill_value=False`). */
  function Flag(obs: seq<Obs>, k: Key, ind: string): bool {
    match GroupMax(obs, k, ind)
    case None => false
    case Some(b) => b
  }

  /** A pivot cell is true exactly when some row of that country-year and
      indicator has a value. */
  lemma FlagIffValue(obs: seq<Obs>, k: Key, ind: string)
    ensures Flag(obs, k, ind) <==> HasValue(obs, k, ind)
  {
    var g := GroupMax(obs, k, ind);
    if g.None? {
      assert forall o :: o in obs ==> !About(o, k, ind);
    }
  }

  /** The pivot's column labels: each indicator that occurs, once. */
  function Columns(obs: seq<Obs>): (cols: seq<string>)
    ensures Distinct(cols)
    ensures forall ind :: ind in cols <==> exists o :: o in obs && o.indicator == ind
  {
    var inds := seq(|obs|, i requires 0 <= i < |obs| => obs[i].indicator);
    assert forall o :: o in obs ==> o.indicator in inds by {
      forall o | o in obs
        ensures o.indicator in inds
      {
        var i :| 0 <= i < |obs| && obs[i] == o;
        assert inds[i] == o.indicator;
      }
    }
    Dedup(inds)
  }

  /** The pivot's index: each key that occurs, once. */
  function Keys(obs: seq<Obs>): (keys: seq<Key>)
    ensures Distinct(keys)
    ensures forall k :: k in keys <==> exists o :: o in obs && o.key == k
  {
    var ks := seq(|obs|, i requires 0 <= i < |obs| => obs[i].key);
    assert forall o :: o in obs ==> o.key in ks by {
      forall o | o in obs
        ensures o.key in ks
      {
        var i :| 0 <= i < |obs| && obs[i] == o;
        assert ks[i] == o.key;
      }
    }
    Dedup(ks)
  }

  /** The number of `true` entries. */
  function CountTrue(bs: seq<bool>): (n: nat)
    ensures n <= |bs|
    decreases |bs|
  {
    if |bs| == 0 then 0 else (if bs[0] then 1 else 0) + CountTrue(bs[1..])
  }

  /** A row of the report: the key, one flag per column and
      `available_count`, the sum of the flags. */
  datatype ReportRow = ReportRow(key: Key, flags: seq<bool>, count: nat)

  /** The test `p` applied to each element: a row of the pivot's cells. */
  function Marks<T>(xs: seq<T>, p: T -> bool): (bs: seq<bool>)
    ensures |bs| == |xs|
  {
    seq(|xs|, j requires 0 <= j < |xs| => p(xs[j]))
  }

  /** The indicator test of one pivot row. */
  function FlaggedFor(obs: seq<Obs>, k: Key): string -> bool {
    ind => Flag(obs, k, ind)
  }

  function RowFor(obs: seq<Obs>, cols: seq<string>, k: Key): ReportRow {
    var flags := Marks(cols, FlaggedFor(obs, k));
    ReportRow(k, flags, CountTrue(flags))
  }

  /** `pivot_table(...)` with `available_count` added: one row per key, one
      flag per column. */
  function Pivot(obs: seq<Obs>): (rows: seq<ReportRow>)
    ensures |rows| == |Keys(obs)|
    ensures forall i :: 0 <= i < |rows| ==> rows[i].key == Keys(obs)[i] && |rows[i].flags| == |Columns(obs)|
  {
    var keys := Keys(obs);
    var cols := Columns(obs);
    seq(|keys|, i requires 0 <= i < |keys| => RowFor(obs, cols, keys[i]))
  }

  /** Some row of the gathered table has key `k`. */
  predicate KeyOccurs(obs: seq<Obs>, k: Key) {
    exists o :: o in obs && o.key == k
  }

  /** Some row of the report has key `k`. */
  predicate Reported(rows: seq<ReportRow>, k: Key) {
    exists r :: r in rows && r.key == k
  }

  /** The pivot has exactly one row per (code, name, year) that occurs. */
  lemma PivotOneRowPerKey(obs: seq<Obs>)
    ensures forall i, j :: 0 <= i < j < |Pivot(obs)| ==> Pivot(obs)[i].key != Pivot(obs)[j].key
    ensures forall k :: KeyOccurs(obs, k) <==> Reported(Pivot(obs), k)
  {
    var rows := Pivot(obs);
    var keys := Keys(obs);
    forall k
      ensures KeyOccurs(obs, k) <==> Reported(rows, k)
    {
      if KeyOccurs(obs, k) {
        assert k in keys;
        var i :| 0 <= i < |keys| && keys[i] == k;
        assert rows[i] in rows;
      }
      if Reported(rows, k) {
        var r :| r in rows && r.key == k;
        var i :| 0 <= i < |rows| && rows[i] == r;
        assert keys[i] in keys;
      }
    }
  }

  /** The flags of a pivot row say, column by column, whether that
      country-year has a value for that indicator. */
  lemma PivotFlags(obs: seq<Obs>, i: nat, j: nat)
    requires i < |Pivot(obs)| && j < |Columns(obs)|
    ensures Pivot(obs)[i].flags[j] <==>
              HasValue(obs, Pivot(obs)[i].key, Columns(obs)[j])
  {
    FlagIffValue(obs, Keys(obs)[i], Columns(obs)[j]);
  }

  /** Summing flags counts the elements they mark. */
  lemma {:induction false} CountTrueIsFilterLength<T(!new)>(xs: seq<T>, p: T -> bool)
    ensures CountTrue(Marks(xs, p)) == |Filter(xs, p)|
    decreases |xs|
  {
    if |xs| > 0 {
      assert Marks(xs, p)[1..] == Marks(xs[1..], p);
      CountTrueIsFilterLength(xs[1..], p);
    }
  }

  /** `available_count` is the number of indicators that have a value for
      the row's country-year. */
  lemma AvailableCount(obs: seq<Obs>, i: nat)
    requires i < |Pivot(obs)|
    ensures Pivot(obs)[i].count == |Available(obs, Pivot(obs)[i].key)|
  {
    var k := Keys(obs)[i];
    assert Pivot(obs)[i] == RowFor(obs, Columns(obs), k);
    CountTrueIsFilterLength(Columns(obs), FlaggedFor(obs, k));
    FlaggedCount(obs, k);
  }

  /** The flagged columns of a row are the available indicators, each once. */
  lemma FlaggedCount(obs: seq<Obs>, k: Key)
    ensures |Filter(Columns(obs), FlaggedFor(obs, k))| == |Available(obs, k)|
  {
    var kept := Filter(Columns(obs), FlaggedFor(obs, k));
    FilterDistinct(Columns(obs), FlaggedFor(obs, k));
    DistinctCardinality(kept);
    forall ind
      ensures ind in kept <==> ind in Available(obs, k)
    {
      FlagIffValue(obs, k, ind);
    }
    assert (set ind | ind in kept) == Available(obs, k);
  }

  /** `sort_values(["year", "available_count"], ascending=[False, False])`:
      `a` may come before `b`. */
  predicate Precedes(a: ReportRow, b: ReportRow) {
    a.key.year > b.key.year || (a.key.year == b.key.year && a.count >= b.count)
  }

  predicate Sorted(rows: seq<ReportRow>) {
    forall i, j :: 0 <= i < j < |rows| ==> Precedes(rows[i], rows[j])
  }

  /** A row that may precede every row of a sorted report may head it. */
  lemma PrependSorted(y: ReportRow, rows: seq<ReportRow>)
    requires Sorted(rows)
    requires forall z :: z in rows ==> Precedes(y, z)
    ensures Sorted([y] + rows)
  {
    forall i, j | 0 <= i < j < |[y] + rows|
      ensures Precedes(([y] + rows)[i], ([y] + rows)[j])
    {
      assert ([y] + rows)[j] == rows[j - 1];
      if i > 0 {
        assert ([y] + rows)[i] == rows[i - 1];
      } else {
        assert rows[j - 1] in rows;
      }
    }
  }

  /** Insertion of one row into a sorted report. */
  function Insert(x: ReportRow, rows: seq<ReportRow>): (r: seq<ReportRow>)
    requires Sorted(rows)
    ensures Sorted(r)
    ensures multiset(r) == multiset(rows) + multiset{x}
    decreases |rows|
  {
    if |rows| == 0 then [x]
    else if Precedes(x, rows[0]) then
      PrependSorted(x, rows);
      [x] + rows
    else
      var rest := Insert(x, rows[1..]);
      assert rows == [rows[0]] + rows[1..];
      assert forall y :: y in rest ==> Precedes(rows[0], y) by {
        forall y | y in rest
          ensures Precedes(rows[0], y)
        {
          assert y in multiset(rest);
          if y != x {
            assert y in multiset(rows[1..]);
          }
        }
      }
      PrependSorted(rows[0], rest);
      [rows[0]] + rest
  }

  /** The report's order: sorted, and a rearrangement of the pivot. Ties are
      placed in some order; which one pandas picks is not modelled. */
  function SortReport(rows: seq<ReportRow>): (r: seq<ReportRow>)
    ensures Sorted(r)
    ensures multiset(r) == multiset(rows)
    decreases |rows|
  {
    if |rows| == 0 then []
    else
      assert rows == [rows[0]] + rows[1..];
      Insert(rows[0], SortReport(rows[1..]))
  }

  /** The script: read the interim files, pivot, count, sort; stop when no
      interim file exists. */
  function CoverageReport(interim: Interim): (r: Result<seq<ReportRow>, CoverageError>)
    ensures r.Err? <==> forall id :: id in INDICATOR_IDS ==> interim(id).None?
    ensures r.Ok? ==> Sorted(r.value)
    ensures r.Ok? ==> forall row :: row in r.value ==>
              (exists id, x, o :: ObservedAs(interim, id, x, o) && o.key == row.key) && row.count <= |row.flags|
  {
    var obs :- Gather(interim);
    var rows := Pivot(obs);
    var sorted := SortReport(rows);
    assert forall row :: row in sorted ==>
             (exists id, x, o :: ObservedAs(interim, id, x, o) && o.key == row.key) && row.count <= |row.flags| by {
      forall row | row in sorted
        ensures (exists id, x, o :: ObservedAs(interim, id, x, o) && o.key == row.key) && row.count <= |row.flags|
      {
        assert row in multiset(rows);
        var i :| 0 <= i < |rows| && rows[i] == row;
        assert Keys(obs)[i] in Keys(obs);
        var o :| o in obs && o.key == Keys(obs)[i];
        var id, x :| ObservedAs(interim, id, x, o);
      }
    }
    Ok(sorted)
  }

  /** Rearranging rows with distinct keys keeps their keys distinct. */
  lemma KeysStayDistinct(rows: seq<ReportRow>, report: seq<ReportRow>)
    requires forall i, j :: 0 <= i < j < |rows| ==> rows[i].key != rows[j].key
    requires multiset(report) == multiset(rows)
    ensures forall i, j :: 0 <= i < j < |report| ==> report[i].key != report[j].key
  {
    assert Distinct(rows);
    DistinctPermutation(rows, report);
    forall i, j | 0 <= i < j < |report|
      ensures report[i].key != report[j].key
    {
      assert report[i] in multiset(rows) && report[j] in multiset(rows);
      var a :| 0 <= a < |rows| && rows[a] == report[i];
      var b :| 0 <= b < |rows| && rows[b] == report[j];
    }
  }

  /** The report has exactly one row per (code, name, year) of the gathered
      table, whatever order the sort leaves. */
  lemma ReportOneRowPerKey(interim: Interim)
    requires Gather(interim).Ok?
    ensures var obs := Gather(interim).value;
            var report := CoverageReport(interim).value;
            && (forall k :: KeyOccurs(obs, k) <==> Reported(report, k))
            && (forall i, j :: 0 <= i < j < |report| ==> report[i].key != report[j].key)
  {
    var obs := Gather(interim).value;
    var rows := Pivot(obs);
    var report := CoverageReport(interim).value;
    assert report == SortReport(rows);
    PivotOneRowPerKey(obs);
    forall k
      ensures Reported(rows, k) <==> Reported(report, k)
    {
      if Reported(rows, k) {
        var r :| r in rows && r.key == k;
        assert r in multiset(report);
      }
      if Reported(report, k) {
        var r :| r in report && r.key == k;
        assert r in multiset(rows);
      }
    }
    KeysStayDistinct(rows, report);
  }

  /** Every row of the report carries, column by column, whether its
      country-year has a value for that indicator, and as
      `available_count` the number of indicators that do. */
  lemma ReportCells(interim: Interim)
    requires Gather(interim).Ok?
    ensures var obs := Gather(interim).value;
            forall row :: row in CoverageReport(interim).value ==>
              && |row.flags| == |Columns(obs)|
              && (forall j :: 0 <= j < |row.flags| ==> (row.flags[j] <==> HasValue(obs, row.key, Columns(obs)[j])))
              && row.count == |Available(obs, row.key)|
  {
    var obs := Gather(interim).value;
    var rows := Pivot(obs);
    var report := CoverageReport(interim).value;
    assert report == SortReport(rows);
    forall row | row in report
      ensures && |row.flags| == |Columns(obs)|
              && (forall j :: 0 <= j < |row.flags| ==> (row.flags[j] <==> HasValue(obs, row.key, Columns(obs)[j])))
              && row.count == |Available(obs, row.key)|
    {
      assert row in multiset(rows);
      var i :| 0 <= i < |rows| && rows[i] == row;
      AvailableCount(obs, i);
      forall j | 0 <= j < |row.flags|
        ensures row.flags[j] <==> HasValue(obs, row.key, Columns(obs)[j])
      {
        PivotFlags(obs, i, j);
      }
    }
  }
}
