/** The Tableau exports of pipelines/export_for_tableau.py: the index
    restricted to recognised countries and the SDG era with its latest row
    per country, the long indicator table, and the per-country-year count
    of available observations. */
module ExportTableau {
  import opened Wrappers
  import opened Seqs
  import opened Cells
  import opened Schema
  import BuildIndex

  /** `INDICATORS`: indicator id, Tableau alias and bucket, in dictionary order. */
  datatype IndicatorInfo = IndicatorInfo(id: string, alias: string, bucket: string)

  const INDICATORS: seq<IndicatorInfo> := [
    IndicatorInfo("SE.PRM.CMPT.ZS", "Participation_completion", "Participation"),
    IndicatorInfo("SDG_4.1.1_read", "Learning_proficiency", "Learning"),
    IndicatorInfo("SDG_4.2.2", "EarlyChildhood_participation", "EarlyChildhood"),
    IndicatorInfo("SDG_4.5.1_GPI_SEC", "Equity_gender_parity", "Equity"),
    IndicatorInfo("SDG_4.a.1_elec", "Infrastructure_electricity", "Infrastructure"),
    IndicatorInfo("SDG_4.c.1_prim", "Teachers_trained", "Teachers")
  ]

  /** The exported buckets agree with the index builder's: the two lists
      hold the same (bucket, indicator) pairs, in a different order. */
  lemma IndicatorsMatchBuckets()
    ensures forall i :: 0 <= i < |INDICATORS| ==>
              && IndicatorJob(i) < |BuildIndex.Jobs()|
              && BuildIndex.Jobs()[IndicatorJob(i)] == BuildIndex.Job(INDICATORS[i].bucket, INDICATORS[i].id)
    ensures forall info :: info in INDICATORS ==> BuildIndex.Job(info.bucket, info.id) in BuildIndex.Jobs()
  {
    forall i | 0 <= i < |INDICATORS|
      ensures && IndicatorJob(i) < |BuildIndex.Jobs()|
              && BuildIndex.Jobs()[IndicatorJob(i)] == BuildIndex.Job(INDICATORS[i].bucket, INDICATORS[i].id)
    {
      MatchAt(i);
    }
    forall info | info in INDICATORS
      ensures BuildIndex.Job(info.bucket, info.id) in BuildIndex.Jobs()
    {
      var i :| 0 <= i < |INDICATORS| && INDICATORS[i] == info;
      MatchAt(i);
      assert BuildIndex.Jobs()[IndicatorJob(i)] in BuildIndex.Jobs();
    }
  }

  lemma MatchAt(i: nat)
    requires i < |INDICATORS|
    ensures IndicatorJob(i) < |BuildIndex.Jobs()|
    ensures BuildIndex.Jobs()[IndicatorJob(i)] == BuildIndex.Job(INDICATORS[i].bucket, INDICATORS[i].id)
  {
    BuildIndex.JobsInLoopOrder();
    var b := BuildIndex.BUCKETS[IndicatorJob(i)];
    if i == 0 {
      assert b == BuildIndex.Bucket("Participation", ["SE.PRM.CMPT.ZS"]);
    } else if i == 1 {
      assert b == BuildIndex.Bucket("Learning", ["SDG_4.1.1_read"]);
    } else if i == 2 {
      assert b == BuildIndex.Bucket("EarlyChildhood", ["SDG_4.2.2"]);
    } else if i == 3 {
      assert b == BuildIndex.Bucket("Equity", ["SDG_4.5.1_GPI_SEC"]);
    } else if i == 4 {
      assert b == BuildIndex.Bucket("Infrastructure", ["SDG_4.a.1_elec"]);
    } else {
      assert b == BuildIndex.Bucket("Teachers", ["SDG_4.c.1_prim"]);
    }
  }

  /** The position in the index builder's loop of the `i`-th entry of
      `INDICATORS`, which lists "Participation" first. */
  function IndicatorJob(i: nat): nat {
    if i == 0 then 2 else if i <= 2 then i - 1 else i
  }

  datatype ExportError =
      /** `inequity_index.parquet` does not exist. */
    | MissingIndex
      /** No indicator file exists. */
    | NoIndicatorFiles
      /** No recognised row with a value exists in any indicator file. */
    | NoCoverage

  /** The mask `iso.notna()` for rows whose country code `iso3` extracts. */
  function Resolves<R>(iso3: R -> Cell, resolve: Resolver): R -> bool {
    x => resolve(iso3(x)).Some?
  }

  /** `_filter_countries`: the rows whose country code the resolver
      recognises. */
  function FilterCountries<R(!new)>(rows: seq<R>, iso3: R -> Cell, resolve: Resolver): (r: seq<R>)
    ensures |r| <= |rows|
    ensures forall x :: x in r <==> x in rows && resolve(iso3(x)).Some?
  {
    Filter(rows, Resolves(iso3, resolve))
  }

  /** `_filter_countries` keeps the original order: the kept rows sit at
      increasing positions of the input, and every recognised position is
      among them. */
  lemma FilterCountriesKeepsOrder<R(!new)>(rows: seq<R>, iso3: R -> Cell, resolve: Resolver)
    ensures var ix := KeptPositions(rows, Resolves(iso3, resolve));
            && |ix| == |FilterCountries(rows, iso3, resolve)|
            && (forall k :: 0 <= k < |ix| ==> FilterCountries(rows, iso3, resolve)[k] == rows[ix[k]])
            && (forall k, l :: 0 <= k < l < |ix| ==> ix[k] < ix[l])
            && (forall i :: 0 <= i < |rows| && resolve(iso3(rows[i])).Some? ==> i in ix)
  {
    FilterKeepsOrder(rows, Resolves(iso3, resolve));
    forall i | 0 <= i < |rows| && resolve(iso3(rows[i])).Some?
      ensures i in KeptPositions(rows, Resolves(iso3, resolve))
    {
      KeptPositionsComplete(rows, Resolves(iso3, resolve), i);
    }
  }

  /** A row of `inequity_index.parquet`. */
  datatype IndexRow = IndexRow(iso3: Cell, name: Cell, year: Option<real>, index: Option<real>)

  function IndexIso3(r: IndexRow): Cell {
    r.iso3
  }

  /** A row of `inequity_index.csv` (ISO3, Country, Year, InequityIndex). */
  datatype IndexOut = IndexOut(iso3: Cell, name: Cell, year: real, index: Option<real>)

  /** The SDG-era window of `export_index`; a null year fails it. */
  predicate InIndexWindow(r: IndexRow) {
    r.year.Some? && 2015.0 <= r.year.value <= 2024.0
  }

  function ToIndexOut(r: IndexRow): Option<IndexOut> {
    if InIndexWindow(r) then Some(IndexOut(r.iso3, r.name, r.year.value, r.index)) else None
  }

  /** The rows of `inequity_index.csv`: recognised countries, 2015..2024. */
  function IndexWindow(rows: seq<IndexRow>, resolve: Resolver): (r: seq<IndexOut>)
    ensures forall o :: o in r <==>
              exists x :: x in rows && resolve(x.iso3).Some? && InIndexWindow(x)
                          && o == IndexOut(x.iso3, x.name, x.year.value, x.index)
  {
    var r := FilterMap(FilterCountries(rows, IndexIso3, resolve), ToIndexOut);
    assert forall x :: ToIndexOut(x).Some? ==> ToIndexOut(x).value == IndexOut(x.iso3, x.name, x.year.value, x.index);
    r
  }

  /** `df.sort_values("Year").groupby("ISO3").tail(1)`: for every country
      code present, one row of that country with the largest year. Rows with
      a null code form no group. */
  method LatestPerCountry(rows: seq<IndexOut>) returns (latest: map<Cell, IndexOut>)
    ensures forall c :: c in latest <==> c != Missing && exists j :: 0 <= j < |rows| && rows[j].iso3 == c
    ensures forall c :: c in latest ==> latest[c] in rows && latest[c].iso3 == c
    ensures forall c, j :: c in latest && 0 <= j < |rows| && rows[j].iso3 == c ==> rows[j].year <= latest[c].year
  {
    latest := map[];
    var i := 0;
    while i < |rows|
      invariant 0 <= i <= |rows|
      invariant forall c :: c in latest <==> c != Missing && exists j :: 0 <= j < i && rows[j].iso3 == c
      invariant forall c :: c in latest ==> latest[c] in rows && latest[c].iso3 == c
      invariant forall c, j :: c in latest && 0 <= j < i && rows[j].iso3 == c ==> rows[j].year <= latest[c].year
    {
      var r := rows[i];
      if r.iso3 != Missing && (r.iso3 !in latest || latest[r.iso3].year <= r.year) {
        latest := latest[r.iso3 := r];
      }
      i := i + 1;
    }
  }

  /** What `export_index` writes: the windowed table and its latest rows. */
  datatype IndexExport = IndexExport(rows: seq<IndexOut>, latest: map<Cell, IndexOut>)

  /** `export_index`; `file` is the index table, `None` when it is missing. */
  method ExportIndex(file: Option<seq<IndexRow>>, resolve: Resolver) returns (r: Result<IndexExport, ExportError>)
    ensures r.Err? <==> file.None?
    ensures r.Err? ==> r.error == MissingIndex
    ensures r.Ok? ==> r.value.rows == IndexWindow(file.value, resolve)
    ensures r.Ok? ==> forall o :: o in r.value.rows <==>
              exists x :: x in file.value && resolve(x.iso3).Some? && InIndexWindow(x)
                          && o == IndexOut(x.iso3, x.name, x.year.value, x.index)
    ensures r.Ok? ==> forall o :: o in r.value.rows ==> 2015.0 <= o.year <= 2024.0 && resolve(o.iso3).Some?
    ensures r.Ok? ==> forall c :: c in r.value.latest <==> c != Missing && exists o :: o in r.value.rows && o.iso3 == c
    ensures r.Ok? ==> forall c :: c in r.value.latest ==>
              && r.value.latest[c] in r.value.rows
              && forall o :: o in r.value.rows && o.iso3 == c ==> o.year <= r.value.latest[c].year
  {
    if file.None? {
      return Err(MissingIndex);
    }
    var rows := IndexWindow(file.value, resolve);
    var latest := LatestPerCountry(rows);
    r := Ok(IndexExport(rows, latest));
  }

  /** A row of `indicators_long.csv`. */
  datatype LongOut = LongOut(iso3: Cell, name: Cell, year: real, bucket: string, alias: string,
                             indicatorId: string, value: Option<real>)

  function TidyIso3(r: TidyRow): Cell {
    r.iso3
  }

  /** The 2010..2024 window of `export_indicators_long`; a null year fails it. */
  predicate InLongWindow(r: TidyRow) {
    r.year.Some? && 2010.0 <= r.year.value <= 2024.0
  }

  /** The stamping of one row, or `None` outside the window. */
  function LongOutOf(info: IndicatorInfo): TidyRow -> Option<LongOut> {
    r => if InLongWindow(r) then Some(LongOut(r.iso3, r.name, r.year.value, info.bucket, info.alias, info.id, r.value))
         else None
  }

  /** One indicator's part of the long table: recognised countries,
      2010..2024, stamped with the indicator's id, alias and bucket. */
  function IndicatorRows(rows: seq<TidyRow>, info: IndicatorInfo, resolve: Resolver): (r: seq<LongOut>)
    ensures forall o :: o in r <==>
              exists x :: x in rows && resolve(x.iso3).Some? && InLongWindow(x)
                          && o == LongOut(x.iso3, x.name, x.year.value, info.bucket, info.alias, info.id, x.value)
  {
    FilterMap(FilterCountries(rows, TidyIso3, resolve), LongOutOf(info))
  }

  /** A row of the long table that carries the id, alias and bucket of an
      indicator whose file exists, and a year of the window. */
  predicate LongRowOf(interim: Interim, o: LongOut) {
    && 2010.0 <= o.year <= 2024.0
    && exists info :: info in INDICATORS && interim(info.id).Some?
                      && o.indicatorId == info.id && o.alias == info.alias && o.bucket == info.bucket
  }

  /** The part of the `i`-th indicator, none when its file is missing. */
  function PartRows(interim: Interim, resolve: Resolver, i: nat): (rows: seq<LongOut>)
    requires i < |INDICATORS|
    ensures forall o :: o in rows ==> LongRowOf(interim, o)
  {
    var info := INDICATORS[i];
    if interim(info.id).Some? then
      var rows := IndicatorRows(interim(info.id).value, info, resolve);
      assert info in INDICATORS;
      rows
    else []
  }

  /** The parts, one per indicator, in `INDICATORS` order. */
  function LongParts(interim: Interim, resolve: Resolver): (parts: seq<seq<LongOut>>)
    ensures |parts| == |INDICATORS|
    ensures forall i :: 0 <= i < |INDICATORS| ==> parts[i] == PartRows(interim, resolve, i)
  {
    seq(|INDICATORS|, i requires 0 <= i < |INDICATORS| => PartRows(interim, resolve, i))
  }

  /** The concatenation of the parts in `INDICATORS` order. */
  function LongRows(interim: Interim, resolve: Resolver): (rows: seq<LongOut>)
    ensures forall o :: o in rows ==> LongRowOf(interim, o)
  {
    var parts := LongParts(interim, resolve);
    assert forall o :: o in Flatten(parts) ==> LongRowOf(interim, o) by {
      forall o | o in Flatten(parts)
        ensures LongRowOf(interim, o)
      {
        var i :| 0 <= i < |parts| && o in parts[i];
      }
    }
    Flatten(parts)
  }

  /** `o` is a row of the part of an indicator whose file exists. */
  predicate ExportedFrom(interim: Interim, resolve: Resolver, info: IndicatorInfo, o: LongOut) {
    info in INDICATORS && interim(info.id).Some? && o in IndicatorRows(interim(info.id).value, info, resolve)
  }

  /** The long table holds exactly the rows of the parts of the indicators
      whose files exist. */
  lemma LongRowsFromParts(interim: Interim, resolve: Resolver)
    ensures forall o :: o in LongRows(interim, resolve) <==> exists info :: ExportedFrom(interim, resolve, info, o)
  {
    var parts := LongParts(interim, resolve);
    forall o
      ensures o in Flatten(parts) <==> exists info :: ExportedFrom(interim, resolve, info, o)
    {
      if o in Flatten(parts) {
        var i :| 0 <= i < |parts| && o in parts[i];
        var info := INDICATORS[i];
        assert info in INDICATORS;
        assert interim(info.id).Some? && o in IndicatorRows(interim(info.id).value, info, resolve);
        assert ExportedFrom(interim, resolve, info, o);
      }
      if exists info :: ExportedFrom(interim, resolve, info, o) {
        var info :| ExportedFrom(interim, resolve, info, o);
        var i :| 0 <= i < |INDICATORS| && INDICATORS[i] == info;
        assert o in parts[i];
      }
    }
  }

  /** `export_indicators_long`: the indicators' parts concatenated in
      `INDICATORS` order; missing files are skipped, and nothing is written
      when every file is missing. */
  function ExportIndicatorsLong(interim: Interim, resolve: Resolver): (r: Result<seq<LongOut>, ExportError>)
    ensures r.Err? <==> forall info :: info in INDICATORS ==> interim(info.id).None?
    ensures r.Err? ==> r.error == NoIndicatorFiles
    ensures r.Ok? ==> forall o :: o in r.value <==> exists info :: ExportedFrom(interim, resolve, info, o)
    ensures r.Ok? ==> forall o :: o in r.value ==>
              && 2010.0 <= o.year <= 2024.0
              && exists info :: info in INDICATORS && interim(info.id).Some?
                                && o.indicatorId == info.id && o.alias == info.alias && o.bucket == info.bucket
  {
    LongRowsFromParts(interim, resolve);
    if forall info :: info in INDICATORS ==> interim(info.id).None? then Err(NoIndicatorFiles)
    else Ok(LongRows(interim, resolve))
  }

  /** A key of the coverage counter: (country code, country name, year). */
  datatype CoverageKey = CoverageKey(iso3: Cell, name: Cell, year: Option<real>)

  function CoverageKeyOf(r: TidyRow): CoverageKey {
    CoverageKey(r.iso3, r.name, r.year)
  }

  function CoverageKeyOrNone(r: TidyRow): Option<CoverageKey> {
    if r.value.Some? then Some(CoverageKeyOf(r)) else None
  }

  /** The keys one indicator file contributes, one per recognised row with a
      value (`dropna(subset=["value"])`). */
  function FileKeys(rows: seq<TidyRow>, resolve: Resolver): (keys: seq<CoverageKey>)
    ensures forall k :: k in keys <==>
              exists x :: x in rows && resolve(x.iso3).Some? && x.value.Some? && CoverageKeyOf(x) == k
  {
    FilterMap(FilterCountries(rows, TidyIso3, resolve), CoverageKeyOrNone)
  }

  /** A row the counter counts: it sits in an existing indicator file, its
      country is recognised and its value is present. */
  predicate CountedRow(interim: Interim, resolve: Resolver, info: IndicatorInfo, x: TidyRow) {
    && info in INDICATORS
    && interim(info.id).Some?
    && x in interim(info.id).value
    && resolve(x.iso3).Some?
    && x.value.Some?
  }

  /** The keys of the `i`-th indicator file, none when it is missing. */
  function PartKeys(interim: Interim, resolve: Resolver, i: nat): seq<CoverageKey>
    requires i < |INDICATORS|
  {
    if interim(INDICATORS[i].id).Some? then FileKeys(interim(INDICATORS[i].id).value, resolve) else []
  }

  function Parts(interim: Interim, resolve: Resolver): (parts: seq<seq<CoverageKey>>)
    ensures |parts| == |INDICATORS|
  {
    seq(|INDICATORS|, i requires 0 <= i < |INDICATORS| => PartKeys(interim, resolve, i))
  }

  /** Every key the counter is fed, over all existing indicator files in
      `INDICATORS` order. */
  function CoverageKeys(interim: Interim, resolve: Resolver): (keys: seq<CoverageKey>)
    ensures forall k :: k in keys <==> exists info, x :: CountedRow(interim, resolve, info, x) && CoverageKeyOf(x) == k
  {
    var parts := Parts(interim, resolve);
    var all := Flatten(parts);
    forall k | k in all
      ensures exists info, x :: CountedRow(interim, resolve, info, x) && CoverageKeyOf(x) == k
    {
      var i :| 0 <= i < |parts| && k in parts[i];
      PartKeysCounted(interim, resolve, i, k);
    }
    forall k | exists info, x :: CountedRow(interim, resolve, info, x) && CoverageKeyOf(x) == k
      ensures k in all
    {
      var info, x :| CountedRow(interim, resolve, info, x) && CoverageKeyOf(x) == k;
      var i :| 0 <= i < |INDICATORS| && INDICATORS[i] == info;
      CountedInPartKeys(interim, resolve, i, x);
      assert k in parts[i];
    }
    all
  }

  lemma PartKeysCounted(interim: Interim, resolve: Resolver, i: nat, k: CoverageKey)
    requires i < |INDICATORS| && k in PartKeys(interim, resolve, i)
    ensures exists x :: CountedRow(interim, resolve, INDICATORS[i], x) && CoverageKeyOf(x) == k
  {
    var x :| x in interim(INDICATORS[i].id).value && resolve(x.iso3).Some? && x.value.Some? && CoverageKeyOf(x) == k;
    assert CountedRow(interim, resolve, INDICATORS[i], x);
  }

  lemma CountedInPartKeys(interim: Interim, resolve: Resolver, i: nat, x: TidyRow)
    requires i < |INDICATORS| && CountedRow(interim, resolve, INDICATORS[i], x)
    ensures CoverageKeyOf(x) in PartKeys(interim, resolve, i)
  {
  }

  /** The rows of one file that the counter counts under key `k`: a
      recognised country, a value, and that (code, name, year). */
  function CountedUnder(resolve: Resolver, k: CoverageKey): TidyRow -> bool {
    (x: TidyRow) => resolve(x.iso3).Some? && x.value.Some? && CoverageKeyOf(x) == k
  }

  function KeyedAs(k: CoverageKey): TidyRow -> bool {
    (x: TidyRow) => x.value.Some? && CoverageKeyOf(x) == k
  }

  /** How many rows of the `i`-th indicator file are counted under `k`;
      none when the file is missing. */
  function FileCount(interim: Interim, resolve: Resolver, k: CoverageKey, i: nat): nat
    requires i < |INDICATORS|
  {
    if interim(INDICATORS[i].id).Some? then |Filter(interim(INDICATORS[i].id).value, CountedUnder(resolve, k))| else 0
  }

  /** How many rows are counted under `k` in the indicator files from the
      `i`-th on; `CountedRows(interim, resolve, k, 0)` covers every file. */
  function CountedRows(interim: Interim, resolve: Resolver, k: CoverageKey, i: nat): nat
    requires i <= |INDICATORS|
    decreases |INDICATORS| - i
  {
    if i == |INDICATORS| then 0 else FileCount(interim, resolve, k, i) + CountedRows(interim, resolve, k, i + 1)
  }

  /** One file feeds the counter key `k` once per row counted under `k`. */
  lemma FileKeyCount(rows: seq<TidyRow>, resolve: Resolver, k: CoverageKey)
    ensures Occurrences(FileKeys(rows, resolve), k) == |Filter(rows, CountedUnder(resolve, k))|
  {
    OccurrencesFilterMap(FilterCountries(rows, TidyIso3, resolve), CoverageKeyOrNone, k, KeyedAs(k));
    FilterFilter(rows, Resolves(TidyIso3, resolve), KeyedAs(k), CountedUnder(resolve, k));
  }

  lemma {:induction false} PartCounts(interim: Interim, resolve: Resolver, k: CoverageKey, i: nat)
    requires i <= |INDICATORS|
    ensures OccurrencesFrom(Parts(interim, resolve), k, i) == CountedRows(interim, resolve, k, i)
    decreases |INDICATORS| - i
  {
    if i < |INDICATORS| {
      PartCounts(interim, resolve, k, i + 1);
      if interim(INDICATORS[i].id).Some? {
        FileKeyCount(interim(INDICATORS[i].id).value, resolve, k);
      }
    }
  }

  /** The number of times the counter sees key `k` is the number of rows,
      across all indicator files, counted under `k`. */
  lemma {:induction false} CoverageCount(interim: Interim, resolve: Resolver, k: CoverageKey)
    ensures Occurrences(CoverageKeys(interim, resolve), k) == CountedRows(interim, resolve, k, 0)
  {
    var parts := Parts(interim, resolve);
    assert parts[0..] == parts;
    OccurrencesFlatten(parts, k, 0);
    PartCounts(interim, resolve, k, 0);
  }

  /** The `defaultdict(int)` counter: how often each key occurs. */
  method CountKeys<K>(keys: seq<K>) returns (counts: map<K, nat>)
    ensures forall k :: k in counts <==> k in keys
    ensures forall k :: k in counts ==> counts[k] == Occurrences(keys, k)
  {
    counts := map[];
    var i := 0;
    while i < |keys|
      invariant 0 <= i <= |keys|
      invariant forall k :: k in counts <==> k in keys[..i]
      invariant forall k :: k in counts ==> counts[k] == Occurrences(keys[..i], k)
    {
      var k := keys[i];
      assert keys[..i + 1][..i] == keys[..i];
      assert forall c :: Occurrences(keys[..i + 1], c) == Occurrences(keys[..i], c) + (if c == k then 1 else 0);
      assert forall c :: c in keys[..i + 1] <==> c in keys[..i] || c == k;
      if k in counts {
        counts := counts[k := counts[k] + 1];
      } else {
        counts := counts[k := 1];
      }
      i := i + 1;
    }
    assert keys[..|keys|] == keys;
  }

  /** `export_coverage`: for each (code, name, year), the number of
      recognised rows with a value across all indicator files; keys with no
      such row are absent, and nothing is written when no key exists. */
  method ExportCoverage(interim: Interim, resolve: Resolver) returns (r: Result<map<CoverageKey, nat>, ExportError>)
    ensures r.Err? ==> r.error == NoCoverage
    ensures r.Ok? ==> |r.value| > 0
    ensures r.Ok? ==> forall k :: k in r.value <==> exists info, x :: CountedRow(interim, resolve, info, x) && CoverageKeyOf(x) == k
    ensures r.Ok? ==> forall k :: k in r.value ==> r.value[k] == CountedRows(interim, resolve, k, 0) > 0
    ensures r.Err? <==> forall info, x :: !CountedRow(interim, resolve, info, x)
  {
    var keys := CoverageKeys(interim, resolve);
    if |keys| == 0 {
      NothingCounted(interim, resolve);
      return Err(NoCoverage);
    }
    SomethingCounted(interim, resolve);
    var counts := CountKeys(keys);
    assert keys[0] in counts;
    CountedKeys(interim, resolve, counts);
    forall k | k in counts
      ensures counts[k] == CountedRows(interim, resolve, k, 0)
    {
      CoverageCount(interim, resolve, k);
    }
    r := Ok(counts);
  }

  /** A counter over exactly the fed keys holds exactly the keys of the
      counted rows. */
  lemma CountedKeys(interim: Interim, resolve: Resolver, counts: map<CoverageKey, nat>)
    requires forall k :: k in counts <==> k in CoverageKeys(interim, resolve)
    ensures forall k :: k in counts <==> exists info, x :: CountedRow(interim, resolve, info, x) && CoverageKeyOf(x) == k
  {
  }

  lemma NothingCounted(interim: Interim, resolve: Resolver)
    requires |CoverageKeys(interim, resolve)| == 0
    ensures forall info, x :: !CountedRow(interim, resolve, info, x)
  {
    forall info, x
      ensures !CountedRow(interim, resolve, info, x)
    {
      assert CountedRow(interim, resolve, info, x) ==> CoverageKeyOf(x) in CoverageKeys(interim, resolve);
    }
  }

  lemma SomethingCounted(interim: Interim, resolve: Resolver)
    requires |CoverageKeys(interim, resolve)| > 0
    ensures exists info, x :: CountedRow(interim, resolve, info, x)
  {
    var keys := CoverageKeys(interim, resolve);
    assert keys[0] in keys;
    var info, x :| CountedRow(interim, resolve, info, x) && CoverageKeyOf(x) == keys[0];
  }
}
