/** The index builder (`main` of pipelines/build_index.py): per indicator,
    drop unrecognised countries, min-max normalise, drop rows without a year
    or a score; then keep the SDG era, average per bucket, require two
    buckets per country-year and take the weighted mean across buckets. */
module BuildIndex {
  import opened Wrappers
  import opened Seqs
  import opened Cells
  import opened Schema
  import opened Stats
  import opened Normalize

  /** A thematic bucket and the indicators it averages. */
  datatype Bucket = Bucket(name: string, indicators: seq<string>)

  /** `BUCKETS`, in dictionary order. */
  const BUCKETS: seq<Bucket> := [
    Bucket("Learning", ["SDG_4.1.1_read"]),
    Bucket("EarlyChildhood", ["SDG_4.2.2"]),
    Bucket("Participation", ["SE.PRM.CMPT.ZS"]),
    Bucket("Equity", ["SDG_4.5.1_GPI_SEC"]),
    Bucket("Infrastructure", ["SDG_4.a.1_elec"]),
    Bucket("Teachers", ["SDG_4.c.1_prim"])
  ]

  /** The gender-parity indicator, scored by closeness to 1. */
  const GPI := "SDG_4.5.1_GPI_SEC"

  function BucketNames(): (names: seq<string>)
    ensures |names| == |BUCKETS|
  {
    seq(|BUCKETS|, k requires 0 <= k < |BUCKETS| => BUCKETS[k].name)
  }

  /** `WEIGHTS`: an equal share `1 / len(BUCKETS)` for every bucket. */
  const WEIGHTS: map<string, real> := map b | b in BucketNames() :: 1.0 / (|BUCKETS| as real)

  /** The six bucket names, in order, with no repetition. */
  lemma BucketNamesDistinct()
    ensures BucketNames() == ["Learning", "EarlyChildhood", "Participation", "Equity", "Infrastructure", "Teachers"]
    ensures Distinct(BucketNames())
  {
  }

  /** The bucket names are distinct, every weight is 1/6, and the weights of
      the buckets add up to one. */
  lemma WeightsAreEqualShares()
    ensures Distinct(BucketNames())
    ensures forall b :: b in WEIGHTS <==> b in BucketNames()
    ensures forall b :: b in WEIGHTS ==> WEIGHTS[b] == 1.0 / 6.0
    ensures Sum(seq(|BUCKETS|, k requires 0 <= k < |BUCKETS| => WEIGHTS[BucketNames()[k]])) == 1.0
  {
    BucketNamesDistinct();
    var ws := seq(|BUCKETS|, k requires 0 <= k < |BUCKETS| => WEIGHTS[BucketNames()[k]]);
    assert forall k :: 0 <= k < |ws| ==> ws[k] == 1.0 / 6.0;
    DotOfConstant(ws, ws, 1.0 / 6.0);
  }

  /** One (bucket, indicator) pair of the nested loop over `BUCKETS`. */
  datatype Job = Job(bucket: string, indicator: string)

  /** The jobs of each bucket, bucket by bucket. */
  function PerBucket(): seq<seq<Job>> {
    seq(|BUCKETS|, k requires 0 <= k < |BUCKETS| =>
      seq(|BUCKETS[k].indicators|, i requires 0 <= i < |BUCKETS[k].indicators| =>
        Job(BUCKETS[k].name, BUCKETS[k].indicators[i])))
  }

  /** The loop order of `main`: buckets in order, each bucket's indicators in order. */
  function Jobs(): (jobs: seq<Job>)
    ensures forall j :: j in jobs ==> j.bucket in BucketNames()
  {
    assert forall k :: 0 <= k < |BUCKETS| ==> BucketNames()[k] == BUCKETS[k].name;
    Flatten(PerBucket())
  }

  /** The loop visits each bucket's single indicator once, in `BUCKETS` order. */
  lemma JobsInLoopOrder()
    ensures |Jobs()| == |BUCKETS|
    ensures forall k :: 0 <= k < |BUCKETS| ==> Jobs()[k] == Job(BUCKETS[k].name, BUCKETS[k].indicators[0])
  {
    var pb := PerBucket();
    assert forall k :: 0 <= k < |BUCKETS| ==> |BUCKETS[k].indicators| == 1;
    FlattenSingletons(pb);
  }

  /** A row that reaches the aggregation: its country cells, a year, its
      bucket and its normalised score. */
  datatype Scored = Scored(iso3: Cell, name: Cell, year: real, bucket: string, norm: real)

  /** The mask `iso3_conv.notna()`. */
  function Recognised(resolve: Resolver): TidyRow -> bool {
    (r: TidyRow) => resolve(r.iso3).Some?
  }

  /** The series handed to `normalize_series`: the raw values, or their
      goodness for the parity indicator. */
  function RawScores(kept: seq<TidyRow>, indicator: string): (raw: seq<Option<real>>)
    ensures |raw| == |kept|
  {
    seq(|kept|, i requires 0 <= i < |kept| =>
      if indicator == GPI then Goodness(kept[i].value) else kept[i].value)
  }

  /** `dropna(subset=["year", "norm"])` for one row. */
  function ScoredRow(r: TidyRow, norm: Option<real>, bucket: string): Option<Scored> {
    if r.year.Some? && norm.Some? then Some(Scored(r.iso3, r.name, r.year.value, bucket, norm.value))
    else None
  }

  /** The rows of one indicator that keep a year and a score, paired with
      their scores. */
  function ScoredRows(kept: seq<TidyRow>, norm: seq<Option<real>>, bucket: string): (r: seq<Scored>)
    requires |norm| == |kept|
    ensures |r| <= |kept|
    ensures forall s :: s in r <==>
              exists i :: 0 <= i < |kept| && ScoredRow(kept[i], norm[i], bucket) == Some(s)
  {
    Somes(ScoreCandidates(kept, norm, bucket))
  }

  /** Each row of one indicator, scored or dropped, position by position. */
  function ScoreCandidates(kept: seq<TidyRow>, norm: seq<Option<real>>, bucket: string): (cand: seq<Option<Scored>>)
    requires |norm| == |kept|
    ensures |cand| == |kept|
    ensures forall i :: 0 <= i < |kept| ==> cand[i] == ScoredRow(kept[i], norm[i], bucket)
  {
    seq(|kept|, i requires 0 <= i < |kept| => ScoredRow(kept[i], norm[i], bucket))
  }

  /** `df[mask]`: the rows whose country the resolver recognises. */
  function Kept(rows: seq<TidyRow>, resolve: Resolver): (kept: seq<TidyRow>)
    ensures forall r :: r in kept <==> r in rows && resolve(r.iso3).Some?
  {
    Filter(rows, Recognised(resolve))
  }

  /** The `norm` column: the min-max normalisation, across the recognised
      rows, of their raw scores (goodness first for the parity indicator). */
  function NormScores(rows: seq<TidyRow>, job: Job, resolve: Resolver): (norm: seq<Option<real>>)
    ensures |norm| == |Kept(rows, resolve)|
  {
    NormalizeSeries(RawScores(Kept(rows, resolve), job.indicator), true)
  }

  /** Recognised row `i` has a year and a score, and `s` is that row with
      the job's bucket and its score. */
  predicate ScoredAt(rows: seq<TidyRow>, job: Job, resolve: Resolver, i: int, s: Scored) {
    var kept, norm := Kept(rows, resolve), NormScores(rows, job, resolve);
    && 0 <= i < |kept|
    && kept[i].year.Some? && norm[i].Some?
    && s == Scored(kept[i].iso3, kept[i].name, kept[i].year.value, job.bucket, norm[i].value)
  }

  /** One pass of the loop body of `main`: keep recognised countries,
      normalise across what is left, drop rows without a year or a score.
      Exactly the recognised rows with a year and a score survive, each
      with its own normalised score. */
  function PrepareIndicator(rows: seq<TidyRow>, job: Job, resolve: Resolver): (r: seq<Scored>)
    ensures |r| <= |rows|
    ensures forall s :: s in r <==> exists i :: ScoredAt(rows, job, resolve, i, s)
    ensures forall s :: s in r ==> s.bucket == job.bucket && 0.0 <= s.norm <= 1.0
    ensures forall s :: s in r ==>
              exists k :: 0 <= k < |rows| && resolve(rows[k].iso3).Some? && rows[k].year == Some(s.year)
                          && rows[k].iso3 == s.iso3 && rows[k].name == s.name
  {
    var kept := Kept(rows, resolve);
    var norm := NormScores(rows, job, resolve);
    var r := ScoredRows(kept, norm, job.bucket);
    assert forall s :: s in r <==> exists i :: ScoredAt(rows, job, resolve, i, s) by {
      forall s
        ensures s in r <==> exists i :: ScoredAt(rows, job, resolve, i, s)
      {
        if s in r {
          var i :| 0 <= i < |kept| && ScoredRow(kept[i], norm[i], job.bucket) == Some(s);
          assert ScoredAt(rows, job, resolve, i, s);
        }
        if exists i :: ScoredAt(rows, job, resolve, i, s) {
          var i :| ScoredAt(rows, job, resolve, i, s);
          assert ScoredRow(kept[i], norm[i], job.bucket) == Some(s);
        }
      }
    }
    assert forall s :: s in r ==>
              && s.bucket == job.bucket && 0.0 <= s.norm <= 1.0
              && exists k :: 0 <= k < |rows| && resolve(rows[k].iso3).Some? && rows[k].year == Some(s.year)
                             && rows[k].iso3 == s.iso3 && rows[k].name == s.name by {
      forall s | s in r
        ensures && s.bucket == job.bucket && 0.0 <= s.norm <= 1.0
                && exists k :: 0 <= k < |rows| && resolve(rows[k].iso3).Some? && rows[k].year == Some(s.year)
                               && rows[k].iso3 == s.iso3 && rows[k].name == s.name
      {
        var i :| 0 <= i < |kept| && ScoredRow(kept[i], norm[i], job.bucket) == Some(s);
        assert kept[i] in kept;
        var k :| 0 <= k < |rows| && rows[k] == kept[i];
      }
    }
    r
  }

  /** The positions of the recognised rows that score to `s`. */
  function ScoredPositions(rows: seq<TidyRow>, job: Job, resolve: Resolver, s: Scored): set<int> {
    set i | 0 <= i < |Kept(rows, resolve)| && ScoredAt(rows, job, resolve, i, s)
  }

  /** The pass keeps every surviving row once, not merely its value: `s`
      occurs in the result as many times as there are recognised rows that
      score to it, so repeats weigh in the bucket mean as they do in the
      `groupby` mean. */
  lemma PrepareIndicatorCounts(rows: seq<TidyRow>, job: Job, resolve: Resolver, s: Scored)
    ensures Occurrences(PrepareIndicator(rows, job, resolve), s) == |ScoredPositions(rows, job, resolve, s)|
  {
    var kept := Kept(rows, resolve);
    var norm := NormScores(rows, job, resolve);
    var cand := ScoreCandidates(kept, norm, job.bucket);
    assert PrepareIndicator(rows, job, resolve) == Somes(cand);
    OccurrencesSomes(cand, s);
    OccurrencesArePositions(cand, Some(s));
    forall i | 0 <= i < |cand|
      ensures cand[i] == Some(s) <==> ScoredAt(rows, job, resolve, i, s)
    {
      assert cand[i] == ScoredRow(kept[i], norm[i], job.bucket);
    }
    assert Positions(cand, Some(s)) == ScoredPositions(rows, job, resolve, s);
  }

  /** Rows with an unrecognised country take no part, not even in the
      min-max range: the result is the same as for the recognised rows alone. */
  lemma UnrecognisedRowsAreIgnored(rows: seq<TidyRow>, job: Job, resolve: Resolver)
    ensures PrepareIndicator(rows, job, resolve)
            == PrepareIndicator(Filter(rows, Recognised(resolve)), job, resolve)
  {
    FilterIdempotent(rows, Recognised(resolve));
  }

  /** When the recognised rows have at most one distinct score, every one of
      them that has a year survives with score 0, even when its own value
      is null. */
  lemma FlatIndicatorScoresZero(rows: seq<TidyRow>, job: Job, resolve: Resolver, r: TidyRow)
    requires Flat(RawScores(Filter(rows, Recognised(resolve)), job.indicator))
    requires r in rows && resolve(r.iso3).Some? && r.year.Some?
    ensures Scored(r.iso3, r.name, r.year.value, job.bucket, 0.0) in PrepareIndicator(rows, job, resolve)
  {
    var kept := Filter(rows, Recognised(resolve));
    var norm := NormalizeSeries(RawScores(kept, job.indicator), true);
    assert r in kept;
    var i :| 0 <= i < |kept| && kept[i] == r;
    assert norm[i] == Some(0.0);
    assert ScoredRow(kept[i], norm[i], job.bucket) == Some(Scored(r.iso3, r.name, r.year.value, job.bucket, 0.0));
  }

  /** `load_interim` found a non-empty table (`df.empty` is false). */
  predicate Loaded(interim: Interim, indicator: string) {
    interim(indicator).Some? && |interim(indicator).value| > 0
  }

  datatype BuildError =
      /** No indicator table could be loaded ("Did you run harmonize?"). */
    | NoIndicators
      /** No country-year has two buckets ("No country-years with minimum coverage"). */
    | NoCoverage

  /** The frames of the loop, one per job; a job whose table is missing or
      empty contributes nothing. */
  function PreparedFrames(interim: Interim, resolve: Resolver, jobs: seq<Job>): (frames: seq<seq<Scored>>)
    ensures |frames| == |jobs|
    ensures forall k :: 0 <= k < |jobs| ==> !Loaded(interim, jobs[k].indicator) ==> frames[k] == []
    ensures forall k, s :: 0 <= k < |jobs| && s in frames[k] ==> s.bucket == jobs[k].bucket && 0.0 <= s.norm <= 1.0
  {
    seq(|jobs|, k requires 0 <= k < |jobs| =>
      if Loaded(interim, jobs[k].indicator) then PrepareIndicator(interim(jobs[k].indicator).value, jobs[k], resolve)
      else [])
  }

  /** `s` is a row the loop body produces for job `j`, whose table loaded. */
  predicate PreparedBy(interim: Interim, resolve: Resolver, j: Job, s: Scored) {
    Loaded(interim, j.indicator) && s in PrepareIndicator(interim(j.indicator).value, j, resolve)
  }

  /** The concatenated frames hold exactly the rows some job produces. */
  lemma PreparedRows(interim: Interim, resolve: Resolver, jobs: seq<Job>)
    ensures forall s :: s in Flatten(PreparedFrames(interim, resolve, jobs)) <==>
              exists j :: j in jobs && PreparedBy(interim, resolve, j, s)
  {
    var frames := PreparedFrames(interim, resolve, jobs);
    forall s
      ensures s in Flatten(frames) <==> exists j :: j in jobs && PreparedBy(interim, resolve, j, s)
    {
      if s in Flatten(frames) {
        var k :| 0 <= k < |frames| && s in frames[k];
        assert jobs[k] in jobs && PreparedBy(interim, resolve, jobs[k], s);
      }
      if exists j :: j in jobs && PreparedBy(interim, resolve, j, s) {
        var j :| j in jobs && PreparedBy(interim, resolve, j, s);
        var k :| 0 <= k < |jobs| && jobs[k] == j;
        assert s in frames[k];
      }
    }
  }

  /** The loop and `pd.concat` of `main`: an error when no indicator loaded. */
  function Prepare(interim: Interim, resolve: Resolver): (r: Result<seq<Scored>, BuildError>)
    ensures r.Err? <==> forall j :: j in Jobs() ==> !Loaded(interim, j.indicator)
    ensures r.Err? ==> r.error == NoIndicators
    ensures r.Ok? ==> forall s :: s in r.value ==> s.bucket in BucketNames() && 0.0 <= s.norm <= 1.0
  {
    var jobs := Jobs();
    if forall j :: j in jobs ==> !Loaded(interim, j.indicator) then Err(NoIndicators)
    else
      var frames := PreparedFrames(interim, resolve, jobs);
      var all := Flatten(frames);
      assert forall s :: s in all ==> s.bucket in BucketNames() && 0.0 <= s.norm <= 1.0 by {
        forall s | s in all
          ensures s.bucket in BucketNames() && 0.0 <= s.norm <= 1.0
        {
          var k :| 0 <= k < |frames| && s in frames[k];
          assert jobs[k] in jobs;
        }
      }
      Ok(all)
  }

  /** What the loop collects: exactly the rows that some job's pass of the
      loop body keeps from its loaded table. */
  lemma PrepareCollectsJobs(interim: Interim, resolve: Resolver)
    ensures Prepare(interim, resolve).Ok? ==>
              forall s :: s in Prepare(interim, resolve).value <==> exists j :: j in Jobs() && PreparedBy(interim, resolve, j, s)
    ensures Prepare(interim, resolve).Ok? ==>
              forall s :: Occurrences(Prepare(interim, resolve).value, s) == YieldFrom(interim, resolve, Jobs(), s, 0)
  {
    var jobs := Jobs();
    PreparedRows(interim, resolve, jobs);
    if Prepare(interim, resolve).Ok? {
      var frames := PreparedFrames(interim, resolve, jobs);
      forall s
        ensures Occurrences(Prepare(interim, resolve).value, s) == YieldFrom(interim, resolve, jobs, s, 0)
      {
        assert frames[0..] == frames;
        OccurrencesFlatten(frames, s, 0);
        PreparedCounts(interim, resolve, jobs, s, 0);
      }
    }
  }

  /** How many rows equal to `s` job `j` contributes: the recognised rows
      of its loaded table that score to `s`, and none when it did not load. */
  function JobYield(interim: Interim, resolve: Resolver, j: Job, s: Scored): nat {
    if Loaded(interim, j.indicator) then |ScoredPositions(interim(j.indicator).value, j, resolve, s)| else 0
  }

  /** The yields of jobs `i` onwards, summed. */
  function YieldFrom(interim: Interim, resolve: Resolver, jobs: seq<Job>, s: Scored, i: nat): nat
    requires i <= |jobs|
    decreases |jobs| - i
  {
    if i == |jobs| then 0 else JobYield(interim, resolve, jobs[i], s) + YieldFrom(interim, resolve, jobs, s, i + 1)
  }

  /** Each frame holds its job's yield of `s`, so the frames from `i` on
      hold the summed yields. */
  lemma {:induction false} PreparedCounts(interim: Interim, resolve: Resolver, jobs: seq<Job>, s: Scored, i: nat)
    requires i <= |jobs|
    ensures OccurrencesFrom(PreparedFrames(interim, resolve, jobs), s, i) == YieldFrom(interim, resolve, jobs, s, i)
    decreases |jobs| - i
  {
    if i < |jobs| {
      var frames := PreparedFrames(interim, resolve, jobs);
      PreparedCounts(interim, resolve, jobs, s, i + 1);
      if Loaded(interim, jobs[i].indicator) {
        assert frames[i] == PrepareIndicator(interim(jobs[i].indicator).value, jobs[i], resolve);
        PrepareIndicatorCounts(interim(jobs[i].indicator).value, jobs[i], resolve, s);
      } else {
        assert frames[i] == [];
      }
    }
  }

  /** `(year >= 2015) & (year <= 2024)`. */
  function InSdgEra(s: Scored): bool {
    2015.0 <= s.year <= 2024.0
  }

  /** The grouping key (country code, country name, year). */
  datatype CountryYear = CountryYear(iso3: Cell, name: Cell, year: real)

  function KeyOf(s: Scored): CountryYear {
    CountryYear(s.iso3, s.name, s.year)
  }

  /** `groupby` drops rows whose key has a null cell. */
  predicate Groupable(s: Scored) {
    s.iso3 != Missing && s.name != Missing
  }

  /** The rows of one country-year. */
  function InKey(k: CountryYear): Scored -> bool {
    (s: Scored) => Groupable(s) && KeyOf(s) == k
  }

  /** The rows of one (country-year, bucket) group. */
  function InGroup(k: CountryYear, b: string): Scored -> bool {
    (s: Scored) => Groupable(s) && KeyOf(s) == k && s.bucket == b
  }

  function Buckets(rows: seq<Scored>): (bs: seq<string>)
    ensures |bs| == |rows|
    ensures forall b :: b in bs <==> exists s :: s in rows && s.bucket == b
  {
    var bs := seq(|rows|, i requires 0 <= i < |rows| => rows[i].bucket);
    assert forall s :: s in rows ==> s.bucket in bs by {
      forall s | s in rows
        ensures s.bucket in bs
      {
        var i :| 0 <= i < |rows| && rows[i] == s;
        assert bs[i] == s.bucket;
      }
    }
    bs
  }

  function Norms(rows: seq<Scored>): (ns: seq<real>)
    ensures |ns| == |rows|
  {
    seq(|rows|, i requires 0 <= i < |rows| => rows[i].norm)
  }

  /** The country-years that survive grouping. */
  function Keys(rows: seq<Scored>): set<CountryYear> {
    set s | s in rows && Groupable(s) :: KeyOf(s)
  }

  /** The distinct buckets of a country-year, in order of first appearance. */
  function BucketsPresent(rows: seq<Scored>, k: CountryYear): (bs: seq<string>)
    ensures Distinct(bs)
    ensures forall b :: b in bs <==> exists s :: s in rows && InKey(k)(s) && s.bucket == b
  {
    Dedup(Buckets(Filter(rows, InKey(k))))
  }

  /** `n_buckets`: the `nunique` of the bucket column within a country-year,
      counted as the size of the set of buckets it has rows in. */
  lemma BucketCountIsNunique(rows: seq<Scored>, k: CountryYear)
    ensures |BucketsPresent(rows, k)| == |set s | s in rows && InKey(k)(s) :: s.bucket|
  {
    var bs := BucketsPresent(rows, k);
    DistinctCardinality(bs);
    assert (set b | b in bs) == (set s | s in rows && InKey(k)(s) :: s.bucket);
  }

  /** `n_buckets` of a country-year: how many distinct buckets it has rows in. */
  function BucketCount(rows: seq<Scored>, k: CountryYear): nat {
    |set s | s in rows && InKey(k)(s) :: s.bucket|
  }

  /** `bucket_score`: the mean normalised score of a (country-year, bucket)
      group; it lies between the group's smallest and largest score. */
  function BucketScore(rows: seq<Scored>, k: CountryYear, b: string): (score: real)
    requires b in BucketsPresent(rows, k)
    ensures exists s :: s in rows && InGroup(k, b)(s) && s.norm <= score
    ensures exists s :: s in rows && InGroup(k, b)(s) && score <= s.norm
  {
    var group := Filter(rows, InGroup(k, b));
    var s0 :| s0 in rows && InKey(k)(s0) && s0.bucket == b;
    assert s0 in group;
    var ns := Norms(group);
    var m := Mean(ns);
    assert Min(ns) in ns && Max(ns) in ns;
    var lo :| 0 <= lo < |ns| && ns[lo] == Min(ns);
    var hi :| 0 <= hi < |ns| && ns[hi] == Max(ns);
    assert group[lo] in group && group[hi] in group;
    m
  }

  /** The score of every bucket a country-year has, in `BucketsPresent` order. */
  function BucketScores(rows: seq<Scored>, k: CountryYear): (scores: seq<real>)
    ensures |scores| == |BucketsPresent(rows, k)|
  {
    var bs := BucketsPresent(rows, k);
    seq(|bs|, i requires 0 <= i < |bs| => BucketScore(rows, k, bs[i]))
  }

  /** `present["weight"] = present["bucket"].map(WEIGHTS)`. */
  function BucketWeights(rows: seq<Scored>, k: CountryYear): (ws: seq<real>)
    requires forall s :: s in rows ==> s.bucket in BucketNames()
    ensures |ws| == |BucketsPresent(rows, k)|
    ensures forall i :: 0 <= i < |ws| ==> ws[i] == 1.0 / 6.0
  {
    WeightsAreEqualShares();
    var bs := BucketsPresent(rows, k);
    assert forall i :: 0 <= i < |bs| ==> bs[i] in WEIGHTS by {
      forall i | 0 <= i < |bs|
        ensures bs[i] in WEIGHTS
      {
        assert bs[i] in bs;
      }
    }
    seq(|bs|, i requires 0 <= i < |bs| => WEIGHTS[bs[i]])
  }

  /** `np.average(bucket_score, weights=weight)` of one country-year. */
  function CountryYearIndex(rows: seq<Scored>, k: CountryYear): (x: real)
    requires forall s :: s in rows ==> s.bucket in BucketNames()
    requires |BucketsPresent(rows, k)| > 0
    ensures Min(BucketScores(rows, k)) <= x <= Max(BucketScores(rows, k))
  {
    WeightedMean(BucketWeights(rows, k), BucketScores(rows, k))
  }

  /** The coverage gate and the weighted mean: one entry per country-year
      with at least two distinct buckets. */
  function IndexTable(rows: seq<Scored>): (m: map<CountryYear, real>)
    requires forall s :: s in rows ==> s.bucket in BucketNames()
    ensures forall k :: k in m <==> k in Keys(rows) && BucketCount(rows, k) >= 2
    ensures forall k :: k in m ==> Min(BucketScores(rows, k)) <= m[k] <= Max(BucketScores(rows, k))
  {
    assert forall k :: k in Keys(rows) ==> |BucketsPresent(rows, k)| == |set s | s in rows && InKey(k)(s) :: s.bucket| by {
      forall k | k in Keys(rows)
        ensures |BucketsPresent(rows, k)| == |set s | s in rows && InKey(k)(s) :: s.bucket|
      {
        BucketCountIsNunique(rows, k);
      }
    }
    map k | k in Keys(rows) && |BucketsPresent(rows, k)| >= 2 :: CountryYearIndex(rows, k)
  }

  /** The weights are equal, so the index of a country-year is the plain
      mean of its bucket scores. */
  lemma IndexIsMeanOfBucketScores(rows: seq<Scored>, k: CountryYear)
    requires forall s :: s in rows ==> s.bucket in BucketNames()
    requires k in IndexTable(rows)
    ensures IndexTable(rows)[k] == Mean(BucketScores(rows, k))
  {
    EqualWeightsGiveMean(BucketWeights(rows, k), BucketScores(rows, k), 1.0 / 6.0);
  }

  /** Scores in [0, 1] give bucket scores in [0, 1]. */
  lemma BucketScoresInUnitRange(rows: seq<Scored>, k: CountryYear)
    requires forall s :: s in rows ==> 0.0 <= s.norm <= 1.0
    ensures forall i :: 0 <= i < |BucketScores(rows, k)| ==> 0.0 <= BucketScores(rows, k)[i] <= 1.0
  {
    var bs := BucketsPresent(rows, k);
    var scores := BucketScores(rows, k);
    forall i | 0 <= i < |scores|
      ensures 0.0 <= scores[i] <= 1.0
    {
      assert scores[i] == BucketScore(rows, k, bs[i]);
    }
  }

  /** Scores in [0, 1] give an index in [0, 1]. */
  lemma IndexInUnitRange(rows: seq<Scored>, k: CountryYear)
    requires forall s :: s in rows ==> s.bucket in BucketNames() && 0.0 <= s.norm <= 1.0
    requires k in IndexTable(rows)
    ensures 0.0 <= IndexTable(rows)[k] <= 1.0
  {
    var scores := BucketScores(rows, k);
    BucketScoresInUnitRange(rows, k);
    assert Min(scores) in scores && Max(scores) in scores;
    assert 0.0 <= Min(scores) && Max(scores) <= 1.0;
  }

  /** Every country-year a table of windowed rows can hold lies in the window. */
  lemma WindowedKeys(scored: seq<Scored>, k: CountryYear)
    requires k in Keys(Windowed(scored))
    ensures 2015.0 <= k.year <= 2024.0
  {
    var s :| s in Windowed(scored) && Groupable(s) && KeyOf(s) == k;
  }

  /** The table built from prepared rows holds only SDG-era country-years,
      each with an index in [0, 1]. */
  lemma WindowedTableFacts(scored: seq<Scored>)
    requires forall s :: s in scored ==> s.bucket in BucketNames() && 0.0 <= s.norm <= 1.0
    ensures forall s :: s in Windowed(scored) ==> s.bucket in BucketNames()
    ensures forall k :: k in IndexTable(Windowed(scored)) ==>
              2015.0 <= k.year <= 2024.0 && 0.0 <= IndexTable(Windowed(scored))[k] <= 1.0
  {
    var windowed := Windowed(scored);
    forall k | k in IndexTable(windowed)
      ensures 2015.0 <= k.year <= 2024.0 && 0.0 <= IndexTable(windowed)[k] <= 1.0
    {
      WindowedKeys(scored, k);
      IndexInUnitRange(windowed, k);
    }
  }

  /** With equal weights every entry of the table is the plain mean of
      its country-year's bucket scores. */
  lemma TableIsMeans(rows: seq<Scored>)
    requires forall s :: s in rows ==> s.bucket in BucketNames()
    ensures forall k :: k in IndexTable(rows) ==> IndexTable(rows)[k] == Mean(BucketScores(rows, k))
  {
    forall k | k in IndexTable(rows)
      ensures IndexTable(rows)[k] == Mean(BucketScores(rows, k))
    {
      IndexIsMeanOfBucketScores(rows, k);
    }
  }

  /** The table is empty exactly when no country-year has two buckets. */
  lemma EmptyTable(rows: seq<Scored>)
    requires forall s :: s in rows ==> s.bucket in BucketNames()
    ensures |IndexTable(rows)| == 0 <==> forall k :: k in Keys(rows) ==> BucketCount(rows, k) < 2
  {
    var table := IndexTable(rows);
    if |table| > 0 {
      var k :| k in table;
    } else {
      assert table == map[];
    }
  }

  /** The rows of the SDG era. */
  function Windowed(scored: seq<Scored>): (w: seq<Scored>)
    ensures forall s :: s in w <==> s in scored && 2015.0 <= s.year <= 2024.0
  {
    Filter(scored, InSdgEra)
  }

  /** `main` without its file output: the index per country-year, or why
      nothing is written. */
  function BuildIndex(interim: Interim, resolve: Resolver): (r: Result<map<CountryYear, real>, BuildError>)
    ensures r.Err? && r.error == NoIndicators <==> forall j :: j in Jobs() ==> !Loaded(interim, j.indicator)
    ensures r.Ok? ==> |r.value| > 0
    ensures r.Ok? ==> forall k :: k in r.value ==> 2015.0 <= k.year <= 2024.0 && 0.0 <= r.value[k] <= 1.0
  {
    var prepared := Prepare(interim, resolve);
    if prepared.Err? then Err(prepared.error) else Aggregate(prepared.value)
  }

  /** The SDG-era window, the aggregation and the gate of `main`; an empty
      table is not written. */
  function Aggregate(scored: seq<Scored>): (r: Result<map<CountryYear, real>, BuildError>)
    requires forall s :: s in scored ==> s.bucket in BucketNames() && 0.0 <= s.norm <= 1.0
    ensures r.Err? ==> r.error == NoCoverage
    ensures r.Ok? ==> |r.value| > 0
    ensures r.Ok? ==> forall k :: k in r.value ==> 2015.0 <= k.year <= 2024.0 && 0.0 <= r.value[k] <= 1.0
  {
    WindowedTableFacts(scored);
    var table := IndexTable(Windowed(scored));
    if |table| == 0 then Err(NoCoverage) else Ok(table)
  }

  /** The gate of `main`: nothing is written exactly when no SDG-era
      country-year has two buckets. */
  lemma AggregateGate(scored: seq<Scored>)
    requires forall s :: s in scored ==> s.bucket in BucketNames() && 0.0 <= s.norm <= 1.0
    ensures Aggregate(scored).Err? <==> forall k :: k in Keys(Windowed(scored)) ==> BucketCount(Windowed(scored), k) < 2
  {
    WindowedTableFacts(scored);
    EmptyTable(Windowed(scored));
  }

  /** The written table holds exactly the SDG-era country-years with at
      least two buckets. */
  lemma AggregateKeys(scored: seq<Scored>)
    requires forall s :: s in scored ==> s.bucket in BucketNames() && 0.0 <= s.norm <= 1.0
    ensures Aggregate(scored).Ok? ==>
              forall k :: k in Aggregate(scored).value <==> k in Keys(Windowed(scored)) && BucketCount(Windowed(scored), k) >= 2
  {
    WindowedTableFacts(scored);
    var table := IndexTable(Windowed(scored));
    if Aggregate(scored).Ok? {
      assert Aggregate(scored).value == table;
    }
  }

  /** Every written index is the mean of its country-year's bucket scores,
      of which there are at least two. */
  lemma AggregateMeans(scored: seq<Scored>)
    requires forall s :: s in scored ==> s.bucket in BucketNames() && 0.0 <= s.norm <= 1.0
    ensures Aggregate(scored).Ok? ==>
              forall k :: k in Aggregate(scored).value ==>
                |BucketsPresent(Windowed(scored), k)| >= 2
                && Aggregate(scored).value[k] == Mean(BucketScores(Windowed(scored), k))
  {
    var w := Windowed(scored);
    WindowedTableFacts(scored);
    var table := IndexTable(w);
    TableIsMeans(w);
    forall k | k in table
      ensures |BucketsPresent(w, k)| >= 2
    {
      BucketCountIsNunique(w, k);
    }
    if Aggregate(scored).Ok? {
      assert Aggregate(scored).value == table;
    }
  }

  /** End to end: "no coverage" exactly when some indicator loaded but no
      SDG-era country-year of the prepared rows has two buckets. */
  lemma BuildIndexGate(interim: Interim, resolve: Resolver)
    ensures BuildIndex(interim, resolve).Err? && BuildIndex(interim, resolve).error == NoCoverage <==>
              Prepare(interim, resolve).Ok?
              && forall k :: k in Keys(Windowed(Prepare(interim, resolve).value)) ==>
                   BucketCount(Windowed(Prepare(interim, resolve).value), k) < 2
  {
    var prepared := Prepare(interim, resolve);
    if prepared.Ok? {
      assert BuildIndex(interim, resolve) == Aggregate(prepared.value);
      AggregateGate(prepared.value);
    } else {
      assert BuildIndex(interim, resolve) == Err(NoIndicators);
    }
  }

  /** End to end: the index holds exactly the SDG-era country-years of the
      prepared rows with at least two buckets. */
  lemma BuildIndexKeys(interim: Interim, resolve: Resolver)
    ensures BuildIndex(interim, resolve).Ok? ==>
              && Prepare(interim, resolve).Ok?
              && forall k :: k in BuildIndex(interim, resolve).value <==>
                   k in Keys(Windowed(Prepare(interim, resolve).value))
                   && BucketCount(Windowed(Prepare(interim, resolve).value), k) >= 2
  {
    var prepared := Prepare(interim, resolve);
    if prepared.Ok? {
      assert BuildIndex(interim, resolve) == Aggregate(prepared.value);
      AggregateKeys(prepared.value);
    }
  }

  /** End to end: every index is the mean of the bucket scores of its
      country-year among the prepared SDG-era rows. */
  lemma BuildIndexMeans(interim: Interim, resolve: Resolver)
    ensures BuildIndex(interim, resolve).Ok? ==>
              && Prepare(interim, resolve).Ok?
              && forall k :: k in BuildIndex(interim, resolve).value ==>
                   |BucketsPresent(Windowed(Prepare(interim, resolve).value), k)| >= 2
                   && BuildIndex(interim, resolve).value[k] == Mean(BucketScores(Windowed(Prepare(interim, resolve).value), k))
  {
    var prepared := Prepare(interim, resolve);
    if prepared.Ok? {
      assert BuildIndex(interim, resolve) == Aggregate(prepared.value);
      AggregateMeans(prepared.value);
    }
  }
}
