/** Raw tables as a reader delivers them: labelled columns and rows of cells,
    with column lookup (`_col`) and the wide-to-long reshape (`melt`). */
module Frames {
  import opened Wrappers
  import opened Cells

  /** A table: column labels and rows of cells. */
  datatype Frame = Frame(columns: seq<string>, rows: seq<seq<Cell>>)

  /** Every row has one cell per column, as in any table pandas reads. */
  predicate Rectangular(f: Frame) {
    forall i :: 0 <= i < |f.rows| ==> |f.rows[i]| == |f.columns|
  }

  type Table = f: Frame | Rectangular(f) witness Frame([], [])

  /** The first position of `c` among `labels`. */
  function Position(labels: seq<string>, c: string): (k: nat)
    requires c in labels
    ensures k < |labels| && labels[k] == c && c !in labels[..k]
    decreases |labels|
  {
    if labels[0] == c then 0
    else
      var k := Position(labels[1..], c);
      assert labels[..k + 1] == [labels[0]] + labels[1..][..k];
      k + 1
  }

  /** The cell of row `i` in column `c` (`df[c]` at row `i`). */
  function At(t: Table, i: nat, c: string): Cell
    requires i < |t.rows| && c in t.columns
  {
    t.rows[i][Position(t.columns, c)]
  }

  /** `_col`: the first of `options`, in the order given, that names a column;
      `None` when none does. */
  function FirstColumn(columns: seq<string>, options: seq<string>): (r: Option<string>)
    ensures r.Some? ==> r.value in options && r.value in columns
    ensures r.Some? ==> forall k :: 0 <= k < Position(options, r.value) ==> options[k] !in columns
    ensures r.None? <==> forall o :: o in options ==> o !in columns
    decreases |options|
  {
    if |options| == 0 then None
    else if options[0] in columns then Some(options[0])
    else
      var r := FirstColumn(columns, options[1..]);
      if r.Some? then
        assert options[1..][Position(options[1..], r.value)] == r.value;
        Some(r.value)
      else
        r
  }

  /** `_col` only looks at the candidates: two column lists that agree on
      which candidates they contain give the same answer. */
  lemma {:induction false} FirstColumnOnlyCandidatesMatter(a: seq<string>, b: seq<string>, options: seq<string>)
    requires forall o :: o in options ==> (o in a <==> o in b)
    ensures FirstColumn(a, options) == FirstColumn(b, options)
    decreases |options|
  {
    if |options| > 0 {
      FirstColumnOnlyCandidatesMatter(a, b, options[1..]);
    }
  }

  /** The cells of row `i` in the columns `labels`, in that order. */
  function Project(t: Table, i: nat, labels: seq<string>): (r: seq<Cell>)
    requires i < |t.rows|
    requires forall c :: c in labels ==> c in t.columns
    ensures |r| == |labels|
    ensures forall k :: 0 <= k < |labels| ==> r[k] == At(t, i, labels[k])
  {
    seq(|labels|, k requires 0 <= k < |labels| => At(t, i, labels[k]))
  }

  /** One row of a melted table: the identifier cells, the name of the
      melted column, and the cell found there. */
  datatype MeltRow = MeltRow(ids: seq<Cell>, variable: string, value: Cell)

  /** The position, in a melted table, of input row `i` under the `j`-th
      melted column, when the input has `n` rows. */
  function Offset(j: nat, i: nat, n: nat): nat {
    j * n + i
  }

  lemma OffsetBound(j: nat, i: nat, n: nat, m: nat)
    requires j < m && i < n
    ensures Offset(j, i, n) < m * n
  {
    assert (j + 1) * n <= m * n by {
      assert j + 1 <= m;
    }
  }

  /** The block of a melted table contributed by one melted column. */
  function MeltColumn(t: Table, idCols: seq<string>, v: string): (r: seq<MeltRow>)
    requires forall c :: c in idCols ==> c in t.columns
    requires v in t.columns
    ensures |r| == |t.rows|
    ensures forall row :: row in r ==> |row.ids| == |idCols|
  {
    seq(|t.rows|, i requires 0 <= i < |t.rows| => MeltRow(Project(t, i, idCols), v, At(t, i, v)))
  }

  /** `DataFrame.melt(id_vars=idCols, value_vars=valueCols)`: the melted
      columns one after another, each contributing one row per input row. */
  function Melt(t: Table, idCols: seq<string>, valueCols: seq<string>): (r: seq<MeltRow>)
    requires forall c :: c in idCols ==> c in t.columns
    requires forall c :: c in valueCols ==> c in t.columns
    ensures |r| == |valueCols| * |t.rows|
    ensures forall row :: row in r ==> |row.ids| == |idCols|
    decreases |valueCols|
  {
    if |valueCols| == 0 then []
    else
      var rest := Melt(t, idCols, valueCols[1..]);
      assert |rest| == (|valueCols| - 1) * |t.rows|;
      MeltColumn(t, idCols, valueCols[0]) + rest
  }

  /** Row `i` of the input appears under the `j`-th melted column at
      `Offset(j, i, n)`, carrying its identifier cells and that column's cell. */
  lemma {:induction false} MeltAt(t: Table, idCols: seq<string>, valueCols: seq<string>, j: nat, i: nat)
    requires forall c :: c in idCols ==> c in t.columns
    requires forall c :: c in valueCols ==> c in t.columns
    requires j < |valueCols| && i < |t.rows|
    ensures Offset(j, i, |t.rows|) < |Melt(t, idCols, valueCols)|
    ensures Melt(t, idCols, valueCols)[Offset(j, i, |t.rows|)]
            == MeltRow(Project(t, i, idCols), valueCols[j], At(t, i, valueCols[j]))
    decreases |valueCols|
  {
    var n := |t.rows|;
    OffsetBound(j, i, n, |valueCols|);
    var first := MeltColumn(t, idCols, valueCols[0]);
    var rest := Melt(t, idCols, valueCols[1..]);
    assert Melt(t, idCols, valueCols) == first + rest;
    if j > 0 {
      MeltAt(t, idCols, valueCols[1..], j - 1, i);
      assert Offset(j, i, n) == n + Offset(j - 1, i, n) by {
        assert j * n == n + (j - 1) * n;
      }
    }
  }
}
