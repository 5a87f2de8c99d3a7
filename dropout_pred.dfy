/** The decision logic of `dropout_pred` (concise/effects/dropout.py:101-176):
    input validation, the choice of output channels and their labels, the
    per-cell choice between the forward and the reverse-complement orientation,
    the merge of every statistic table by that choice, and the difference table.

    Building the always-on model, the repeated predictions and the statistics
    (paired t-test, means, variances, coefficients of variation) are one
    collaborator here, `measure`: given the channel mask, it returns the
    forward and the reverse-complement statistic tables. */
module DropoutPred {
  import opened Matrices

  /** Why `dropout_pred` stops before any model is built or run. */
  datatype Failure =
    | BatchShapeMismatch          // line 107: a batch is not shaped like `ref`
    | PositionCountMismatch       // line 108: not one mutation position per row of `ref`
    | PositionsNotOneDimensional  // line 109
    | ChannelIndexOutOfRange      // line 119: numpy rejects an index of the channel mask

  datatype Result<T> = Ok(value: T) | Err(failure: Failure)

  /** numpy shapes of the four input batches and of `mutation_positions`. */
  datatype Shapes = Shapes(ref: seq<nat>, refRc: seq<nat>, alt: seq<nat>, altRc: seq<nat>, positions: seq<nat>)

  /** The number of rows (sequences) of the batches; 0 for a shapeless `ref`. */
  function BatchRows(s: Shapes): nat {
    if |s.ref| > 0 then s.ref[0] else 0
  }

  /** Lines 107-109: the batches all have `ref`'s shape, and `mutation_positions`
      is one-dimensional with one entry per row. The checks run in source order,
      so the first one violated names the failure. */
  function ValidateInputs(s: Shapes): (r: Result<nat>)
    ensures r.Ok? <==> s.refRc == s.ref && s.alt == s.ref && s.altRc == s.ref &&
                       |s.ref| > 0 && s.positions == [s.ref[0]]
    ensures r.Ok? ==> r.value == BatchRows(s)
    ensures r == Err(BatchShapeMismatch) <==> !(s.refRc == s.ref && s.alt == s.ref && s.altRc == s.ref)
    ensures r == Err(PositionsNotOneDimensional) ==> |s.positions| > 1 && s.positions[0] == BatchRows(s)
  {
    if s.refRc != s.ref || s.alt != s.ref || s.altRc != s.ref then Err(BatchShapeMismatch)
    else if |s.ref| == 0 || |s.positions| == 0 || s.positions[0] != s.ref[0] then Err(PositionCountMismatch)
    else if |s.positions| != 1 then Err(PositionsNotOneDimensional)
    else Ok(s.ref[0])
  }

  /** The output channels of a run: the index mask handed to the predictions and
      the column labels of every table. */
  datatype Selection = Selection(mask: seq<int>, labels: seq<string>)

  /** `np.where(np.in1d(all, wanted))[0]` restricted to indices from `i` on: every
      index whose label is among the wanted names, in increasing order. */
  function MatchingFrom(all: seq<string>, wanted: seq<string>, i: nat): (r: seq<int>)
    requires i <= |all|
    ensures forall j :: 0 <= j < |r| ==> i <= r[j] < |all| && all[r[j]] in wanted
    ensures forall j, k :: 0 <= j < k < |r| ==> r[j] < r[k]
    ensures forall x :: i <= x < |all| && all[x] in wanted ==> x in r
    decreases |all| - i
  {
    if i == |all| then []
    else if all[i] in wanted then [i] + MatchingFrom(all, wanted, i + 1)
    else MatchingFrom(all, wanted, i + 1)
  }

  /** Lines 112-119: an explicit mask wins (the wanted names are then ignored);
      otherwise the indices of the wanted names; otherwise every channel. The
      labels are always the full annotation taken at the mask. */
  function SelectChannels(all: seq<string>, filterMask: Option<seq<int>>, wanted: Option<seq<string>>)
    : (r: Result<Selection>)
    ensures r.Ok? <==> filterMask.None? || MaskInAxis(filterMask.value, |all|)
    ensures r.Err? ==> r.failure == ChannelIndexOutOfRange
    ensures r.Ok? ==> MaskInAxis(r.value.mask, |all|) && r.value.labels == Take(all, r.value.mask)
    ensures r.Ok? && filterMask.Some? ==> r.value.mask == filterMask.value
  {
    var mask :=
      if filterMask.Some? then filterMask.value
      else if wanted.None? then Range(|all|)
      else MatchingFrom(all, wanted.value, 0);
    if MaskInAxis(mask, |all|) then Ok(Selection(mask, Take(all, mask))) else Err(ChannelIndexOutOfRange)
  }

  /** With neither a mask nor names, every channel is selected and the labels are
      the full annotation. */
  lemma DefaultSelectsAll(all: seq<string>)
    ensures SelectChannels(all, None, None) == Ok(Selection(Range(|all|), all))
  {
    TakeRange(all);
  }

  /** With names and no mask, the mask lists, in increasing order, exactly the
      indices whose label is wanted, and the labels follow the annotation's order. */
  lemma WantedSelection(all: seq<string>, wanted: seq<string>)
    ensures SelectChannels(all, None, Some(wanted)).Ok?
    ensures var s := SelectChannels(all, None, Some(wanted)).value;
            (forall j, k :: 0 <= j < k < |s.mask| ==> s.mask[j] < s.mask[k]) &&
            (forall x :: 0 <= x < |all| ==> (x in s.mask <==> all[x] in wanted)) &&
            |s.labels| == |s.mask| &&
            forall j :: 0 <= j < |s.mask| ==> 0 <= s.mask[j] < |all| && s.labels[j] == all[s.mask[j]]
  {
    var m := MatchingFrom(all, wanted, 0);
    forall x | 0 <= x < |all| && x in m ensures all[x] in wanted {
      var j :| 0 <= j < |m| && m[j] == x;
    }
  }

  /** In an annotation without repeats, the only index from `i` on whose label is
      `all[k]` is `k` itself. */
  lemma {:induction false} MatchingSingle(all: seq<string>, k: nat, i: nat)
    requires k < |all| && i <= |all|
    requires forall a, b :: 0 <= a < b < |all| ==> all[a] != all[b]
    ensures MatchingFrom(all, [all[k]], i) == if i <= k then [k] else []
    decreases |all| - i
  {
    if i < |all| {
      MatchingSingle(all, k, i + 1);
      var rest := MatchingFrom(all, [all[k]], i + 1);
      if i == k {
        assert MatchingFrom(all, [all[k]], i) == [i] + rest;
      } else {
        assert all[i] != all[k] by {
          if i < k { assert all[i] != all[k]; } else { assert all[k] != all[i]; }
        }
        assert MatchingFrom(all, [all[k]], i) == rest;
      }
    }
  }

  /** The third case of tests/test_effects.py:56,71: asking for one label of an
      annotation without repeats selects exactly that channel, and the columns
      are exactly the names asked for. */
  lemma WantedSingleLabel(all: seq<string>, k: nat)
    requires k < |all|
    requires forall i, j :: 0 <= i < j < |all| ==> all[i] != all[j]
    ensures SelectChannels(all, None, Some([all[k]])) == Ok(Selection([k], [all[k]]))
  {
    MatchingSingle(all, k, 0);
    assert Take(all, [k]) == [all[k]];
  }

  /** The second case of tests/test_effects.py:55,69: the mask [0] gives the first
      label alone. */
  lemma MaskZeroSelectsFirst(all: seq<string>, wanted: Option<seq<string>>)
    requires |all| > 0
    ensures SelectChannels(all, Some([0]), wanted) == Ok(Selection([0], [all[0]]))
  {
    assert MaskInAxis([0], |all|);
    assert Take(all, [0]) == [all[0]];
  }

  function Abs(x: real): real {
    if x < 0.0 then -x else x
  }

  function Min(x: real, y: real): real {
    if x <= y then x else y
  }

  /** Line 143 (boolean meaning, see `MergeByIntSelector`): true exactly where the
      reverse-complement p-value is strictly smaller in magnitude; ties keep the
      forward orientation. */
  function Selector(p: Matrix<real>, pRc: Matrix<real>, rows: nat, cols: nat): (sel: Matrix<bool>)
    requires IsMatrix(p, rows, cols) && IsMatrix(pRc, rows, cols)
    ensures IsMatrix(sel, rows, cols)
    ensures forall r, c :: 0 <= r < rows && 0 <= c < cols ==> (sel[r][c] <==> Abs(pRc[r][c]) < Abs(p[r][c]))
  {
    seq(rows, r requires 0 <= r < rows =>
      seq(cols, c requires 0 <= c < cols => Abs(p[r][c]) > Abs(pRc[r][c])))
  }

  /** One orientation's statistic tables: p-value, reference and alternative
      means and variances, and the combined coefficient of variation. */
  datatype Stats = Stats(pv: Matrix<real>, refMean: Matrix<real>, altMean: Matrix<real>,
                         refVar: Matrix<real>, altVar: Matrix<real>, cvar: Matrix<real>)

  predicate StatsShaped(s: Stats, rows: nat, cols: nat) {
    IsMatrix(s.pv, rows, cols) && IsMatrix(s.refMean, rows, cols) && IsMatrix(s.altMean, rows, cols) &&
    IsMatrix(s.refVar, rows, cols) && IsMatrix(s.altVar, rows, cols) && IsMatrix(s.cvar, rows, cols)
  }

  /** Cell (r, c) of every table of `m` is the cell of `from`. */
  predicate CellFrom(m: Stats, from: Stats, rows: nat, cols: nat, r: nat, c: nat)
    requires StatsShaped(m, rows, cols) && StatsShaped(from, rows, cols) && r < rows && c < cols
  {
    m.pv[r][c] == from.pv[r][c] && m.refMean[r][c] == from.refMean[r][c] &&
    m.altMean[r][c] == from.altMean[r][c] && m.refVar[r][c] == from.refVar[r][c] &&
    m.altVar[r][c] == from.altVar[r][c] && m.cvar[r][c] == from.cvar[r][c]
  }

  /** Lines 143-164: the selector is computed from the two p-value tables, and
      every table is overwritten cell by cell with the reverse-complement value
      where it is set. In each cell all tables come from one orientation: the
      reverse complement exactly when its p-value is strictly smaller in magnitude. */
  function Combine(fwd: Stats, rc: Stats, rows: nat, cols: nat): (m: Stats)
    requires StatsShaped(fwd, rows, cols) && StatsShaped(rc, rows, cols)
    ensures StatsShaped(m, rows, cols)
    ensures forall r, c :: 0 <= r < rows && 0 <= c < cols ==>
              if Abs(rc.pv[r][c]) < Abs(fwd.pv[r][c]) then CellFrom(m, rc, rows, cols, r, c)
              else CellFrom(m, fwd, rows, cols, r, c)
  {
    var sel := Selector(fwd.pv, rc.pv, rows, cols);
    Stats(Merge(fwd.pv, rc.pv, sel), Merge(fwd.refMean, rc.refMean, sel), Merge(fwd.altMean, rc.altMean, sel),
          Merge(fwd.refVar, rc.refVar, sel), Merge(fwd.altVar, rc.altVar, sel), Merge(fwd.cvar, rc.cvar, sel))
  }

  /** The reported p-value is the smaller of the two in magnitude ("select the
      lower p-value"), and on a tie it is the forward one. */
  lemma CombinedPValueIsSmaller(fwd: Stats, rc: Stats, rows: nat, cols: nat, r: nat, c: nat)
    requires StatsShaped(fwd, rows, cols) && StatsShaped(rc, rows, cols) && r < rows && c < cols
    ensures Abs(Combine(fwd, rc, rows, cols).pv[r][c]) == Min(Abs(fwd.pv[r][c]), Abs(rc.pv[r][c]))
    ensures Abs(fwd.pv[r][c]) == Abs(rc.pv[r][c]) ==> Combine(fwd, rc, rows, cols).pv[r][c] == fwd.pv[r][c]
  {
    var m := Combine(fwd, rc, rows, cols);
    assert if Abs(rc.pv[r][c]) < Abs(fwd.pv[r][c]) then CellFrom(m, rc, rows, cols, r, c)
           else CellFrom(m, fwd, rows, cols, r, c);
  }

  /** Where the reverse complement is stronger in every cell, every merged table is
      the reverse-complement table. */
  lemma CombineAllReverse(fwd: Stats, rc: Stats, rows: nat, cols: nat)
    requires StatsShaped(fwd, rows, cols) && StatsShaped(rc, rows, cols)
    requires forall r, c :: 0 <= r < rows && 0 <= c < cols ==> Abs(rc.pv[r][c]) < Abs(fwd.pv[r][c])
    ensures Combine(fwd, rc, rows, cols) == rc
  {
    var m := Combine(fwd, rc, rows, cols);
    assert forall r, c :: 0 <= r < rows && 0 <= c < cols ==> CellFrom(m, rc, rows, cols, r, c);
    SameCells(m.pv, rc.pv, rows, cols);
    SameCells(m.refMean, rc.refMean, rows, cols);
    SameCells(m.altMean, rc.altMean, rows, cols);
    SameCells(m.refVar, rc.refVar, rows, cols);
    SameCells(m.altVar, rc.altVar, rows, cols);
    SameCells(m.cvar, rc.cvar, rows, cols);
  }

  /** Where the forward orientation is at least as strong in every cell, every
      merged table is the forward table. */
  lemma CombineAllForward(fwd: Stats, rc: Stats, rows: nat, cols: nat)
    requires StatsShaped(fwd, rows, cols) && StatsShaped(rc, rows, cols)
    requires forall r, c :: 0 <= r < rows && 0 <= c < cols ==> Abs(fwd.pv[r][c]) <= Abs(rc.pv[r][c])
    ensures Combine(fwd, rc, rows, cols) == fwd
  {
    var m := Combine(fwd, rc, rows, cols);
    assert forall r, c :: 0 <= r < rows && 0 <= c < cols ==> CellFrom(m, fwd, rows, cols, r, c);
    SameCells(m.pv, fwd.pv, rows, cols);
    SameCells(m.refMean, fwd.refMean, rows, cols);
    SameCells(m.altMean, fwd.altMean, rows, cols);
    SameCells(m.refVar, fwd.refVar, rows, cols);
    SameCells(m.altVar, fwd.altVar, rows, cols);
    SameCells(m.cvar, fwd.cvar, rows, cols);
  }

  /** Two tables of one shape with equal cells are equal. */
  lemma SameCells<T>(a: Matrix<T>, b: Matrix<T>, rows: nat, cols: nat)
    requires IsMatrix(a, rows, cols) && IsMatrix(b, rows, cols)
    requires forall r, c :: 0 <= r < rows && 0 <= c < cols ==> a[r][c] == b[r][c]
    ensures a == b
  {
    forall r | 0 <= r < rows ensures a[r] == b[r] {
    }
  }

  /** Line 174: the alternative mean minus the reference mean, cell by cell. */
  function Diff(altMean: Matrix<real>, refMean: Matrix<real>, rows: nat, cols: nat): (d: Matrix<real>)
    requires IsMatrix(altMean, rows, cols) && IsMatrix(refMean, rows, cols)
    ensures IsMatrix(d, rows, cols)
    ensures forall r, c :: 0 <= r < rows && 0 <= c < cols ==> d[r][c] == altMean[r][c] - refMean[r][c]
  {
    seq(rows, r requires 0 <= r < rows =>
      seq(cols, c requires 0 <= c < cols => altMean[r][c] - refMean[r][c]))
  }

  /** The merged difference never mixes orientations: in each cell it is the
      difference of means of the orientation the p-values chose. */
  lemma DiffFollowsOrientation(fwd: Stats, rc: Stats, rows: nat, cols: nat, r: nat, c: nat)
    requires StatsShaped(fwd, rows, cols) && StatsShaped(rc, rows, cols) && r < rows && c < cols
    ensures var m := Combine(fwd, rc, rows, cols);
            Diff(m.altMean, m.refMean, rows, cols)[r][c] ==
              if Abs(rc.pv[r][c]) < Abs(fwd.pv[r][c]) then rc.altMean[r][c] - rc.refMean[r][c]
              else fwd.altMean[r][c] - fwd.refMean[r][c]
  {
    var m := Combine(fwd, rc, rows, cols);
    assert if Abs(rc.pv[r][c]) < Abs(fwd.pv[r][c]) then CellFrom(m, rc, rows, cols, r, c)
           else CellFrom(m, fwd, rows, cols, r, c);
  }

  /** A labelled table: the DataFrame of one statistic. */
  datatype Table = Table(columns: seq<string>, cells: Matrix<real>)

  /** The names of the result tables (prefix "do", lines 103, 147, 166-174). */
  const ReportKeys: set<string> :=
    {"do_pv", "do_ref_mean", "do_alt_mean", "do_ref_var", "do_alt_var", "do_cvar", "do_diff"}

  /** Lines 145-176: every merged table labelled with the selected channels, and the
      difference table. */
  function Package(labels: seq<string>, m: Stats, rows: nat, cols: nat): (out: map<string, Table>)
    requires StatsShaped(m, rows, cols)
    ensures out.Keys == ReportKeys
    ensures forall k :: k in out ==> out[k].columns == labels && IsMatrix(out[k].cells, rows, cols)
    ensures out["do_pv"].cells == m.pv && out["do_cvar"].cells == m.cvar
    ensures out["do_ref_mean"].cells == m.refMean && out["do_alt_mean"].cells == m.altMean
    ensures out["do_ref_var"].cells == m.refVar && out["do_alt_var"].cells == m.altVar
    ensures out["do_diff"].cells == Diff(m.altMean, m.refMean, rows, cols)
  {
    map["do_pv" := Table(labels, m.pv),
        "do_ref_mean" := Table(labels, m.refMean), "do_alt_mean" := Table(labels, m.altMean),
        "do_ref_var" := Table(labels, m.refVar), "do_alt_var" := Table(labels, m.altVar),
        "do_cvar" := Table(labels, m.cvar),
        "do_diff" := Table(labels, Diff(m.altMean, m.refMean, rows, cols))]
  }

  /** `measure` hands back, for any channel mask, forward and reverse-complement
      tables of one row per batch row and one column per masked channel. */
  ghost predicate MeasureShaped(s: Shapes, measure: seq<int> -> (Stats, Stats)) {
    forall mask :: StatsShaped(measure(mask).0, BatchRows(s), |mask|) &&
                   StatsShaped(measure(mask).1, BatchRows(s), |mask|)
  }

  /** `dropout_pred` (lines 101-176). It fails, before anything is measured, when
      the inputs are malformed or the mask has an index numpy rejects. Otherwise it
      returns the seven tables, all labelled with the selected channels and shaped
      rows x channels; in each cell every table but the difference comes from one
      orientation (the reverse complement exactly when its p-value is strictly
      smaller in magnitude), and the difference is alt mean minus ref mean. */
  function DropoutPred(s: Shapes, all: seq<string>, filterMask: Option<seq<int>>, wanted: Option<seq<string>>,
                       measure: seq<int> -> (Stats, Stats)): (r: Result<map<string, Table>>)
    requires MeasureShaped(s, measure)
    ensures ValidateInputs(s).Err? ==> r == Err(ValidateInputs(s).failure)
    ensures r.Ok? <==> ValidateInputs(s).Ok? && SelectChannels(all, filterMask, wanted).Ok?
    ensures ValidateInputs(s).Ok? && SelectChannels(all, filterMask, wanted).Err? ==> r == Err(ChannelIndexOutOfRange)
    ensures r.Ok? ==>
      var labels := SelectChannels(all, filterMask, wanted).value.labels;
      var rows, cols := BatchRows(s), |labels|;
      r.value.Keys == ReportKeys &&
      (forall k :: k in r.value ==> r.value[k].columns == labels && IsMatrix(r.value[k].cells, rows, cols)) &&
      forall i, c :: 0 <= i < rows && 0 <= c < cols ==>
        r.value["do_diff"].cells[i][c] == r.value["do_alt_mean"].cells[i][c] - r.value["do_ref_mean"].cells[i][c]
    ensures r.Ok? ==>
      var sel := SelectChannels(all, filterMask, wanted).value;
      var rows, cols := BatchRows(s), |sel.mask|;
      var fwd, rc := measure(sel.mask).0, measure(sel.mask).1;
      var pick := Stats(r.value["do_pv"].cells, r.value["do_ref_mean"].cells, r.value["do_alt_mean"].cells,
                        r.value["do_ref_var"].cells, r.value["do_alt_var"].cells, r.value["do_cvar"].cells);
      StatsShaped(pick, rows, cols) &&
      forall i, c :: 0 <= i < rows && 0 <= c < cols ==>
        if Abs(rc.pv[i][c]) < Abs(fwd.pv[i][c]) then CellFrom(pick, rc, rows, cols, i, c)
        else CellFrom(pick, fwd, rows, cols, i, c)
  {
    match ValidateInputs(s)
    case Err(f) => Err(f)
    case Ok(rows) =>
      match SelectChannels(all, filterMask, wanted)
      case Err(f) => Err(f)
      case Ok(sel) =>
        var (fwd, rc) := measure(sel.mask);
        Ok(Package(sel.labels, Combine(fwd, rc, rows, |sel.mask|), rows, |sel.mask|))
  }

  /** Line 143 as written: `(|p| > |p_rc|).astype(np.int)`, 1 where the reverse
      complement wins and 0 elsewhere. */
  function IntSelector(p: Matrix<real>, pRc: Matrix<real>, rows: nat, cols: nat): (sel: Matrix<int>)
    requires IsMatrix(p, rows, cols) && IsMatrix(pRc, rows, cols)
    ensures IsMatrix(sel, rows, cols)
    ensures forall r, c :: 0 <= r < rows && 0 <= c < cols ==>
              sel[r][c] == (if Abs(pRc[r][c]) < Abs(p[r][c]) then 1 else 0)
  {
    seq(rows, r requires 0 <= r < rows =>
      seq(cols, c requires 0 <= c < cols => if Abs(p[r][c]) > Abs(pRc[r][c]) then 1 else 0))
  }

  /** Every entry of the integer selector names a row numpy accepts. */
  predicate RowNumbersInAxis(sel: Matrix<int>, rows: nat, cols: nat)
    requires IsMatrix(sel, rows, cols)
  {
    forall r, c :: 0 <= r < rows && 0 <= c < cols ==> InAxis(sel[r][c], rows)
  }

  /** `overwite_by` (line 91) as numpy runs it when the selector holds integers:
      `idx[:, c]` is then a list of row numbers, not a mask, so in column c the
      rows overwritten are the rows whose NUMBER appears in that column of the
      selector, i.e. rows 0 and 1, whichever cells were chosen. A row number the
      table does not have makes numpy raise IndexError: `None`. */
  function MergeByIntSelector(main: Matrix<real>, alt: Matrix<real>, sel: Matrix<int>, rows: nat, cols: nat)
    : (m: Option<Matrix<real>>)
    requires IsMatrix(main, rows, cols) && IsMatrix(alt, rows, cols) && IsMatrix(sel, rows, cols)
    ensures m.Some? <==> RowNumbersInAxis(sel, rows, cols)
    ensures m.Some? ==> IsMatrix(m.value, rows, cols)
    ensures m.Some? ==> forall k, c :: 0 <= k < rows && 0 <= c < cols ==>
              m.value[k][c] == if exists r :: 0 <= r < rows && Resolve(sel[r][c], rows) == k then alt[k][c] else main[k][c]
  {
    if RowNumbersInAxis(sel, rows, cols) then
      Some(seq(rows, k requires 0 <= k < rows =>
        seq(cols, c requires 0 <= c < cols =>
          if exists r :: 0 <= r < rows && Resolve(sel[r][c], rows) == k then alt[k][c] else main[k][c])))
    else None
  }

  /** With one row, a column where the reverse complement wins gets selector 1,
      a row the table does not have: numpy raises IndexError at line 91. */
  lemma OneRowReverseWinRaises(p: Matrix<real>, pRc: Matrix<real>, main: Matrix<real>, alt: Matrix<real>,
                               cols: nat, c: nat)
    requires IsMatrix(p, 1, cols) && IsMatrix(pRc, 1, cols) && IsMatrix(main, 1, cols) && IsMatrix(alt, 1, cols)
    requires c < cols && Abs(pRc[0][c]) < Abs(p[0][c])
    ensures MergeByIntSelector(main, alt, IntSelector(p, pRc, 1, cols), 1, cols) == None
  {
    var sel := IntSelector(p, pRc, 1, cols);
    assert sel[0][c] == 1 && !InAxis(sel[0][c], 1);
  }

  /** Counterexample to line 143 as written: with forward p-values [[0.5], [0.5]]
      and reverse-complement p-values [[0.1], [0.9]] only cell (0, 0) should take
      the reverse-complement value, giving [[0.1], [0.5]]; the integer selector
      [[1], [0]] names rows 1 and 0, so both are overwritten and row 1 reports the
      weaker p-value 0.9. */
  lemma IntSelectorOverwritesWrongCells()
    ensures IntSelector([[0.5], [0.5]], [[0.1], [0.9]], 2, 1) == [[1], [0]]
    ensures MergeByIntSelector([[0.5], [0.5]], [[0.1], [0.9]], [[1], [0]], 2, 1) == Some([[0.1], [0.9]])
    ensures Merge([[0.5], [0.5]], [[0.1], [0.9]], Selector([[0.5], [0.5]], [[0.1], [0.9]], 2, 1)) == [[0.1], [0.5]]
  {
    ExampleIntSelector();
    ExampleAsWritten();
    ExampleIntended();
  }

  lemma ExampleIntSelector()
    ensures IntSelector([[0.5], [0.5]], [[0.1], [0.9]], 2, 1) == [[1], [0]]
  {
    var isel := IntSelector([[0.5], [0.5]], [[0.1], [0.9]], 2, 1);
    assert isel[0][0] == 1 && isel[1][0] == 0;
    SameCells(isel, [[1], [0]], 2, 1);
  }

  lemma ExampleAsWritten()
    ensures MergeByIntSelector([[0.5], [0.5]], [[0.1], [0.9]], [[1], [0]], 2, 1) == Some([[0.1], [0.9]])
  {
    var rows: Matrix<int> := [[1], [0]];
    assert InAxis(rows[0][0], 2) && InAxis(rows[1][0], 2);
    var asWritten := MergeByIntSelector([[0.5], [0.5]], [[0.1], [0.9]], rows, 2, 1).value;
    assert Resolve(rows[1][0], 2) == 0;
    assert Resolve(rows[0][0], 2) == 1;
    assert asWritten[0][0] == 0.1 && asWritten[1][0] == 0.9;
    SameCells(asWritten, [[0.1], [0.9]], 2, 1);
  }

  lemma ExampleIntended()
    ensures Merge([[0.5], [0.5]], [[0.1], [0.9]], Selector([[0.5], [0.5]], [[0.1], [0.9]], 2, 1)) == [[0.1], [0.5]]
  {
    var sel := Selector([[0.5], [0.5]], [[0.1], [0.9]], 2, 1);
    assert sel[0][0] && !sel[1][0];
    var intended := Merge([[0.5], [0.5]], [[0.1], [0.9]], sel);
    assert intended[0][0] == 0.1 && intended[1][0] == 0.5;
    SameCells(intended, [[0.1], [0.5]], 2, 1);
  }

  /** A single-cell example: forward p-value [[0.5]] against reverse-complement
      [[0.1]] selects the reverse complement and reports [[0.1]]. */
  lemma SingleCellExample(fwd: Stats, rc: Stats)
    requires StatsShaped(fwd, 1, 1) && StatsShaped(rc, 1, 1)
    requires fwd.pv == [[0.5]] && rc.pv == [[0.1]]
    ensures Selector(fwd.pv, rc.pv, 1, 1) == [[true]]
    ensures Combine(fwd, rc, 1, 1).pv == [[0.1]]
  {
    var m := Combine(fwd, rc, 1, 1);
    assert CellFrom(m, rc, 1, 1, 0, 0);
    SameCells(m.pv, [[0.1]], 1, 1);
    SameCells(Selector(fwd.pv, rc.pv, 1, 1), [[true]], 1, 1);
  }
}
