/** The array helpers of concise/effects/dropout.py: the in-place cell-wise
    overwrite (`overwite_by`), the pick of one row out of each pair of rows
    (`subset_array_by_index`) and the repeated stochastic prediction (`pred_do`). */
module ArrayOps {
  import opened Matrices

  /** The cells of a two-dimensional array, row by row. */
  function Cells<T>(a: array2<T>): (m: Matrix<T>)
    reads a
    ensures IsMatrix(m, a.Length0, a.Length1)
  {
    seq(a.Length0, r requires 0 <= r < a.Length0 reads a =>
      seq(a.Length1, c requires 0 <= c < a.Length1 reads a => a[r, c]))
  }

  /** `overwite_by(main, alt, sel)` (lines 86-92): column by column, every cell of
      `main` whose selector is true takes `alt`'s cell; every other cell keeps its
      value, and `main` itself is returned. `sel` is the boolean mask the callers
      mean; an integer selector is the subject of `DropoutPred.MergeByIntSelector`. */
  method OverwriteBy<T>(main: array2<T>, alt: array2<T>, sel: array2<bool>) returns (result: array2<T>)
    requires main.Length0 == sel.Length0 && main.Length1 == sel.Length1
    requires alt.Length0 == sel.Length0
    requires main.Length1 <= alt.Length1
    modifies main
    ensures result == main
    ensures forall r, c :: 0 <= r < main.Length0 && 0 <= c < main.Length1 ==>
              main[r, c] == if old(sel[r, c]) then old(alt[r, c]) else old(main[r, c])
    ensures Mergeable(old(Cells(main)), old(Cells(alt)), old(Cells(sel)))
    ensures Cells(main) == Merge(old(Cells(main)), old(Cells(alt)), old(Cells(sel)))
  {
    ghost var before, source, mask := Cells(main), Cells(alt), Cells(sel);
    var rows, cols := main.Length0, main.Length1;
    for c := 0 to cols
      invariant forall r, k :: 0 <= r < rows && 0 <= k < c ==>
                  main[r, k] == if mask[r][k] then source[r][k] else before[r][k]
      invariant forall r, k :: 0 <= r < rows && c <= k < cols ==>
                  main[r, k] == before[r][k] && alt[r, k] == source[r][k] && sel[r, k] == mask[r][k]
    {
      for r := 0 to rows
        invariant forall i, k :: 0 <= i < rows && 0 <= k < c ==>
                    main[i, k] == if mask[i][k] then source[i][k] else before[i][k]
        invariant forall i :: 0 <= i < r ==>
                    main[i, c] == if mask[i][c] then source[i][c] else before[i][c]
        invariant forall i, k :: 0 <= i < rows && c <= k < cols && (k > c || i >= r) ==>
                    main[i, k] == before[i][k] && alt[i, k] == source[i][k] && sel[i, k] == mask[i][k]
      {
        if sel[r, c] {
          main[r, c] := alt[r, c];
        }
      }
    }
    result := main;
    assert Mergeable(before, source, mask);
    var after, merged := Cells(main), Merge(before, source, mask);
    forall r | 0 <= r < rows ensures after[r] == merged[r] {
    }
  }

  /** The in-file test (lines 94-98): overwriting [[1, 2], [4, 5]] from
      [[1, 8], [4, 5]] where the first is smaller changes cell (0, 1) alone, to 8. */
  method OverwriteByExample() returns (after: Matrix<int>)
    ensures after == [[1, 8], [4, 5]]
  {
    var before: Matrix<int> := [[1, 2], [4, 5]];
    var source: Matrix<int> := [[1, 8], [4, 5]];
    var a := new int[2, 2]((r, c) requires 0 <= r < 2 && 0 <= c < 2 => before[r][c]);
    var b := new int[2, 2]((r, c) requires 0 <= r < 2 && 0 <= c < 2 => source[r][c]);
    var less := new bool[2, 2]((r, c) requires 0 <= r < 2 && 0 <= c < 2 => before[r][c] < source[r][c]);
    var _ := OverwriteBy(a, b, less);
    after := [[a[0, 0], a[0, 1]], [a[1, 0], a[1, 1]]];
  }

  /** The rows of a table given as its columns, each of length `rows`. */
  function Transpose<T>(columns: seq<seq<T>>, rows: nat): (m: Matrix<T>)
    requires forall j :: 0 <= j < |columns| ==> |columns[j]| == rows
    ensures IsMatrix(m, rows, |columns|)
    ensures forall i, j :: 0 <= i < rows && 0 <= j < |columns| ==> m[i][j] == columns[j][i]
  {
    seq(rows, i requires 0 <= i < rows =>
      seq(|columns|, j requires 0 <= j < |columns| => columns[j][i]))
  }

  /** Every row `2 * i + idx[i][c]` that `subset_array_by_index` reads is a row
      numpy accepts on an axis of length `n`. */
  predicate PairIndicesInAxis(idx: Matrix<int>, cols: nat, n: nat)
    requires IsMatrix(idx, |idx|, cols)
  {
    forall i, c :: 0 <= i < |idx| && 0 <= c < cols ==> InAxis(2 * i + idx[i][c], n)
  }

  /** `subset_array_by_index(arr, idx)` (lines 77-84) on a table `arr` of `cols`
      columns and an index table `idx` of `|arr| / 2` rows (floor division, as the
      Python 2 assertion at line 79 computes it): output cell (i, c) is `arr`'s cell
      in column c of row `2 * i + idx[i][c]`. The columns are gathered one at a time
      and transposed at the end; with no columns numpy's transpose yields an empty
      one-dimensional array, modelled as the empty table. A row number outside
      `arr` makes numpy raise IndexError at line 83: `None`. */
  method SubsetByIndex<T>(arr: Matrix<T>, idx: Matrix<int>, cols: nat) returns (out: Option<Matrix<T>>)
    requires IsMatrix(arr, |arr|, cols)
    requires |arr| / 2 == |idx| && IsMatrix(idx, |idx|, cols)
    ensures out.Some? <==> PairIndicesInAxis(idx, cols, |arr|)
    ensures out.Some? && cols == 0 ==> out.value == []
    ensures out.Some? && cols > 0 ==> IsMatrix(out.value, |idx|, cols)
    ensures out.Some? && cols > 0 ==> forall i, c :: 0 <= i < |idx| && 0 <= c < cols ==>
              out.value[i][c] == arr[Resolve(2 * i + idx[i][c], |arr|)][c]
  {
    var m := |idx|;
    var columns: seq<seq<T>> := [];
    for c := 0 to cols
      invariant |columns| == c
      invariant forall i, j :: 0 <= i < m && 0 <= j < c ==> InAxis(2 * i + idx[i][j], |arr|)
      invariant forall j :: 0 <= j < c ==> |columns[j]| == m
      invariant forall j, i :: 0 <= j < c && 0 <= i < m ==>
                  columns[j][i] == arr[Resolve(2 * i + idx[i][j], |arr|)][j]
    {
      if exists i :: 0 <= i < m && !InAxis(2 * i + idx[i][c], |arr|) {
        return None;
      }
      var column := seq(m, i requires 0 <= i < m => arr[Resolve(2 * i + idx[i][c], |arr|)][c]);
      columns := columns + [column];
    }
    if cols == 0 {
      out := Some([]);
    } else {
      out := Some(Transpose(columns, m));
    }
  }

  /** A two-row table read with the index [[2]] asks for row 2 * 0 + 2, which does
      not exist, so numpy raises IndexError. */
  method SubsetOutOfRangeExample() returns (out: Option<Matrix<int>>)
    ensures out == None
  {
    var idx: Matrix<int> := [[2]];
    assert !InAxis(2 * 0 + idx[0][0], 2);
    out := SubsetByIndex([[7], [8]], idx, 1);
  }

  /** With selector entries in {0, 1}, the output picks each cell from the pair of
      rows 2i and 2i + 1: the forward or reverse-complement prediction of record i. */
  lemma SubsetPicksFromPair<T>(arr: Matrix<T>, idx: Matrix<int>, cols: nat, i: nat, c: nat)
    requires IsMatrix(arr, |arr|, cols) && |arr| / 2 == |idx| && IsMatrix(idx, |idx|, cols)
    requires i < |idx| && c < cols && (idx[i][c] == 0 || idx[i][c] == 1)
    ensures InAxis(2 * i + idx[i][c], |arr|)
    ensures Resolve(2 * i + idx[i][c], |arr|) == 2 * i + idx[i][c]
  {
  }

  /** `pred_do(model, x, mask, n)` (lines 69-74): `n` forward passes, the k-th
      returning `predict(k)` (a rows x width table), each cut down to the columns of
      `mask`; the result stacks them in call order. A mask index numpy rejects on
      the predictor's `width` outputs raises IndexError at line 73 in the first
      pass: `None`; with no passes nothing is indexed. */
  method PredDo(predict: nat -> Matrix<real>, rows: nat, width: nat, mask: seq<int>, iterations: nat)
    returns (samples: Option<seq<Matrix<real>>>)
    requires forall k :: 0 <= k < iterations ==>
               |predict(k)| == rows && forall i :: 0 <= i < rows ==> |predict(k)[i]| == width
    ensures samples.None? <==> iterations > 0 && !MaskInAxis(mask, width)
    ensures samples.Some? ==> |samples.value| == iterations
    ensures samples.Some? ==> forall k :: 0 <= k < iterations ==>
              MaskInAxis(mask, width) && IsMatrix(samples.value[k], rows, |mask|) &&
              forall i, j :: 0 <= i < rows && 0 <= j < |mask| ==>
                samples.value[k][i][j] == predict(k)[i][Resolve(mask[j], width)]
  {
    var stacked: seq<Matrix<real>> := [];
    for k := 0 to iterations
      invariant |stacked| == k
      invariant k > 0 ==> MaskInAxis(mask, width)
      invariant forall l :: 0 <= l < k ==> stacked[l] == SelectColumns(predict(l), rows, width, mask)
    {
      if !MaskInAxis(mask, width) {
        return None;
      }
      stacked := stacked + [SelectColumns(predict(k), rows, width, mask)];
    }
    samples := Some(stacked);
  }
}
