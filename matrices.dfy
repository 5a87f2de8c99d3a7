/** Two-dimensional tables as row-major sequences, and the numpy indexing rules
    the dropout effect code relies on: an integer index into an axis of length n
    is accepted when -n <= k < n, negative ones counting from the end. */
module Matrices {

  /** A result numpy produces, or `None` where it raises IndexError. */
  datatype Option<T> = None | Some(value: T)

  /** A table: one sequence of cells per row. */
  type Matrix<T> = seq<seq<T>>

  /** `m` has `rows` rows of `cols` cells each. */
  predicate IsMatrix<T>(m: Matrix<T>, rows: nat, cols: nat) {
    |m| == rows && forall r :: 0 <= r < rows ==> |m[r]| == cols
  }

  /** numpy accepts `k` as an index into an axis of length `n`. */
  predicate InAxis(k: int, n: nat) {
    -(n as int) <= k < n
  }

  /** The position numpy reads for index `k` on an axis of length `n`. */
  function Resolve(k: int, n: nat): (i: nat)
    requires InAxis(k, n)
    ensures i < n
    ensures k >= 0 ==> i == k
  {
    if k < 0 then k + n else k
  }

  /** Every index of `mask` is accepted on an axis of length `n`. */
  predicate MaskInAxis(mask: seq<int>, n: nat) {
    forall j :: 0 <= j < |mask| ==> InAxis(mask[j], n)
  }

  /** numpy's `s[mask]` for an integer index array `mask`. */
  function Take<T>(s: seq<T>, mask: seq<int>): (r: seq<T>)
    requires MaskInAxis(mask, |s|)
    ensures |r| == |mask|
    ensures forall j :: 0 <= j < |mask| ==> r[j] == s[Resolve(mask[j], |s|)]
  {
    seq(|mask|, j requires 0 <= j < |mask| => s[Resolve(mask[j], |s|)])
  }

  /** The indices 0, 1, ..., n - 1 (numpy's `arange(n)`). */
  function Range(n: nat): (r: seq<int>)
    ensures |r| == n
    ensures forall j :: 0 <= j < n ==> r[j] == j
  {
    seq(n, j => j)
  }

  /** `Take` with every index of the axis, in order, gives back the whole sequence. */
  lemma TakeRange<T>(s: seq<T>)
    ensures MaskInAxis(Range(|s|), |s|)
    ensures Take(s, Range(|s|)) == s
  {
    var r := Take(s, Range(|s|));
    assert |r| == |s|;
    forall j | 0 <= j < |s| ensures r[j] == s[j] {
    }
  }

  /** numpy's `m[..., mask]` on a rows x cols table: the columns of `mask`, in mask order. */
  function SelectColumns<T>(m: Matrix<T>, rows: nat, cols: nat, mask: seq<int>): (r: Matrix<T>)
    requires IsMatrix(m, rows, cols)
    requires MaskInAxis(mask, cols)
    ensures IsMatrix(r, rows, |mask|)
    ensures forall i, j :: 0 <= i < rows && 0 <= j < |mask| ==> r[i][j] == m[i][Resolve(mask[j], cols)]
  {
    seq(rows, i requires 0 <= i < rows => Take(m[i], mask))
  }

  /** `main`, `alt` and `sel` can be merged cell by cell: same number of rows,
      `sel` shaped like `main`, and every row of `alt` at least as wide as `main`'s. */
  predicate Mergeable<T>(main: Matrix<T>, alt: Matrix<T>, sel: Matrix<bool>) {
    |alt| == |main| && |sel| == |main| &&
    forall r :: 0 <= r < |main| ==> |sel[r]| == |main[r]| && |main[r]| <= |alt[r]|
  }

  /** The cell-wise overwrite: `alt`'s cell wherever `sel` is true, `main`'s cell elsewhere. */
  function Merge<T>(main: Matrix<T>, alt: Matrix<T>, sel: Matrix<bool>): (m: Matrix<T>)
    requires Mergeable(main, alt, sel)
    ensures |m| == |main|
    ensures forall r :: 0 <= r < |main| ==> |m[r]| == |main[r]|
    ensures forall r, c :: 0 <= r < |main| && 0 <= c < |main[r]| ==>
              m[r][c] == if sel[r][c] then alt[r][c] else main[r][c]
  {
    seq(|main|, r requires 0 <= r < |main| =>
      seq(|main[r]|, c requires 0 <= c < |main[r]| => if sel[r][c] then alt[r][c] else main[r][c]))
  }

  /** With no cell selected, the overwrite leaves the table as it was. */
  lemma MergeNoneSelected<T>(main: Matrix<T>, alt: Matrix<T>, sel: Matrix<bool>)
    requires Mergeable(main, alt, sel)
    requires forall r, c :: 0 <= r < |sel| && 0 <= c < |sel[r]| ==> !sel[r][c]
    ensures Merge(main, alt, sel) == main
  {
    var m := Merge(main, alt, sel);
    forall r | 0 <= r < |main| ensures m[r] == main[r] {
      assert |m[r]| == |main[r]|;
    }
  }

  /** With every cell selected, the overwrite yields `alt` (restricted to `main`'s shape). */
  lemma MergeAllSelected<T>(main: Matrix<T>, alt: Matrix<T>, sel: Matrix<bool>)
    requires Mergeable(main, alt, sel)
    requires forall r :: 0 <= r < |main| ==> |alt[r]| == |main[r]|
    requires forall r, c :: 0 <= r < |sel| && 0 <= c < |sel[r]| ==> sel[r][c]
    ensures Merge(main, alt, sel) == alt
  {
    var m := Merge(main, alt, sel);
    forall r | 0 <= r < |main| ensures m[r] == alt[r] {
      assert |m[r]| == |alt[r]|;
    }
  }

  /** Overwriting a second time with the same selector and source changes nothing more. */
  lemma MergeIdempotent<T>(main: Matrix<T>, alt: Matrix<T>, sel: Matrix<bool>)
    requires Mergeable(main, alt, sel)
    ensures Mergeable(Merge(main, alt, sel), alt, sel)
    ensures Merge(Merge(main, alt, sel), alt, sel) == Merge(main, alt, sel)
  {
    var once := Merge(main, alt, sel);
    var twice := Merge(once, alt, sel);
    forall r | 0 <= r < |main| ensures twice[r] == once[r] {
      assert |twice[r]| == |once[r]|;
    }
  }
}
