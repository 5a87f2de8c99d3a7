# Dropout-based effect estimation: a Dafny model

This project models the deterministic core of `concise/effects/dropout.py`, the module that estimates how a
point mutation changes a trained sequence model's outputs using Monte Carlo dropout. It covers five pieces:

- **The configuration rewrite** (`replace_dict_values`). A model's serialized configuration is turned into that of
  an always-on dropout model by replacing every `"Dropout"` value with `"BiDropout"`.
- **The array helpers**:
  - `overwite_by`, a cell-wise masked overwrite done in place on a two-dimensional array;
  - `subset_array_by_index`, which picks one row out of each pair of rows;
  - `pred_do`, the repeated stochastic prediction.
- **The decision logic of `dropout_pred`**:
  - validation of the input shapes;
  - choice of the output channels and their labels;
  - the per-cell choice between the forward and the reverse-complement orientation (the one with the smaller
    p-value wins);
  - the merge of every statistic table by that choice;
  - the difference table and the seven labelled result tables.
- **The rate rule of the `BiDropout` layer.** Masking is always on, and any rate outside (0, 1) leaves the input
  unchanged.

Files and modules:

- `matrices.dfy` (`Matrices`): tables as row-major sequences, numpy's integer indexing rules (negative indices
  count from the end), and `Merge`, the cell-wise overwrite that specifies `overwite_by`.
- `config_rewrite.dfy` (`ConfigRewrite`): the configuration tree and its rewrite.
- `array_ops.dfy` (`ArrayOps`): `overwite_by` as a method on `array2` with a `modifies` clause, proved equal to
  `Merge`; `subset_array_by_index` and `pred_do` as loop methods.
- `dropout_pred.dfy` (`DropoutPred`): validation, channel selection, selector, merge, difference, packaging,
  and the finding below.
- `bidropout_layer.dfy` (`BiDropoutLayer`): the rate rule of `BiDropout.call`.

Two behaviours of the code are worth knowing:

- When both a channel mask and wanted names are given, the code uses the mask and ignores the names
  (lines 112-119); see `SelectChannels` and `MaskZeroSelectsFirst`.
- Line 143 casts the selector to integers, which changes what `overwite_by` does. The model keeps the boolean
  mask described by that line's comment and by the in-file test (94-98), and records the difference under
  "Findings".

Nothing here reads inputs, writes output or draws random numbers:
- the trained model and its randomness enter `PredDo` as `predict(k)`, the k-th forward pass;
- the whole prediction-and-statistics stage of `dropout_pred` is the parameter `measure`, which maps a channel
  mask to the forward and reverse-complement statistic tables.

## Model

| member | source | states |
|---|---|---|
| `ConfigRewrite.RewriteDict` | concise/effects/dropout.py:46-66 | The result is a new dict with exactly the input's keys, in the same order. |
| `ConfigRewrite.RewriteList` | concise/effects/dropout.py:51-60 | A list value is rewritten into a list of the same length. |
| `ConfigRewrite.NoOccurrenceUnchanged` | concise/effects/dropout.py:46-66 | If `from` stands at no compared position, the rewrite returns the input unchanged. |
| `ConfigRewrite.RewriteReplacesAll` | concise/effects/dropout.py:46-66 | If `to` is a scalar other than `from`, no compared position of the result holds `from`. |
| `ConfigRewrite.RewriteIdempotent` | concise/effects/dropout.py:46-66 | Under the same condition on `to`, rewriting twice gives the same tree as rewriting once. |
| `ConfigRewrite.RewriteUndone` | concise/effects/dropout.py:46-66 | If `to` is a scalar absent from the tree, rewriting `to` back into `from` restores the input. So only values equal to `from` change, and each becomes exactly `to`. |
| `ConfigRewrite.ToBiDropoutConfig` | concise/effects/dropout.py:122-123 | Keys are kept. A configuration with no "Dropout" comes back identical. The result holds no "Dropout" at any compared position. |
| `ConfigRewrite.NestedListNotEntered` | concise/effects/dropout.py:53-60 | A "Dropout" inside a list nested in a list survives. The same string as a direct list element is replaced. |
| `ConfigRewrite.LayerNameRewritten` | concise/effects/dropout.py:61-65 | Any value equal to "Dropout" is replaced, so a layer named "Dropout" is renamed together with its type tag. |
| `Matrices.Take` | concise/effects/dropout.py:119 | numpy's `s[mask]`: one entry per mask index, in mask order, with negative indices counted from the end. |
| `Matrices.TakeRange` | concise/effects/dropout.py:114-119 | Taking every index in order gives back the whole sequence. |
| `Matrices.SelectColumns` | concise/effects/dropout.py:73 | numpy's `m[..., mask]`: same rows, the mask's columns in mask order. |
| `Matrices.Merge` | concise/effects/dropout.py:86-92 | Same shape as `main`. Each cell is `alt`'s where the selector is true and `main`'s elsewhere. |
| `Matrices.MergeNoneSelected` | concise/effects/dropout.py:86-92 | With no cell selected, the table is unchanged. |
| `Matrices.MergeAllSelected` | concise/effects/dropout.py:86-92 | With every cell selected, the table becomes `alt`. |
| `Matrices.MergeIdempotent` | concise/effects/dropout.py:86-92 | A second overwrite with the same selector and source changes nothing. |
| `ArrayOps.OverwriteBy` | concise/effects/dropout.py:86-92 | Requires the asserted shapes and an `alt` at least as wide as `main`. Afterwards each cell of `main` holds `alt`'s old value where the selector was true and its own old value elsewhere; this equals `Merge` of the old tables. The same array is returned. |
| `ArrayOps.OverwriteByExample` | concise/effects/dropout.py:94-98 | Overwriting [[1,2],[4,5]] from [[1,8],[4,5]] where the first is smaller gives [[1,8],[4,5]]. Only cell (0,1) changes. |
| `ArrayOps.SubsetByIndex` | concise/effects/dropout.py:77-84 | Requires the asserted shapes. Fails (numpy's IndexError) exactly when some row `2i + idx[i][c]` is outside `arr`. Otherwise output cell (i, c) is `arr`'s cell in column c of row `2i + idx[i][c]`, and the output has `idx`'s shape. With no columns the result is empty. |
| `ArrayOps.SubsetOutOfRangeExample` | concise/effects/dropout.py:82-83 | A two-row table read with the index [[2]] fails, because row 2 does not exist. |
| `ArrayOps.SubsetPicksFromPair` | concise/effects/dropout.py:82-83 | With selector entries 0 or 1, row `2i + idx[i][c]` is a valid row inside the pair (2i, 2i+1). |
| `ArrayOps.PredDo` | concise/effects/dropout.py:69-74 | Fails (numpy's IndexError) exactly when there is at least one pass and a mask index is outside the predictor's output width. Otherwise exactly `iterations` samples, in call order. Each is a rows × len(mask) table of the k-th prediction's masked columns. |
| `DropoutPred.ValidateInputs` | concise/effects/dropout.py:107-109 | Succeeds, with `ref`'s row count, exactly when all batches have `ref`'s shape and `mutation_positions` has shape (rows,). A shape mismatch is reported before the position checks. |
| `DropoutPred.MatchingFrom` | concise/effects/dropout.py:116 | A strictly increasing list of in-range indices. It holds exactly those indices whose label is among the wanted names. |
| `DropoutPred.SelectChannels` | concise/effects/dropout.py:112-119 | Fails only on an explicit mask index that numpy rejects. The labels are the full annotation taken at the mask. An explicit mask is used as given, whatever names are passed. |
| `DropoutPred.DefaultSelectsAll` | concise/effects/dropout.py:112-114 | With neither a mask nor names, the mask is 0..n-1 and the labels are the full annotation. |
| `DropoutPred.WantedSelection` | concise/effects/dropout.py:115-119 | With names, the mask holds exactly the indices whose label is wanted, in increasing order. The labels follow annotation order, not the order the names were given in. |
| `DropoutPred.MatchingSingle` | concise/effects/dropout.py:116 | In an annotation without repeats, the name `all[k]` matches index k alone. |
| `DropoutPred.WantedSingleLabel` | tests/test_effects.py:56-71 | Asking for one label of an annotation without repeats gives exactly that column (the third test case). |
| `DropoutPred.MaskZeroSelectsFirst` | tests/test_effects.py:55-69 | The mask [0] gives the first label alone, whatever names are passed (the second test case). |
| `DropoutPred.Selector` | concise/effects/dropout.py:143 | True exactly where abs(p_rc) < abs(p), so ties keep the forward orientation. |
| `DropoutPred.Combine` | concise/effects/dropout.py:143-164 | In each cell, all six merged tables come from one orientation. That orientation is the reverse complement exactly when its p-value is strictly smaller in magnitude. |
| `DropoutPred.CombinedPValueIsSmaller` | concise/effects/dropout.py:143-147 | The reported p-value has the smaller magnitude of the two. On a tie it is the forward value. |
| `DropoutPred.CombineAllReverse` | concise/effects/dropout.py:143-164 | If the reverse complement is stronger in every cell, every merged table equals the reverse-complement table. |
| `DropoutPred.CombineAllForward` | concise/effects/dropout.py:143-164 | If the forward orientation is at least as strong in every cell, every merged table equals the forward table. |
| `DropoutPred.Diff` | concise/effects/dropout.py:174 | Same shape as its inputs, with each cell equal to alt mean minus ref mean. |
| `DropoutPred.DiffFollowsOrientation` | concise/effects/dropout.py:160-174 | Each difference cell is the mean difference of the orientation the p-values chose. Orientations are never mixed. |
| `DropoutPred.Package` | concise/effects/dropout.py:145-174 | Exactly the seven keys `do_pv` … `do_diff`. Every table is labelled with the selected channels and shaped rows × channels. |
| `DropoutPred.DropoutPred` | concise/effects/dropout.py:101-176 | Fails exactly when validation or channel selection fails, validation first, before anything is measured; a channel-selection failure is `ChannelIndexOutOfRange`. On success there are seven tables with the selected labels. Every cell except in `do_diff` comes from the orientation with the strictly smaller abs(p) (ties: forward). `do_diff` equals `do_alt_mean` − `do_ref_mean`. |
| `DropoutPred.SingleCellExample` | concise/effects/dropout.py:143-147 | Forward p [[0.5]] against reverse-complement p [[0.1]] gives selector [[true]] and reported p-value [[0.1]]. |
| `DropoutPred.IntSelector` | concise/effects/dropout.py:143 | The selector as written: 1 where the reverse complement wins, 0 elsewhere. |
| `DropoutPred.MergeByIntSelector` | concise/effects/dropout.py:91 | `overwite_by` with an integer selector. Fails (numpy's IndexError) exactly when a selector entry is not a row of the table. Otherwise, in column c, the rows overwritten are those whose row number appears in the selector's column c. |
| `DropoutPred.OneRowReverseWinRaises` | concise/effects/dropout.py:91 | With one row, any column where the reverse complement wins gives selector 1 and the as-written merge fails. |
| `DropoutPred.IntSelectorOverwritesWrongCells` | concise/effects/dropout.py:143 | On the counterexample below, the as-written merge gives [[0.1],[0.9]] while the boolean merge gives [[0.1],[0.5]]. |
| `BiDropoutLayer.Call` | concise/effects/dropout.py:19-36 | A rate outside (0, 1) returns the input unchanged. Otherwise the always-on layer always masks, and the plain layer masks only in the learning phase. |
| `BiDropoutLayer.AlwaysOnIgnoresLearningPhase` | concise/effects/dropout.py:25-35 | The always-on layer gives the same output in and out of the learning phase, and in the learning phase it matches the plain layer. |

## Left out

- **Building the always-on model** (`keras.layers.deserialize`, `get_weights`/`set_weights`, `_updated_config`,
  lines 122-130). These are foreign library calls; only the configuration rewrite they consume is modelled.
- **`BiDropout.create_from_dropout`** (lines 38-44). A thin Keras constructor that `dropout_pred` does not use.
  `K.dropout` appears only as the parameter `drop` of `BiDropoutLayer.Call`.
- **The statistics** (`ttest_rel`, `np.mean`, `np.var`, the squared coefficient of variation and `np.sqrt`,
  lines 138-139 and 152-158). These are floating-point library code; their results are the opaque tables that
  `measure` returns.
  - NaN p-values, which `ttest_rel` returns for identical samples, cannot be expressed with `real`. In numpy
    every comparison with NaN is false, so such a cell keeps the forward orientation.
  - The division by a zero mean that produces a non-finite `cvar` is likewise outside the model.
- **pandas `DataFrame`s** (lines 147 and 166-174) are modelled as a column-label list plus a cell table. The
  subtraction at line 174 is modelled cell by cell. Both frames carry identical labels and the default row index,
  so pandas subtracts cell by cell there without realigning.
- `DropoutPred.DropoutPred`: assumes that building and running the always-on model never fails. The model
  assumes `BiDropout` is registered for `keras.layers.deserialize` (line 127). It also assumes the predictor
  outputs exactly |all| channels, so that `measure` accepts every mask that line 119 accepted. In the source,
  a mask index within the annotation but beyond the predictor's width still raises IndexError at line 73
  (see `ArrayOps.PredDo`).
- `DropoutPred.ValidateInputs`: models line 107 as exact equality of shape tuples. numpy compares shape tuples of
  different lengths by broadcasting, so for example (1,) against (1, 1) passes there.
- Mutation-position values are not modelled. `dropout_pred` only checks the shape of `mutation_positions`.
- `DropoutPred.SelectChannels`: takes integer channel masks only; numpy would also accept a boolean mask at
  line 119.
- `ArrayOps.SubsetByIndex`: models `arr.shape[0] / 2` (lines 79 and 82) as floor division, as in Python 2.
  - Under Python 3 this is true division, and the float row indices it produces are rejected by numpy.
  - The model covers two-dimensional arrays only.
- `ArrayOps.OverwriteBy`: covers two-dimensional arrays only. `overwite_by` also accepts arrays with more axes,
  comparing `shape[1:]`.
  - `alt`'s width is not asserted. A narrower `alt` makes line 91 raise IndexError after the earlier columns
    of `main` were overwritten. The model requires `alt` to be at least as wide as `main`. `Matrices.Mergeable`
    states the same condition for `Merge`.
- `ConfigRewrite.RewriteDict`: compares values structurally. Two Python quirks are not modelled:
  - `True == 1 == 1.0`;
  - dict equality ignores key order. This matters only when `from_value` itself holds a dict.
- `ConfigRewrite.RewriteIdempotent`: proved only for a scalar `to`. A dict or list `to` is entered again by a
  second pass, so the property does not hold for it in general.
- **Aliasing between the input and output dicts.** The model's configuration trees are values, so "the input
  dict is left unchanged" holds by construction and is not stated separately.

## Findings

| source | as written | input that shows it | evidently intended | confidence | as-written member | corrected member |
|---|---|---|---|---|---|---|
| concise/effects/dropout.py:143 | The selector is cast with `.astype(np.int)`. At line 91, `main_arr[idx[:, c], c]` then treats column c as a list of row numbers (0 and 1), not as a mask. So rows 0 and 1 are overwritten whichever cells were chosen, and a one-row input with any reverse-complement win raises IndexError. | Forward p [[0.5],[0.5]], reverse-complement p [[0.1],[0.9]]. The integer selector [[1],[0]] overwrites both rows, giving [[0.1],[0.9]], so row 1 reports the weaker p-value 0.9. | A boolean mask, as in the comment on line 143 and the in-file test (94-98). Only cell (0,0) changes, giving [[0.1],[0.5]]: the smaller p-value in every cell. | high; not executed | `DropoutPred.IntSelectorOverwritesWrongCells` and `DropoutPred.OneRowReverseWinRaises` (on `DropoutPred.MergeByIntSelector`) | `DropoutPred.CombinedPValueIsSmaller` (on `DropoutPred.Combine`) |
