# Centralized FEMNIST pipeline: sample-table bookkeeping

This project models the bookkeeping at the core of the `Centralized` class of a
centralized (non-federated) FEMNIST training pipeline, in one Dafny module,
`Centralized` (`centralized.dfy`):

- `data_parser` flattens the writer-keyed table into one `(img, class)` row
  per label. It fills a dictionary keyed by a running counter `idx` and reads
  it back as a table. `DataParser` models the nested loop and the dictionary.
  It is proved equal to the specification `ParsedRows`: writer by writer, the
  `i`-th label of a writer is paired with the image at position `i`. When a
  writer has more labels than images, the source raises an `IndexError`.
  The model returns `Err(IndexError(writer, index))` for the first such writer
  instead.
- `rotatedFemnist` skips every row whose image is not a 784-element vector.
  Each other row is reshaped to 28 × 28, rotated by a randomly drawn angle
  and flattened again, and it keeps its label. `RotatedFemnist` models the
  loop, with its two lists `rotated_images` and `rotated_labels`. It is proved
  equal to `Rotated`. The lemmas relate `Rotated` to `Survivors`, the plain
  filter of well-shaped rows.
- `accuracy_of_model` sums the batch sizes into `total` and the matches into
  `correct`, then reports `100 * correct // total`. `AccuracyOfModel` models
  that loop over the batches of (predicted class, label) sequences. When
  `total` is 0 the division fails, and the model returns
  `Err(ZeroDivisionError)`.
- `n_classes` is the number of distinct values of the `class` column
  (`NClasses`).

Inputs that the source obtains from libraries or from randomness are
parameters:
- `half`: the element-wise conversion of `np.array(..., dtype=np.float16)`.
- `draw(k)`: the angle of the `k`-th call of `np.random.choice`. Its type
  `Angle` admits only 0, 15, 30, 45, 60 and 75.
- `rotate`: the 8-bit rescale, the PIL rotation and the rescale back. It is
  any function from a 28 × 28 matrix and an angle to a 28 × 28 matrix.

Two details of the source that the model keeps:
- A writer's image list may be longer than its label list. `data_parser`
  ignores the extra images without error (`Parseable`, `WriterRows`).
- `rotatedFemnist` takes the flattened per-sample table, one image vector per
  row.

## Model

| member | source | states |
|---|---|---|
| `Centralized.ParsedRows` | entities/centralized.py:47-54 | the flattened table has exactly one row per label: its length is the sum over writers of their label counts |
| `Centralized.DataParser` | entities/centralized.py:42-57 | succeeds exactly when every writer has at least as many images as labels, and then returns the flattened table keyed `0..n-1` (`ParsedRows`); otherwise fails with the first such writer and the index `len(x)` that `row_x[i]` cannot read |
| `Centralized.ParsedRowAt` | entities/centralized.py:49-54 | writer-then-index order: the `i`-th label of writer `w` is the row at position (labels of the writers before `w`) + `i`, and it is paired with that writer's `i`-th image |
| `Centralized.ParsedRowsAppend` | entities/centralized.py:50-54 | flattening two groups of writers placed one after the other gives the two flattened tables one after the other |
| `Centralized.Reshape` | entities/centralized.py:102 | `reshape(28, 28)` is row-major: element `(r, c)` is element `28 * r + c` of the vector |
| `Centralized.FlattenGrid` | entities/centralized.py:113 | `flatten()` gives a 784-element vector whose element `28 * r + c` is element `(r, c)` of the matrix |
| `Centralized.FlattenReshape` | entities/centralized.py:102-113 | flattening the reshaped 784-element vector gives back the vector |
| `Centralized.ReshapeFlatten` | entities/centralized.py:102-113 | reshaping the flattened 28 × 28 matrix gives back the matrix |
| `Centralized.Survivors` | entities/centralized.py:97-99 | the rows that pass the shape check are no more than the input rows, and each has a 784-element image |
| `Centralized.SurvivorsMembers` | entities/centralized.py:97-99 | a row is kept exactly when it is an input row whose image has 784 elements |
| `Centralized.SurvivorsCount` | entities/centralized.py:94-119 | the output has as many rows as the input exactly when every input image has 784 elements |
| `Centralized.SurvivorsAppend` | entities/centralized.py:94-99 | the filter keeps input order: filtering two tables one after the other gives the two filtered tables one after the other |
| `Centralized.Rotated` | entities/centralized.py:91-121 | the augmented table has at most as many rows as the input |
| `Centralized.RotatedFemnist` | entities/centralized.py:91-121 | the loop over the rows with its two lists builds exactly the table `Rotated` |
| `Centralized.RotatedRows` | entities/centralized.py:102-116 | output row `k` is the `k`-th surviving row, rotated by the `k`-th drawn angle; it has a 784-element image and the same label |
| `Centralized.SkipsMisshapenRow` | entities/centralized.py:97-99 | a 784-element row followed by a 10-element row yields exactly one row, the first, with its label |
| `Centralized.Matches` | entities/centralized.py:173 | the matches in a batch are at most its size, and equal to it exactly when every prediction equals its label |
| `Centralized.Correct` | entities/centralized.py:172-173 | `correct` never exceeds `total` |
| `Centralized.Percent` | entities/centralized.py:175 | `100 * correct // total` is the whole percentage `p` with `p * total <= 100 * correct < (p + 1) * total`; it is at most 100 when `correct <= total`, and 100 when all are correct |
| `Centralized.PercentBounds` | entities/centralized.py:175 | the same bracketing and bounds, proved for the floor quotient |
| `Centralized.AccuracyOfModel` | entities/centralized.py:160-175 | fails exactly when the total batch size is 0; otherwise reports the percentage of the summed matches over the summed batch sizes, a whole number in [0, 100] |
| `Centralized.TotalZeroIff` | entities/centralized.py:165-175 | the total is 0, so the division fails, exactly when every batch is empty (an empty loader included) |
| `Centralized.ClassSet` | entities/centralized.py:40 | the distinct classes: every row's class is among them, each of them is some row's class, and there are at most as many as rows |
| `Centralized.NClasses` | entities/centralized.py:39-40 | the class count is at most the row count, and at least 1 exactly when there is a row |

## Left out

- `get_data` and `get_data_rot_ng` are not modelled. They walk the file system, load JSON, concatenate pandas tables and call an external rotated-dataset generator. The model starts from the writer-keyed table as a sequence of writers.
- `train_test_tensors` is not modelled. It is a seeded random split done by a library, plus a dataset wrapper that is not part of this model.
- `training` and the forward pass and argmax in `accuracy_of_model` are not modelled. They are tensor computation, device transfers and floating-point loss averaging. The predicted classes are an input of `AccuracyOfModel`.
- AccuracyOfModel: requires one prediction per label in each batch. The forward pass guarantees this, and the model does not include that pass.
- AccuracyOfModel: returns the percentage instead of printing it. The printed text always says "10000 test images", whatever the total.
- Rotated: the pixel rescaling (`* 255`, `uint8` cast, `/ 255.0`) and the PIL rotation are one opaque, shape-preserving parameter `rotate`. So the model does not state that output pixel values lie in [0, 1].
- Rotated: an image is a one-dimensional sequence, so "shape is not (784,)" becomes "length is not 784". A two-dimensional input array is not represented.
- Rotated: the skipped-row warning is console output and is not modelled.
- DataParser: when there are no labels at all (no writers, or every label list empty), the source's dictionary stays empty and the resulting table has no `img` and no `class` columns, so a later column lookup such as `n_classes` fails; the typed rows of the model cannot represent a missing column, and the model returns the empty table.
- DataParser: the float16 conversion is the opaque element-wise parameter `half`. pandas' conversion of the dictionary into a DataFrame is modelled as reading the dictionary back in key order.
- `pipeline` and `summary` are not modelled: orchestration and console output. The working-directory-dependent import switch is not modelled either.
