/** A model of the sample-table bookkeeping of the centralized FEMNIST training
    pipeline: flattening the writer-keyed table into one row per sample, the
    shape filter of the rotation augmenter, the accuracy counter of the
    evaluator and the class count. Images are sequences of pixel values,
    tables are sequences of rows (a row's position is its index). */
module Centralized {

  type Pixel = real
  type Image = seq<Pixel>
  type Label = int

  datatype Result<T, E> = Ok(value: T) | Err(error: E)

  /** One writer's column of the writer-keyed table: its image list `x`
      and its label list `y`. */
  datatype Writer = Writer(x: seq<Image>, y: seq<Label>)

  /** One row of a flattened table: the `img` column and the `class` column. */
  datatype Sample = Sample(img: Image, cls: Label)

  // ---------------------------------------------------------------------------
  // data_parser: flattening the writer-keyed table
  // ---------------------------------------------------------------------------

  /** `row_x[i]` with `i >= len(row_x)` raises IndexError: the writer (its
      position in the table) and the index that failed. */
  datatype ParseError = IndexError(writer: nat, index: nat)

  /** Every label of the writer has an image at the same position. */
  predicate Parseable(w: Writer)
  {
    |w.y| <= |w.x|
  }

  predicate AllParseable(ws: seq<Writer>)
  {
    forall j | 0 <= j < |ws| :: Parseable(ws[j])
  }

  /** The error data_parser raises on `ws`: the first writer that has more
      labels than images, at the first missing image. */
  predicate FirstUnparseable(ws: seq<Writer>, e: ParseError)
  {
    && e.writer < |ws|
    && AllParseable(ws[..e.writer])
    && !Parseable(ws[e.writer])
    && e.index == |ws[e.writer].x|
  }

  /** `np.array(img, dtype=np.float16)`: the element-wise conversion `half`
      applied to every pixel. */
  function HalfImage(half: Pixel -> Pixel, img: Image): Image
  {
    seq(|img|, k requires 0 <= k < |img| => half(img[k]))
  }

  /** The rows one writer contributes: `(x[i], y[i])` for every label index `i`. */
  function WriterRows(half: Pixel -> Pixel, w: Writer): seq<Sample>
    requires Parseable(w)
  {
    seq(|w.y|, i requires 0 <= i < |w.y| => Sample(HalfImage(half, w.x[i]), w.y[i]))
  }

  /** Total number of labels over all writers. */
  function LabelCount(ws: seq<Writer>): nat
  {
    if ws == [] then 0 else LabelCount(ws[..|ws| - 1]) + |ws[|ws| - 1].y|
  }

  /** The flattened table, writer by writer, each writer's rows in label order.
      It holds exactly one row per label. */
  function ParsedRows(half: Pixel -> Pixel, ws: seq<Writer>): (rows: seq<Sample>)
    requires AllParseable(ws)
    ensures |rows| == LabelCount(ws)
  {
    if ws == [] then []
    else ParsedRows(half, ws[..|ws| - 1]) + WriterRows(half, ws[|ws| - 1])
  }

  /** data_parser: fills a dictionary keyed by a running counter `idx`, one
      entry per label, then reads it back as the table whose row `k` is the
      entry with key `k`. */
  method DataParser(half: Pixel -> Pixel, ws: seq<Writer>) returns (r: Result<seq<Sample>, ParseError>)
    ensures r.Ok? <==> AllParseable(ws)
    ensures r.Ok? ==> r.value == ParsedRows(half, ws)
    ensures r.Err? ==> FirstUnparseable(ws, r.error)
  {
    var outDict: map<nat, Sample> := map[];
    var idx := 0;
    ghost var emitted: seq<Sample> := [];
    var w := 0;
    while w < |ws|
      invariant 0 <= w <= |ws|
      invariant AllParseable(ws[..w])
      invariant emitted == ParsedRows(half, ws[..w])
      invariant idx == |emitted|
      invariant forall k :: k in outDict <==> 0 <= k < idx
      invariant forall k | 0 <= k < idx :: outDict[k] == emitted[k]
    {
      var row := ws[w];
      ghost var before := emitted;
      var i := 0;
      while i < |row.y|
        invariant 0 <= i <= |row.y| && i <= |row.x|
        invariant emitted == before + WriterRows(half, Writer(row.x, row.y[..i]))
        invariant idx == |emitted|
        invariant forall k :: k in outDict <==> 0 <= k < idx
        invariant forall k | 0 <= k < idx :: outDict[k] == emitted[k]
      {
        if i >= |row.x| {
          return Err(IndexError(w, i));
        }
        var sample := Sample(HalfImage(half, row.x[i]), row.y[i]);
        WriterRowsExtend(half, row, i);
        outDict := outDict[idx := sample];
        emitted := emitted + [sample];
        idx := idx + 1;
        i := i + 1;
      }
      assert row.y[..i] == row.y;
      ParsedRowsExtend(half, ws, w);
      w := w + 1;
    }
    assert ws[..w] == ws;
    r := Ok(seq(idx, k requires 0 <= k < idx => outDict[k]));
  }

  /** Emitting the pair for label `i` extends the rows of the first `i` labels. */
  lemma WriterRowsExtend(half: Pixel -> Pixel, w: Writer, i: nat)
    requires i < |w.y| && i < |w.x|
    ensures WriterRows(half, Writer(w.x, w.y[..i + 1]))
            == WriterRows(half, Writer(w.x, w.y[..i])) + [Sample(HalfImage(half, w.x[i]), w.y[i])]
  {
  }

  /** Taking one more writer appends that writer's rows. */
  lemma ParsedRowsExtend(half: Pixel -> Pixel, ws: seq<Writer>, w: nat)
    requires w < |ws| && AllParseable(ws[..w]) && Parseable(ws[w])
    ensures AllParseable(ws[..w + 1])
    ensures LabelCount(ws[..w + 1]) == LabelCount(ws[..w]) + |ws[w].y|
    ensures ParsedRows(half, ws[..w + 1]) == ParsedRows(half, ws[..w]) + WriterRows(half, ws[w])
  {
    assert ws[..w + 1][..w] == ws[..w];
  }

  /** Writer-then-index order: the `i`-th label of writer `w` lands at the row
      just after all labels of the writers before it, paired with the image at
      the same position. */
  lemma {:induction false} ParsedRowAt(half: Pixel -> Pixel, ws: seq<Writer>, w: nat, i: nat)
    requires AllParseable(ws)
    requires w < |ws| && i < |ws[w].y|
    ensures LabelCount(ws[..w]) + i < |ParsedRows(half, ws)|
    ensures ParsedRows(half, ws)[LabelCount(ws[..w]) + i] == Sample(HalfImage(half, ws[w].x[i]), ws[w].y[i])
  {
    var n := |ws| - 1;
    assert ws[..n][..w] == ws[..w];
    if w < n {
      ParsedRowAt(half, ws[..n], w, i);
      assert LabelCount(ws[..w]) <= LabelCount(ws[..n]) by {
        LabelCountPrefix(ws[..n], w);
      }
    }
  }

  /** The labels of a prefix of the writers are no more than those of all of them. */
  lemma {:induction false} LabelCountPrefix(ws: seq<Writer>, w: nat)
    requires w <= |ws|
    ensures LabelCount(ws[..w]) <= LabelCount(ws)
    decreases |ws|
  {
    if w < |ws| {
      var n := |ws| - 1;
      assert ws[..n][..w] == ws[..w];
      LabelCountPrefix(ws[..n], w);
    } else {
      assert ws[..w] == ws;
    }
  }

  /** Appending writers keeps every writer parseable. */
  lemma AllParseableAppend(a: seq<Writer>, b: seq<Writer>)
    requires AllParseable(a) && AllParseable(b)
    ensures AllParseable(a + b)
  {
  }

  /** Flattening two tables of writers side by side gives the two flattened
      tables one after the other. */
  lemma {:induction false} ParsedRowsAppend(half: Pixel -> Pixel, a: seq<Writer>, b: seq<Writer>)
    requires AllParseable(a) && AllParseable(b)
    ensures AllParseable(a + b)
    ensures ParsedRows(half, a + b) == ParsedRows(half, a) + ParsedRows(half, b)
    decreases |b|
  {
    AllParseableAppend(a, b);
    if b == [] {
      assert a + b == a;
    } else {
      var n := |b| - 1;
      var ab := a + b;
      assert ab[..|ab| - 1] == a + b[..n];
      assert ab[|ab| - 1] == b[n];
      assert AllParseable(b[..n]);
      ParsedRowsAppend(half, a, b[..n]);
      var pa, pb, last := ParsedRows(half, a), ParsedRows(half, b[..n]), WriterRows(half, b[n]);
      assert ParsedRows(half, ab) == (pa + pb) + last;
      assert ParsedRows(half, b) == pb + last;
    }
  }

  // ---------------------------------------------------------------------------
  // rotatedFemnist: shape filter and row bookkeeping
  // ---------------------------------------------------------------------------

  /** The rotation angles, in degrees, the augmenter draws from. */
  type Angle = a: int | a in {0, 15, 30, 45, 60, 75}

  /** A 28 × 28 image matrix (FEMNIST images are 28 pixels a side; the
      augmenter writes the sizes 28 and 784 as literals). */
  predicate IsGrid(g: seq<seq<Pixel>>)
  {
    |g| == 28 && forall r | 0 <= r < |g| :: |g[r]| == 28
  }

  type Grid = g: seq<seq<Pixel>> | IsGrid(g) witness seq(28, _ => seq(28, _ => 0.0))

  /** The rows whose image is a 784-element vector. */
  predicate WellShaped(s: Sample)
  {
    |s.img| == 784
  }

  /** `reshape(28, 28)`: row-major reshape of a 784-element vector. */
  function Reshape(img: Image): (g: Grid)
    requires |img| == 784
    ensures forall r, c | 0 <= r < 28 && 0 <= c < 28 :: g[r][c] == img[r * 28 + c]
  {
    seq(28, r requires 0 <= r < 28 => img[r * 28 .. (r + 1) * 28])
  }

  /** `flatten()`: row-major flattening of a 28 × 28 matrix. */
  function FlattenGrid(g: Grid): (img: Image)
    ensures |img| == 784
    ensures forall r, c | 0 <= r < 28 && 0 <= c < 28 :: img[r * 28 + c] == g[r][c]
  {
    seq(784, k requires 0 <= k < 784 => g[k / 28][k % 28])
  }

  lemma FlattenReshape(img: Image)
    requires |img| == 784
    ensures FlattenGrid(Reshape(img)) == img
  {
  }

  lemma ReshapeFlatten(g: Grid)
    ensures Reshape(FlattenGrid(g)) == g
  {
    var h := Reshape(FlattenGrid(g));
    forall r | 0 <= r < 28
      ensures h[r] == g[r]
    {
      forall c | 0 <= c < 28
        ensures h[r][c] == g[r][c]
      {
      }
    }
  }

  /** The rows the shape check lets through, in input order. */
  function Survivors(t: seq<Sample>): (s: seq<Sample>)
    ensures |s| <= |t|
    ensures forall k | 0 <= k < |s| :: WellShaped(s[k])
  {
    if t == [] then []
    else Survivors(t[..|t| - 1]) + (if WellShaped(t[|t| - 1]) then [t[|t| - 1]] else [])
  }

  /** A row survives exactly when it is a row of the input with a well-shaped image. */
  lemma {:induction false} SurvivorsMembers(t: seq<Sample>, x: Sample)
    ensures x in Survivors(t) <==> x in t && WellShaped(x)
  {
    if t != [] {
      var n := |t| - 1;
      SurvivorsMembers(t[..n], x);
      assert t == t[..n] + [t[n]];
    }
  }

  /** The table rotatedFemnist returns: misshapen rows are skipped; the `k`-th
      surviving row gets the `k`-th random angle `draw(k)`, its image reshaped,
      rotated (`rotate` stands for the 8-bit rescale, the rotation and the
      rescale back) and flattened again, and keeps its label. */
  function Rotated(t: seq<Sample>, draw: nat -> Angle, rotate: (Grid, Angle) -> Grid): (out: seq<Sample>)
    ensures |out| <= |t|
  {
    if t == [] then []
    else
      var prev := Rotated(t[..|t| - 1], draw, rotate);
      var row := t[|t| - 1];
      if |row.img| != 784 then prev
      else prev + [Sample(FlattenGrid(rotate(Reshape(row.img), draw(|prev|))), row.cls)]
  }

  /** rotatedFemnist: collects the rotated images and the labels in two lists
      and builds the `img`/`class` table from them. */
  method RotatedFemnist(t: seq<Sample>, draw: nat -> Angle, rotate: (Grid, Angle) -> Grid)
    returns (out: seq<Sample>)
    ensures out == Rotated(t, draw, rotate)
  {
    var rotatedImages: seq<Image> := [];
    var rotatedLabels: seq<Label> := [];
    var i := 0;
    while i < |t|
      invariant 0 <= i <= |t|
      invariant |rotatedImages| == |rotatedLabels| == |Rotated(t[..i], draw, rotate)|
      invariant forall k | 0 <= k < |rotatedImages| ::
                  Sample(rotatedImages[k], rotatedLabels[k]) == Rotated(t[..i], draw, rotate)[k]
    {
      var row := t[i];
      assert t[..i + 1][..i] == t[..i];
      if |row.img| != 784 {
        i := i + 1;
        continue;
      }
      var imageMatrix := Reshape(row.img);
      var angle := draw(|rotatedImages|);
      var rotatedArray := FlattenGrid(rotate(imageMatrix, angle));
      rotatedImages := rotatedImages + [rotatedArray];
      rotatedLabels := rotatedLabels + [row.cls];
      i := i + 1;
    }
    assert t[..i] == t;
    out := seq(|rotatedImages|, k requires 0 <= k < |rotatedImages| => Sample(rotatedImages[k], rotatedLabels[k]));
  }

  /** Row `k` of the output is the `k`-th surviving input row, rotated by the
      `k`-th drawn angle, with a 784-element image and its label unchanged. */
  lemma {:induction false} RotatedRows(t: seq<Sample>, draw: nat -> Angle, rotate: (Grid, Angle) -> Grid)
    ensures |Rotated(t, draw, rotate)| == |Survivors(t)|
    ensures forall k | 0 <= k < |Survivors(t)| ::
              && Rotated(t, draw, rotate)[k].cls == Survivors(t)[k].cls
              && |Rotated(t, draw, rotate)[k].img| == 784
              && Rotated(t, draw, rotate)[k].img == FlattenGrid(rotate(Reshape(Survivors(t)[k].img), draw(k)))
  {
    if t != [] {
      var n := |t| - 1;
      var row := t[n];
      RotatedRows(t[..n], draw, rotate);
      var prev, out := Rotated(t[..n], draw, rotate), Rotated(t, draw, rotate);
      var kept, survivors := Survivors(t[..n]), Survivors(t);
      assert |prev| == |kept|;
      if WellShaped(row) {
        assert out == prev + [Sample(FlattenGrid(rotate(Reshape(row.img), draw(|prev|))), row.cls)];
        assert survivors == kept + [row];
      } else {
        assert out == prev && survivors == kept;
      }
      forall k | 0 <= k < |survivors|
        ensures out[k].cls == survivors[k].cls && |out[k].img| == 784
        ensures out[k].img == FlattenGrid(rotate(Reshape(survivors[k].img), draw(k)))
      {
        if k < |kept| {
          assert out[k] == prev[k] && survivors[k] == kept[k];
        }
      }
    }
  }

  /** The output has as many rows as the input exactly when every row is well shaped. */
  lemma {:induction false} SurvivorsCount(t: seq<Sample>)
    ensures |Survivors(t)| == |t| <==> forall i | 0 <= i < |t| :: WellShaped(t[i])
  {
    if t != [] {
      var n := |t| - 1;
      SurvivorsCount(t[..n]);
      if !WellShaped(t[n]) {
        assert |Survivors(t)| < |t|;
      } else if forall i | 0 <= i < n :: WellShaped(t[..n][i]) {
        assert forall i | 0 <= i < |t| :: WellShaped(t[i]) by {
          forall i | 0 <= i < |t| ensures WellShaped(t[i]) {
            if i < n { assert t[i] == t[..n][i]; }
          }
        }
      } else {
        var i :| 0 <= i < n && !WellShaped(t[..n][i]);
        assert !WellShaped(t[i]);
      }
    }
  }

  /** The filter keeps input order: filtering two tables one after the other
      gives the two filtered tables one after the other. */
  lemma {:induction false} SurvivorsAppend(a: seq<Sample>, b: seq<Sample>)
    ensures Survivors(a + b) == Survivors(a) + Survivors(b)
    decreases |b|
  {
    if b == [] {
      assert a + b == a;
    } else {
      var n := |b| - 1;
      assert (a + b)[..|a + b| - 1] == a + b[..n];
      SurvivorsAppend(a, b[..n]);
    }
  }

  /** One 784-element row followed by one 10-element row: the second is
      skipped and exactly the first remains, with its label. */
  lemma SkipsMisshapenRow(draw: nat -> Angle, rotate: (Grid, Angle) -> Grid)
    ensures var t := [Sample(seq(784, _ => 0.0), 0), Sample(seq(10, _ => 0.0), 1)];
            |Rotated(t, draw, rotate)| == 1 && Rotated(t, draw, rotate)[0].cls == 0
  {
  }

  // ---------------------------------------------------------------------------
  // accuracy_of_model: counting and percentage
  // ---------------------------------------------------------------------------

  /** One validation batch: the predicted classes (argmax of the outputs) and
      the ground-truth labels. */
  datatype Batch = Batch(predicted: seq<Label>, labels: seq<Label>)

  /** `100 * correct // total` with `total == 0`. */
  datatype EvalError = ZeroDivisionError

  /** `(predicted == labels).sum()`: the positions where the two agree. */
  function Matches(p: seq<Label>, l: seq<Label>): (n: nat)
    requires |p| == |l|
    ensures n <= |l|
    ensures n == |l| <==> p == l
  {
    if l == [] then 0
    else Matches(p[..|p| - 1], l[..|l| - 1]) + (if p[|p| - 1] == l[|l| - 1] then 1 else 0)
  }

  /** Every batch has one prediction per label. */
  predicate Aligned(bs: seq<Batch>)
  {
    forall j | 0 <= j < |bs| :: |bs[j].predicted| == |bs[j].labels|
  }

  /** Sum of the batch sizes `labels.size(0)`. */
  function Total(bs: seq<Batch>): nat
  {
    if bs == [] then 0 else Total(bs[..|bs| - 1]) + |bs[|bs| - 1].labels|
  }

  /** Sum of the matches of all batches; never more than `Total`. */
  function Correct(bs: seq<Batch>): (c: nat)
    requires Aligned(bs)
    ensures c <= Total(bs)
  {
    if bs == [] then 0
    else
      assert Aligned(bs[..|bs| - 1]);
      Correct(bs[..|bs| - 1]) + Matches(bs[|bs| - 1].predicted, bs[|bs| - 1].labels)
  }

  /** `100 * correct // total` (floor division of non-negative numbers): the
      largest whole percentage not above the exact ratio, between 0 and 100
      when `correct <= total`. */
  function Percent(correct: nat, total: nat): (p: nat)
    requires total > 0
    ensures p * total <= 100 * correct < (p + 1) * total
    ensures correct <= total ==> p <= 100
    ensures correct == total ==> p == 100
  {
    var p := 100 * correct / total;
    PercentBounds(correct, total, p);
    p
  }

  lemma PercentBounds(correct: nat, total: nat, p: nat)
    requires total > 0 && p == 100 * correct / total
    ensures p * total <= 100 * correct < (p + 1) * total
    ensures correct <= total ==> p <= 100
    ensures correct == total ==> p == 100
  {
    FloorDivision(100 * correct, total);
    if correct <= total {
      ScaleBound(p, 100, total);
    }
    if correct == total {
      ScaleBound(100, p, total);
    }
  }

  /** The quotient of floor division brackets the dividend. */
  lemma FloorDivision(x: nat, t: nat)
    requires t > 0
    ensures (x / t) * t <= x < (x / t + 1) * t
  {
  }

  /** A multiple of `t` below `(b + 1) * t` has a factor at most `b`. */
  lemma ScaleBound(a: nat, b: nat, t: nat)
    requires t > 0 && a * t < (b + 1) * t
    ensures a <= b
  {
  }

  /** accuracy_of_model: accumulates `total` and `correct` batch by batch and
      reports `100 * correct // total`, failing on an empty validation set. */
  method AccuracyOfModel(bs: seq<Batch>) returns (r: Result<nat, EvalError>)
    requires Aligned(bs)
    ensures r.Err? <==> Total(bs) == 0
    ensures r.Ok? ==> r.value <= 100 && r.value == Percent(Correct(bs), Total(bs))
  {
    var correct := 0;
    var total := 0;
    var j := 0;
    while j < |bs|
      invariant 0 <= j <= |bs|
      invariant Aligned(bs[..j])
      invariant total == Total(bs[..j])
      invariant correct == Correct(bs[..j])
    {
      var b := bs[j];
      assert |b.predicted| == |b.labels|;
      ghost var next := bs[..j + 1];
      assert next[..j] == bs[..j] && next[j] == b;
      assert Aligned(next);
      assert Total(next) == Total(bs[..j]) + |b.labels|;
      assert Correct(next) == Correct(bs[..j]) + Matches(b.predicted, b.labels);
      total := total + |b.labels|;
      correct := correct + Matches(b.predicted, b.labels);
      j := j + 1;
    }
    assert bs[..j] == bs;
    if total == 0 {
      return Err(ZeroDivisionError);
    }
    r := Ok(Percent(correct, total));
  }

  /** The division fails exactly when every batch is empty (an empty loader among them). */
  lemma {:induction false} TotalZeroIff(bs: seq<Batch>)
    ensures Total(bs) == 0 <==> forall j | 0 <= j < |bs| :: |bs[j].labels| == 0
  {
    if bs != [] {
      var n := |bs| - 1;
      TotalZeroIff(bs[..n]);
      if Total(bs) == 0 {
        forall j | 0 <= j < |bs| ensures |bs[j].labels| == 0 {
          if j < n { assert bs[j] == bs[..n][j]; }
        }
      } else if |bs[n].labels| == 0 {
        var j :| 0 <= j < n && |bs[..n][j].labels| != 0;
        assert |bs[j].labels| != 0;
      }
    }
  }

  // ---------------------------------------------------------------------------
  // n_classes
  // ---------------------------------------------------------------------------

  /** The distinct values of the `class` column. */
  function ClassSet(t: seq<Sample>): (s: set<Label>)
    ensures |s| <= |t|
    ensures forall i | 0 <= i < |t| :: t[i].cls in s
    ensures forall l | l in s :: exists i | 0 <= i < |t| :: t[i].cls == l
  {
    if t == [] then {}
    else
      var n := |t| - 1;
      assert forall i | 0 <= i < n :: t[..n][i] == t[i];
      ClassSet(t[..n]) + {t[n].cls}
  }

  /** n_classes: the number of distinct labels; at most the row count, and at
      least one exactly when the table has a row. */
  function NClasses(t: seq<Sample>): (n: nat)
    ensures n <= |t|
    ensures n >= 1 <==> |t| >= 1
  {
    |ClassSet(t)|
  }
}
