/** The post-processing passes of otb/postprocess.cpp, run synchronously:
    `invert`, the separable `gaussian_blur` and the unimplemented `dither`.
    Pixel values are exact reals. Integer arithmetic follows the source's
    `uint32_t`/`int32_t` types: in particular the sample column
    `clamp(j + k, 0u, w - 1)` (and the sample row) is computed on a
    `uint32_t` sum, which wraps for negative offsets. */
module PostProcess {
  import opened Scalar
  import opened Images
  import opened GaussianKernel

  // ---------------------------------------------------------------------
  // invert

  /** The image after `invert`: every texel becomes `saturate(1 - value)`. */
  function Inverted(s: seq<real>): (r: seq<real>)
    ensures |r| == |s|
  {
    seq(|s|, k requires 0 <= k < |s| => Saturate(1.0 - s[k]))
  }

  /** `invert_helper`: visits the texels row by row and rewrites each one
      through `operator[]`. */
  method Invert(image: Image<real>)
    requires image.Valid()
    modifies image.data
    ensures image.data[..] == Inverted(old(image.data[..]))
  {
    var h := image.height;
    var w := image.width;
    AllCellsInBounds(w, h);
    var i := 0;
    while i < h
      invariant 0 <= i <= h
      invariant forall r, c :: 0 <= r < h && 0 <= c < w ==>
        image.data[Idx(r, c, w)] ==
          if r < i then Saturate(1.0 - old(image.data[Idx(r, c, w)])) else old(image.data[Idx(r, c, w)])
    {
      var j := 0;
      while j < w
        invariant 0 <= j <= w
        invariant forall r, c :: 0 <= r < h && 0 <= c < w ==>
          image.data[Idx(r, c, w)] ==
            if r < i || (r == i && c < j) then Saturate(1.0 - old(image.data[Idx(r, c, w)]))
            else old(image.data[Idx(r, c, w)])
      {
        var index := Idx(i, j, w);
        var value := image.Get(index);
        forall r, c | 0 <= r < h && 0 <= c < w && (r != i || c != j)
          ensures Idx(r, c, w) != index
        {
          IdxInjective(r, c, i, j, w);
        }
        image.Set(index, Saturate(1.0 - value));
        j := j + 1;
      }
      i := i + 1;
    }
    forall k | 0 <= k < w * h
      ensures image.data[k] == Saturate(1.0 - old(image.data[k]))
    {
      CellOfIndex(k, w, h);
    }
  }

  /** After `invert` every texel lies in [0, 1]. */
  lemma InvertedInUnitRange(s: seq<real>)
    ensures forall k :: 0 <= k < |s| ==> 0.0 <= Inverted(s)[k] <= 1.0
  {
  }

  /** On texels already in [0, 1], inverting twice gives the image back. */
  lemma {:induction false} InvertInvolution(s: seq<real>)
    requires forall k :: 0 <= k < |s| ==> 0.0 <= s[k] <= 1.0
    ensures Inverted(Inverted(s)) == s
  {
    forall k | 0 <= k < |s|
      ensures Inverted(Inverted(s))[k] == s[k]
    {
      assert Inverted(s)[k] == 1.0 - s[k];
    }
  }

  // ---------------------------------------------------------------------
  // sample coordinates

  /** `clamp(j + k, (uint32_t)0, n - 1)` with `j` a `uint32_t` and `k` an
      `int32_t`: the sum is taken modulo 2^32 before it is clamped. */
  function SampleIndex(j: nat, k: int, n: nat): (s: nat)
    requires j < n < U32
    ensures s < n
    ensures 0 <= j + k < n ==> s == j + k
    ensures n <= j + k < U32 ==> s == n - 1
  {
    Clamp(Wrap32(j + k), 0, n - 1)
  }

  /** A negative offset past the left (or top) border wraps to a huge
      `uint32_t`, which the clamp turns into the opposite border n - 1. */
  lemma NegativeSampleWraps(j: nat, k: int, n: nat)
    requires j < n < U32 && j + k < 0 && n - 1 <= U32 + j + k
    ensures SampleIndex(j, k, n) == n - 1
  {
  }

  /** At column 0 of an image two or more texels wide, the tap at offset -1
      reads the last column, not the first. */
  lemma LeftEdgeSamplesRightBorder()
    ensures SampleIndex(0, -1, 8) == 7
    ensures ClampedSampleIndex(0, -1, 8) == 0
  {
  }

  /** The clamp the blur evidently means (edges extend, no wrap-around):
      the nearest index inside [0, n). */
  function ClampedSampleIndex(j: nat, k: int, n: nat): (s: nat)
    requires j < n
    ensures s < n
    ensures 0 <= j + k < n ==> s == j + k
    ensures j + k < 0 ==> s == 0
    ensures n <= j + k ==> s == n - 1
  {
    Clamp(j + k, 0, n - 1)
  }

  /** The two index computations differ exactly on the offsets that reach
      past the left (or top) border, once the image is wider than one texel. */
  lemma SampleIndexDiffersOnlyLeft(j: nat, k: int, n: nat)
    requires j < n < U32 && 1 < n && n - 1 <= U32 + j + k && j + k < U32
    ensures SampleIndex(j, k, n) != ClampedSampleIndex(j, k, n) <==> j + k < 0
  {
  }

  /** `kernel_half_width = (int32_t)kernel_size / 2` */
  function HalfWidth(size: nat): int
  {
    size / 2
  }

  /** The kernel entry read for offset k: `kernel[k + kernel_half_width]`. */
  function TapIndex(k: int, size: nat): int
  {
    k + HalfWidth(size)
  }

  /** The loop `for k in [-half, half]` reads `kernel[k + half]`; all those
      reads are in bounds exactly when the kernel size is odd. An even size
      reads `kernel[kernel_size]`. */
  lemma TapsInBoundsIffOdd(size: nat)
    ensures (forall k :: -HalfWidth(size) <= k <= HalfWidth(size) ==> 0 <= TapIndex(k, size) < size)
            <==> size % 2 == 1
  {
    var half: int := HalfWidth(size);
    if size % 2 == 0 {
      assert TapIndex(half, size) == size;
    }
  }

  // ---------------------------------------------------------------------
  // blur: specification

  /** Which sample coordinate the blur reads: the source's, which wraps a
      negative sum around to the opposite border, or the corrected one,
      which repeats the edge texel. */
  datatype Edges = AsWritten | Corrected

  function Sample(edges: Edges, j: nat, k: int, n: nat): (s: nat)
    requires j < n < U32
    ensures s < n
  {
    match edges
    case AsWritten => SampleIndex(j, k, n)
    case Corrected => ClampedSampleIndex(j, k, n)
  }

  /** Both rules read the same coordinate unless the sum falls below 0 (or
      past 2^32, which `uint32_t` also wraps). */
  lemma SamplesAgreeInside(j: nat, k: int, n: nat)
    requires j < n < U32 && 0 <= j + k < U32
    ensures Sample(AsWritten, j, k, n) == Sample(Corrected, j, k, n)
  {
  }


  /** Preconditions shared by the blur's specification functions. */
  predicate Shape(src: seq<real>, w: nat, h: nat)
  {
    0 < w < U32 && 0 < h < U32 && |src| == w * h
  }

  /** The texels the row sum of (i, j) reads, one per tap. */
  function RowTaps(src: seq<real>, w: nat, h: nat, i: nat, j: nat, kernel: seq<real>, edges: Edges): (r: seq<real>)
    requires Shape(src, w, h) && i < h && j < w
    ensures |r| == |kernel|
  {
    seq(|kernel|, q requires 0 <= q < |kernel| =>
      IdxBound(i, Sample(edges, j, q - HalfWidth(|kernel|), w), w, h);
      src[Idx(i, Sample(edges, j, q - HalfWidth(|kernel|), w), w)])
  }

  /** The texels the column sum of (i, j) reads, one per tap. */
  function ColumnTaps(src: seq<real>, w: nat, h: nat, i: nat, j: nat, kernel: seq<real>, edges: Edges): (r: seq<real>)
    requires Shape(src, w, h) && i < h && j < w
    ensures |r| == |kernel|
  {
    seq(|kernel|, q requires 0 <= q < |kernel| =>
      IdxBound(Sample(edges, i, q - HalfWidth(|kernel|), h), j, w, h);
      src[Idx(Sample(edges, i, q - HalfWidth(|kernel|), h), j, w)])
  }

  /** The weighted sum of the first t taps. */
  function Weighted(taps: seq<real>, kernel: seq<real>, t: nat): real
    requires t <= |taps| && t <= |kernel|
  {
    if t == 0 then 0.0 else Weighted(taps, kernel, t - 1) + taps[t - 1] * kernel[t - 1]
  }

  /** The running `sum` of the horizontal loop after the first t taps, for
      the texel in row i, column j. Tap t reads column
      `clamp(j + (t - half), 0, w - 1)` of the same row. */
  function RowSum(src: seq<real>, w: nat, h: nat, i: nat, j: nat, kernel: seq<real>, edges: Edges, t: nat): real
    requires Shape(src, w, h) && i < h && j < w && t <= |kernel|
  {
    Weighted(RowTaps(src, w, h, i, j, kernel, edges), kernel, t)
  }

  /** The running `sum` of the vertical loop: tap t reads row
      `clamp(i + (t - half), 0, h - 1)` of the same column. */
  function ColumnSum(src: seq<real>, w: nat, h: nat, i: nat, j: nat, kernel: seq<real>, edges: Edges, t: nat): real
    requires Shape(src, w, h) && i < h && j < w && t <= |kernel|
  {
    Weighted(ColumnTaps(src, w, h, i, j, kernel, edges), kernel, t)
  }

  /** The `temp` buffer after the horizontal half of a pass. */
  function HorizontalPass(src: seq<real>, w: nat, h: nat, kernel: seq<real>, edges: Edges): (r: seq<real>)
    requires Shape(src, w, h)
    ensures Shape(r, w, h)
  {
    seq(w * h, index requires 0 <= index < w * h =>
      CellOfIndex(index, w, h);
      RowSum(src, w, h, RowOf(index, w), ColOf(index, w), kernel, edges, |kernel|))
  }

  /** The image after the vertical half of a pass over `temp`. */
  function VerticalPass(temp: seq<real>, w: nat, h: nat, kernel: seq<real>, edges: Edges): (r: seq<real>)
    requires Shape(temp, w, h)
    ensures Shape(r, w, h)
  {
    seq(w * h, index requires 0 <= index < w * h =>
      CellOfIndex(index, w, h);
      ColumnSum(temp, w, h, RowOf(index, w), ColOf(index, w), kernel, edges, |kernel|))
  }

  /** The image after `passes` full passes, each blurring the previous one. */
  function Blurred(src: seq<real>, w: nat, h: nat, kernel: seq<real>, edges: Edges, passes: nat): (r: seq<real>)
    requires Shape(src, w, h)
    ensures Shape(r, w, h)
  {
    if passes == 0 then src
    else
      var prev := Blurred(src, w, h, kernel, edges, passes - 1);
      VerticalPass(HorizontalPass(prev, w, h, kernel, edges), w, h, kernel, edges)
  }

  /** Texel (i, j) of the horizontal pass is the full weighted row sum. */
  lemma HorizontalPassAt(src: seq<real>, w: nat, h: nat, kernel: seq<real>, edges: Edges, i: nat, j: nat)
    requires Shape(src, w, h) && i < h && j < w
    ensures Idx(i, j, w) < w * h &&
            HorizontalPass(src, w, h, kernel, edges)[Idx(i, j, w)] == RowSum(src, w, h, i, j, kernel, edges, |kernel|)
  {
    IdxBound(i, j, w, h);
    RowColOfIdx(i, j, w);
  }

  /** Texel (i, j) of the vertical pass is the full weighted column sum. */
  lemma VerticalPassAt(temp: seq<real>, w: nat, h: nat, kernel: seq<real>, edges: Edges, i: nat, j: nat)
    requires Shape(temp, w, h) && i < h && j < w
    ensures Idx(i, j, w) < w * h &&
            VerticalPass(temp, w, h, kernel, edges)[Idx(i, j, w)] == ColumnSum(temp, w, h, i, j, kernel, edges, |kernel|)
  {
    IdxBound(i, j, w, h);
    RowColOfIdx(i, j, w);
  }

  // ---------------------------------------------------------------------
  // blur: range

  /** Every texel lies in [0, 1]. */
  predicate InUnitRange(s: seq<real>)
  {
    forall k :: 0 <= k < |s| ==> 0.0 <= s[k] <= 1.0
  }

  /** A kernel whose entries are non-negative weights summing to 1. */
  predicate Normalised(kernel: seq<real>)
  {
    (forall k :: 0 <= k < |kernel| ==> 0.0 <= kernel[k]) && Sum(kernel) == 1.0
  }

  /** Adding a value in [0, 1] times a non-negative weight to a partial sum
      in [0, bound] gives a sum in [0, bound + weight]. */
  lemma WeightedStep(partial: real, v: real, weight: real, bound: real)
    requires 0.0 <= partial <= bound && 0.0 <= v <= 1.0 && 0.0 <= weight
    ensures 0.0 <= partial + v * weight <= bound + weight
  {
    assert 0.0 <= v * weight;
    assert weight - v * weight == (1.0 - v) * weight;
  }

  /** The texels a row or column sum reads are texels of the image. */
  lemma TapsInUnitRange(src: seq<real>, w: nat, h: nat, i: nat, j: nat, kernel: seq<real>, edges: Edges)
    requires Shape(src, w, h) && i < h && j < w && InUnitRange(src)
    ensures InUnitRange(RowTaps(src, w, h, i, j, kernel, edges))
    ensures InUnitRange(ColumnTaps(src, w, h, i, j, kernel, edges))
  {
    forall q | 0 <= q < |kernel|
      ensures 0.0 <= RowTaps(src, w, h, i, j, kernel, edges)[q] <= 1.0
      ensures 0.0 <= ColumnTaps(src, w, h, i, j, kernel, edges)[q] <= 1.0
    {
      IdxBound(i, Sample(edges, j, q - HalfWidth(|kernel|), w), w, h);
      IdxBound(Sample(edges, i, q - HalfWidth(|kernel|), h), j, w, h);
    }
  }

  /** A weighted sum of values in [0, 1] with non-negative weights lies
      between 0 and the sum of the weights. */
  lemma {:induction false} WeightedBounds(taps: seq<real>, kernel: seq<real>, t: nat)
    requires t <= |taps| && t <= |kernel| && InUnitRange(taps)
    requires forall k :: 0 <= k < |kernel| ==> 0.0 <= kernel[k]
    ensures 0.0 <= Weighted(taps, kernel, t) <= Sum(kernel[..t])
  {
    if t > 0 {
      WeightedBounds(taps, kernel, t - 1);
      SumStep(kernel, t);
      WeightedStep(Weighted(taps, kernel, t - 1), taps[t - 1], kernel[t - 1], Sum(kernel[..t - 1]));
    }
  }

  /** One pass with a normalised kernel keeps an image inside [0, 1]. */
  lemma PassesKeepUnitRange(src: seq<real>, w: nat, h: nat, kernel: seq<real>, edges: Edges)
    requires Shape(src, w, h) && InUnitRange(src) && Normalised(kernel)
    ensures InUnitRange(HorizontalPass(src, w, h, kernel, edges))
    ensures InUnitRange(VerticalPass(src, w, h, kernel, edges))
  {
    assert kernel[..|kernel|] == kernel;
    forall k | 0 <= k < w * h
      ensures 0.0 <= HorizontalPass(src, w, h, kernel, edges)[k] <= 1.0
      ensures 0.0 <= VerticalPass(src, w, h, kernel, edges)[k] <= 1.0
    {
      CellOfIndex(k, w, h);
      var i, j := RowOf(k, w), ColOf(k, w);
      TapsInUnitRange(src, w, h, i, j, kernel, edges);
      WeightedBounds(RowTaps(src, w, h, i, j, kernel, edges), kernel, |kernel|);
      WeightedBounds(ColumnTaps(src, w, h, i, j, kernel, edges), kernel, |kernel|);
    }
  }

  /** Any number of passes with a normalised kernel keeps an image inside
      [0, 1]. */
  lemma {:induction false} BlurredInUnitRange(src: seq<real>, w: nat, h: nat, kernel: seq<real>, edges: Edges, passes: nat)
    requires Shape(src, w, h) && InUnitRange(src) && Normalised(kernel)
    ensures InUnitRange(Blurred(src, w, h, kernel, edges, passes))
  {
    if passes > 0 {
      var prev := Blurred(src, w, h, kernel, edges, passes - 1);
      BlurredInUnitRange(src, w, h, kernel, edges, passes - 1);
      PassesKeepUnitRange(prev, w, h, kernel, edges);
      PassesKeepUnitRange(HorizontalPass(prev, w, h, kernel, edges), w, h, kernel, edges);
    }
  }

  /** The Gaussian kernel is normalised, so `gaussian_blur` keeps an image
      whose texels lie in [0, 1] inside [0, 1]. */
  lemma GaussianBlurInUnitRange(src: seq<real>, w: nat, h: nat, gauss: int -> real, size: nat, edges: Edges, passes: nat)
    requires Shape(src, w, h) && InUnitRange(src) && Positive(gauss) && 0 < size
    ensures InUnitRange(Blurred(src, w, h, Kernel(gauss, size), edges, passes))
  {
    var kernel := Kernel(gauss, size);
    KernelSumsToOne(gauss, size);
    forall k | 0 <= k < size
      ensures 0.0 <= kernel[k]
    {
      KernelPositive(gauss, size, k);
    }
    BlurredInUnitRange(src, w, h, kernel, edges, passes);
  }

  // ---------------------------------------------------------------------
  // blur: normalisation

  /** An image of n texels all equal to v. */
  function Uniform(v: real, n: nat): (r: seq<real>)
    ensures |r| == n && forall k :: 0 <= k < n ==> r[k] == v
  {
    seq(n, _ => v)
  }

  /** Weighting t equal texels gives that value times the first t weights. */
  lemma {:induction false} WeightedConstant(taps: seq<real>, kernel: seq<real>, t: nat, v: real)
    requires t <= |taps| && t <= |kernel|
    requires forall k :: 0 <= k < |taps| ==> taps[k] == v
    ensures Weighted(taps, kernel, t) == v * Sum(kernel[..t])
  {
    if t > 0 {
      WeightedConstant(taps, kernel, t - 1, v);
      SumStep(kernel, t);
      assert v * Sum(kernel[..t]) == v * Sum(kernel[..t - 1]) + v * kernel[t - 1];
    }
  }

  /** With a kernel summing to 1, either half of a pass maps a uniform
      image to itself, whichever edge rule it samples with. */
  lemma UniformStaysUniform(w: nat, h: nat, kernel: seq<real>, edges: Edges, v: real)
    requires 0 < w < U32 && 0 < h < U32 && Sum(kernel) == 1.0
    ensures HorizontalPass(Uniform(v, w * h), w, h, kernel, edges) == Uniform(v, w * h)
    ensures VerticalPass(Uniform(v, w * h), w, h, kernel, edges) == Uniform(v, w * h)
  {
    var src := Uniform(v, w * h);
    assert kernel[..|kernel|] == kernel;
    forall k | 0 <= k < w * h
      ensures HorizontalPass(src, w, h, kernel, edges)[k] == v
      ensures VerticalPass(src, w, h, kernel, edges)[k] == v
    {
      CellOfIndex(k, w, h);
      var i, j := RowOf(k, w), ColOf(k, w);
      forall q | 0 <= q < |kernel|
        ensures RowTaps(src, w, h, i, j, kernel, edges)[q] == v
        ensures ColumnTaps(src, w, h, i, j, kernel, edges)[q] == v
      {
        IdxBound(i, Sample(edges, j, q - HalfWidth(|kernel|), w), w, h);
        IdxBound(Sample(edges, i, q - HalfWidth(|kernel|), h), j, w, h);
      }
      WeightedConstant(RowTaps(src, w, h, i, j, kernel, edges), kernel, |kernel|, v);
      WeightedConstant(ColumnTaps(src, w, h, i, j, kernel, edges), kernel, |kernel|, v);
    }
  }

  /** Any number of passes leaves a uniform image unchanged. */
  lemma {:induction false} BlurredUniform(w: nat, h: nat, kernel: seq<real>, edges: Edges, v: real, passes: nat)
    requires 0 < w < U32 && 0 < h < U32 && Sum(kernel) == 1.0
    ensures Blurred(Uniform(v, w * h), w, h, kernel, edges, passes) == Uniform(v, w * h)
  {
    if passes > 0 {
      BlurredUniform(w, h, kernel, edges, v, passes - 1);
      UniformStaysUniform(w, h, kernel, edges, v);
    }
  }

  /** `gaussian_blur` leaves a uniform map unchanged, for every kernel size
      and number of passes, because the generated kernel sums to 1. */
  lemma GaussianBlurKeepsUniform(w: nat, h: nat, gauss: int -> real, size: nat, edges: Edges, v: real, passes: nat)
    requires 0 < w < U32 && 0 < h < U32 && Positive(gauss) && 0 < size
    ensures Blurred(Uniform(v, w * h), w, h, Kernel(gauss, size), edges, passes) == Uniform(v, w * h)
  {
    KernelSumsToOne(gauss, size);
    BlurredUniform(w, h, Kernel(gauss, size), edges, v, passes);
  }

  // ---------------------------------------------------------------------
  // blur: the two edge rules

  /** Away from the left border (every tap's column sum is non-negative) the
      horizontal half reads the same texels under both edge rules. */
  lemma HorizontalRulesAgreeInside(src: seq<real>, w: nat, h: nat, kernel: seq<real>, i: nat, j: nat)
    requires Shape(src, w, h) && i < h && HalfWidth(|kernel|) <= j < w && j + |kernel| < U32
    ensures Idx(i, j, w) < w * h
    ensures HorizontalPass(src, w, h, kernel, AsWritten)[Idx(i, j, w)] ==
            HorizontalPass(src, w, h, kernel, Corrected)[Idx(i, j, w)]
  {
    forall q | 0 <= q < |kernel|
      ensures RowTaps(src, w, h, i, j, kernel, AsWritten)[q] == RowTaps(src, w, h, i, j, kernel, Corrected)[q]
    {
      SamplesAgreeInside(j, q - HalfWidth(|kernel|), w);
    }
    assert RowTaps(src, w, h, i, j, kernel, AsWritten) == RowTaps(src, w, h, i, j, kernel, Corrected);
    HorizontalPassAt(src, w, h, kernel, AsWritten, i, j);
    HorizontalPassAt(src, w, h, kernel, Corrected, i, j);
  }

  /** Away from the top border the vertical half reads the same texels
      under both edge rules. */
  lemma VerticalRulesAgreeInside(temp: seq<real>, w: nat, h: nat, kernel: seq<real>, i: nat, j: nat)
    requires Shape(temp, w, h) && HalfWidth(|kernel|) <= i < h && j < w && i + |kernel| < U32
    ensures Idx(i, j, w) < w * h
    ensures VerticalPass(temp, w, h, kernel, AsWritten)[Idx(i, j, w)] ==
            VerticalPass(temp, w, h, kernel, Corrected)[Idx(i, j, w)]
  {
    forall q | 0 <= q < |kernel|
      ensures ColumnTaps(temp, w, h, i, j, kernel, AsWritten)[q] == ColumnTaps(temp, w, h, i, j, kernel, Corrected)[q]
    {
      SamplesAgreeInside(i, q - HalfWidth(|kernel|), h);
    }
    assert ColumnTaps(temp, w, h, i, j, kernel, AsWritten) == ColumnTaps(temp, w, h, i, j, kernel, Corrected);
    VerticalPassAt(temp, w, h, kernel, AsWritten, i, j);
    VerticalPassAt(temp, w, h, kernel, Corrected, i, j);
  }

  /** At column 0 of a row, the as-written horizontal half with a 3-tap
      kernel mixes in the row's last texel, where the corrected one counts
      the first texel twice. */
  lemma LeftEdgeTapsDiffer(src: seq<real>, w: nat, h: nat, kernel: seq<real>, i: nat)
    requires Shape(src, w, h) && 1 < w && i < h && |kernel| == 3
    ensures Idx(i, w - 1, w) < |src| && Idx(i, 0, w) < |src|
    ensures RowTaps(src, w, h, i, 0, kernel, AsWritten)[0] == src[Idx(i, w - 1, w)]
    ensures RowTaps(src, w, h, i, 0, kernel, Corrected)[0] == src[Idx(i, 0, w)]
  {
    IdxBound(i, w - 1, w, h);
    IdxBound(i, 0, w, h);
    NegativeSampleWraps(0, -1, w);
    assert Sample(AsWritten, 0, 0 - HalfWidth(|kernel|), w) == w - 1;
    assert Sample(Corrected, 0, 0 - HalfWidth(|kernel|), w) == 0;
  }

  // ---------------------------------------------------------------------
  // blur: the loops

  /** The inner `k` loop of the horizontal half: the weighted sum of the
      taps along row i around column j. */
  method SumRow(image: Image<real>, i: nat, j: nat, kernel: seq<real>) returns (sum: real)
    requires image.Valid() && i < image.height && j < image.width && |kernel| % 2 == 1
    ensures sum == RowSum(image.data[..], image.width, image.height, i, j, kernel, AsWritten, |kernel|)
  {
    var w, h := image.width, image.height;
    var half := HalfWidth(|kernel|);
    ghost var src := image.data[..];
    sum := 0.0;
    var k := -half;
    while k <= half
      invariant -half <= k <= half + 1
      invariant sum == RowSum(src, w, h, i, j, kernel, AsWritten, TapIndex(k, |kernel|))
    {
      var sampleJ := SampleIndex(j, k, w);
      var index := Idx(i, sampleJ, w);
      IdxBound(i, sampleJ, w, h);
      var value := image.Get(index);
      RowSumStep(src, w, h, i, j, kernel, AsWritten, TapIndex(k, |kernel|));
      sum := sum + value * kernel[TapIndex(k, |kernel|)];
      k := k + 1;
    }
  }

  /** Each tap of the horizontal loop adds the sampled texel of the same
      row, which lies inside the image, times its weight. */
  lemma RowSumStep(src: seq<real>, w: nat, h: nat, i: nat, j: nat, kernel: seq<real>, edges: Edges, t: nat)
    requires Shape(src, w, h) && i < h && j < w && t < |kernel|
    ensures Idx(i, Sample(edges, j, t - HalfWidth(|kernel|), w), w) < |src|
    ensures RowSum(src, w, h, i, j, kernel, edges, t + 1) ==
      RowSum(src, w, h, i, j, kernel, edges, t) + src[Idx(i, Sample(edges, j, t - HalfWidth(|kernel|), w), w)] * kernel[t]
  {
    IdxBound(i, Sample(edges, j, t - HalfWidth(|kernel|), w), w, h);
    assert RowTaps(src, w, h, i, j, kernel, edges)[t] == src[Idx(i, Sample(edges, j, t - HalfWidth(|kernel|), w), w)];
  }

  /** Each tap of the vertical loop adds the sampled texel of the same
      column, which lies inside the image, times its weight. */
  lemma ColumnSumStep(src: seq<real>, w: nat, h: nat, i: nat, j: nat, kernel: seq<real>, edges: Edges, t: nat)
    requires Shape(src, w, h) && i < h && j < w && t < |kernel|
    ensures Idx(Sample(edges, i, t - HalfWidth(|kernel|), h), j, w) < |src|
    ensures ColumnSum(src, w, h, i, j, kernel, edges, t + 1) ==
      ColumnSum(src, w, h, i, j, kernel, edges, t) + src[Idx(Sample(edges, i, t - HalfWidth(|kernel|), h), j, w)] * kernel[t]
  {
    IdxBound(Sample(edges, i, t - HalfWidth(|kernel|), h), j, w, h);
    assert ColumnTaps(src, w, h, i, j, kernel, edges)[t] == src[Idx(Sample(edges, i, t - HalfWidth(|kernel|), h), j, w)];
  }

  /** The inner `k` loop of the vertical half: the weighted sum of the taps
      along column j around row i. */
  method SumColumn(temp: Image<real>, i: nat, j: nat, kernel: seq<real>) returns (sum: real)
    requires temp.Valid() && i < temp.height && j < temp.width && |kernel| % 2 == 1
    ensures sum == ColumnSum(temp.data[..], temp.width, temp.height, i, j, kernel, AsWritten, |kernel|)
  {
    var w, h := temp.width, temp.height;
    var half := HalfWidth(|kernel|);
    ghost var src := temp.data[..];
    sum := 0.0;
    var k := -half;
    while k <= half
      invariant -half <= k <= half + 1
      invariant sum == ColumnSum(src, w, h, i, j, kernel, AsWritten, TapIndex(k, |kernel|))
    {
      var sampleI := SampleIndex(i, k, h);
      var index := Idx(sampleI, j, w);
      IdxBound(sampleI, j, w, h);
      var value := temp.Get(index);
      ColumnSumStep(src, w, h, i, j, kernel, AsWritten, TapIndex(k, |kernel|));
      sum := sum + value * kernel[TapIndex(k, |kernel|)];
      k := k + 1;
    }
  }

  /** One row of the horizontal half: the `j` loop for row i, writing
      `temp[i * w + j]` for every column j and nothing else. */
  method BlurRow(image: Image<real>, temp: Image<real>, i: nat, kernel: seq<real>)
    requires image.Valid() && temp.Valid() && image.data != temp.data
    requires temp.width == image.width && temp.height == image.height
    requires i < image.height && |kernel| % 2 == 1
    modifies temp.data
    ensures forall r, c :: 0 <= r < image.height && 0 <= c < image.width ==>
      Idx(r, c, image.width) < temp.data.Length &&
      temp.data[Idx(r, c, image.width)] ==
        if r == i then HorizontalPass(image.data[..], image.width, image.height, kernel, AsWritten)[Idx(r, c, image.width)]
        else old(temp.data[Idx(r, c, image.width)])
  {
    var w, h := image.width, image.height;
    ghost var target := HorizontalPass(image.data[..], w, h, kernel, AsWritten);
    AllCellsInBounds(w, h);
    var j := 0;
    while j < w
      invariant 0 <= j <= w
      invariant forall r, c :: 0 <= r < h && 0 <= c < w ==>
        temp.data[Idx(r, c, w)] == if r == i && c < j then target[Idx(r, c, w)] else old(temp.data[Idx(r, c, w)])
    {
      var sum := SumRow(image, i, j, kernel);
      HorizontalPassAt(image.data[..], w, h, kernel, AsWritten, i, j);
      var index := Idx(i, j, w);
      forall r, c | 0 <= r < h && 0 <= c < w && (r != i || c != j)
        ensures Idx(r, c, w) != index
      {
        IdxInjective(r, c, i, j, w);
      }
      temp.Set(index, sum);
      j := j + 1;
    }
  }

  /** The horizontal half of a pass: rows outer, columns inner, every
      `temp[i * w + j]` written once. */
  method BlurRows(image: Image<real>, temp: Image<real>, kernel: seq<real>)
    requires image.Valid() && temp.Valid() && image.data != temp.data
    requires temp.width == image.width && temp.height == image.height
    requires |kernel| % 2 == 1
    modifies temp.data
    ensures temp.data[..] == HorizontalPass(image.data[..], image.width, image.height, kernel, AsWritten)
  {
    var h := image.height;
    var w := image.width;
    ghost var target := HorizontalPass(image.data[..], w, h, kernel, AsWritten);
    AllCellsInBounds(w, h);
    var i := 0;
    while i < h
      invariant 0 <= i <= h
      invariant forall r, c :: 0 <= r < i && 0 <= c < w ==> temp.data[Idx(r, c, w)] == target[Idx(r, c, w)]
    {
      BlurRow(image, temp, i, kernel);
      i := i + 1;
    }
    forall k | 0 <= k < w * h
      ensures temp.data[k] == target[k]
    {
      CellOfIndex(k, w, h);
    }
  }

  /** One column of the vertical half: the `i` loop for column j, writing
      `image[i * w + j]` for every row i and nothing else. */
  method BlurColumn(temp: Image<real>, image: Image<real>, j: nat, kernel: seq<real>)
    requires image.Valid() && temp.Valid() && image.data != temp.data
    requires temp.width == image.width && temp.height == image.height
    requires j < image.width && |kernel| % 2 == 1
    modifies image.data
    ensures forall r, c :: 0 <= r < image.height && 0 <= c < image.width ==>
      Idx(r, c, image.width) < image.data.Length &&
      image.data[Idx(r, c, image.width)] ==
        if c == j then VerticalPass(temp.data[..], image.width, image.height, kernel, AsWritten)[Idx(r, c, image.width)]
        else old(image.data[Idx(r, c, image.width)])
  {
    var w, h := image.width, image.height;
    ghost var target := VerticalPass(temp.data[..], w, h, kernel, AsWritten);
    AllCellsInBounds(w, h);
    var i := 0;
    while i < h
      invariant 0 <= i <= h
      invariant forall r, c :: 0 <= r < h && 0 <= c < w ==>
        image.data[Idx(r, c, w)] == if c == j && r < i then target[Idx(r, c, w)] else old(image.data[Idx(r, c, w)])
    {
      var sum := SumColumn(temp, i, j, kernel);
      VerticalPassAt(temp.data[..], w, h, kernel, AsWritten, i, j);
      var index := Idx(i, j, w);
      forall r, c | 0 <= r < h && 0 <= c < w && (r != i || c != j)
        ensures Idx(r, c, w) != index
      {
        IdxInjective(r, c, i, j, w);
      }
      image.Set(index, sum);
      i := i + 1;
    }
  }

  /** The vertical half of a pass: columns outer, rows inner, every
      `image[i * w + j]` written once from `temp`. */
  method BlurColumns(temp: Image<real>, image: Image<real>, kernel: seq<real>)
    requires image.Valid() && temp.Valid() && image.data != temp.data
    requires temp.width == image.width && temp.height == image.height
    requires |kernel| % 2 == 1
    modifies image.data
    ensures image.data[..] == VerticalPass(temp.data[..], image.width, image.height, kernel, AsWritten)
  {
    var h := image.height;
    var w := image.width;
    ghost var target := VerticalPass(temp.data[..], w, h, kernel, AsWritten);
    AllCellsInBounds(w, h);
    var j := 0;
    while j < w
      invariant 0 <= j <= w
      invariant forall r, c :: 0 <= r < h && 0 <= c < j ==> image.data[Idx(r, c, w)] == target[Idx(r, c, w)]
    {
      BlurColumn(temp, image, j, kernel);
      j := j + 1;
    }
    forall k | 0 <= k < w * h
      ensures image.data[k] == target[k]
    {
      CellOfIndex(k, w, h);
    }
  }

  /** The pass loop of `gaussian_blur_helper`: each pass blurs the image
      horizontally into `temp`, then vertically back into the image. */
  method BlurPasses(image: Image<real>, temp: Image<real>, kernel: seq<real>, numPass: nat)
    requires image.Valid() && temp.Valid() && image.data != temp.data
    requires temp.width == image.width && temp.height == image.height
    requires |kernel| % 2 == 1
    modifies image.data, temp.data
    ensures image.data[..] == Blurred(old(image.data[..]), image.width, image.height, kernel, AsWritten, numPass)
  {
    var pass := 0;
    while pass < numPass
      invariant 0 <= pass <= numPass
      invariant image.data[..] == Blurred(old(image.data[..]), image.width, image.height, kernel, AsWritten, pass)
    {
      BlurRows(image, temp, kernel);
      BlurColumns(temp, image, kernel);
      pass := pass + 1;
    }
  }

  /** `gaussian_blur_helper`: builds the kernel and a `temp` image of the
      same size, then runs `num_pass` passes of a horizontal half into `temp`
      followed by a vertical half back into the image. */
  method GaussianBlur(image: Image<real>, numPass: U32Value, kernelSize: U32Value, gauss: int -> real)
    requires image.Valid() && Positive(gauss)
    requires kernelSize % 2 == 1 && kernelSize <= MaxKernelSize
    modifies image.data
    ensures image.data[..] ==
      Blurred(old(image.data[..]), image.width, image.height, Kernel(gauss, kernelSize), AsWritten, numPass)
    ensures numPass == 0 ==> image.data[..] == old(image.data[..])
  {
    var temp := new Image<real>(F32, image.width, image.height);
    var kernel := GenerateGaussianKernel(gauss, kernelSize);
    BlurPasses(image, temp, kernel, numPass);
  }

  /** `dither_helper`: its body is commented out, so it changes nothing. */
  method Dither(image: Image<real>)
    requires image.Valid()
    ensures image.data[..] == old(image.data[..])
  {
    var h := image.height;
    var w := image.width;
  }
}
