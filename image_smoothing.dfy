/**
  Kernel construction and automatic kernel sizing of the smoothing filters.

  The three pieces are the automatic size heuristic, the uniform (box) kernel
  of the average filter and the offset grid of the Gaussian filter. Kernel
  weights are exact reals standing in for float32/float64, and `exp` together
  with the scale `1/(2*pi)` are parameters of the Gaussian kernel.
*/
module ImageSmoothing {
  import opened Wrappers

  /** A 2D kernel of weights, row by row. */
  type Kernel = seq<seq<real>>

  /** `K` has `rows` rows of `cols` entries each. */
  predicate HasShape(K: Kernel, rows: nat, cols: nat) {
    |K| == rows && forall i :: 0 <= i < rows ==> |K[i]| == cols
  }

  function Min(a: nat, b: nat): nat { if a <= b then a else b }

  function Max(a: int, b: int): int { if a >= b then a else b }

  // ---------------------------------------------------------------------------
  // Python's `|` on non-negative integers
  // ---------------------------------------------------------------------------

  /**
    Bitwise or of two non-negative integers, one binary digit at a time. The
    contract states only the low bit and the bounds; the body is the full
    digit-wise or, and `OrOne` pins down the one use the sizing makes of it, `| 1`.
  */
  function BitOr(a: nat, b: nat): (r: nat)
    ensures r % 2 == 1 <==> a % 2 == 1 || b % 2 == 1
    ensures a <= r && b <= r
    ensures r <= a + b
  {
    if a == 0 then b
    else if b == 0 then a
    else 2 * BitOr(a / 2, b / 2) + (if a % 2 == 1 || b % 2 == 1 then 1 else 0)
  }

  /** Or-ing with 1 sets the lowest bit: an even number goes up by one, an odd one stays. */
  lemma OrOne(a: nat)
    ensures BitOr(a, 1) == if a % 2 == 1 then a else a + 1
  {
    if a != 0 {
      assert BitOr(a / 2, 0) == a / 2;
    }
  }

  // ---------------------------------------------------------------------------
  // calculate_optimal_kernel_size
  // ---------------------------------------------------------------------------

  /**
    The automatic kernel size for an image of the given height and width
    (`image.shape[0]`, `image.shape[1]`): the smaller dimension floor-divided
    by 20, or-ed with 1, and at least 3.
  */
  function OptimalKernelSize(height: nat, width: nat): (k: nat)
    ensures k % 2 == 1
    ensures 3 <= k
  {
    var smallest := Min(height, width);
    Max(3, BitOr(smallest / 20, 1))
  }

  /** The automatic size in closed form, from q = (smaller dimension) div 20. */
  lemma OptimalKernelSizeClosedForm(height: nat, width: nat)
    ensures var q := Min(height, width) / 20;
      OptimalKernelSize(height, width) == if q % 2 == 1 then Max(3, q) else Max(3, q + 1)
  {
    OrOne(Min(height, width) / 20);
  }

  /** Only the smaller dimension matters, so height and width may be swapped. */
  lemma OptimalKernelSizeDependsOnSmallest(h1: nat, w1: nat, h2: nat, w2: nat)
    requires Min(h1, w1) == Min(h2, w2)
    ensures OptimalKernelSize(h1, w1) == OptimalKernelSize(h2, w2)
    ensures OptimalKernelSize(h1, w1) == OptimalKernelSize(w1, h1)
  {
  }

  /** A larger smaller-dimension never gives a smaller kernel. */
  lemma OptimalKernelSizeMonotone(h1: nat, w1: nat, h2: nat, w2: nat)
    requires Min(h1, w1) <= Min(h2, w2)
    ensures OptimalKernelSize(h1, w1) <= OptimalKernelSize(h2, w2)
  {
    OptimalKernelSizeClosedForm(h1, w1);
    OptimalKernelSizeClosedForm(h2, w2);
    var q1, q2 := Min(h1, w1) / 20, Min(h2, w2) / 20;
    assert q1 <= q2;
  }

  /** The automatic size is (smaller dimension) div 20 plus at most one, and at least 3. */
  lemma OptimalKernelSizeBounds(height: nat, width: nat)
    ensures var q := Min(height, width) / 20;
      Max(3, q) <= OptimalKernelSize(height, width) <= Max(3, q + 1)
  {
    OptimalKernelSizeClosedForm(height, width);
  }

  /** Worked sizes: a 100x100 image gives 5, a smaller side of 40 gives 3, of 19 gives 3. */
  lemma OptimalKernelSizeExamples()
    ensures OptimalKernelSize(100, 100) == 5
    ensures OptimalKernelSize(480, 100) == 5
    ensures OptimalKernelSize(40, 300) == 3
    ensures OptimalKernelSize(19, 19) == 3
    ensures OptimalKernelSize(0, 7) == 3
    ensures OptimalKernelSize(1080, 1920) == 55
  {
    OrOne(5);
    OrOne(2);
    OrOne(0);
    OrOne(54);
  }

  // ---------------------------------------------------------------------------
  // Box kernel of averange_image_3channel
  // ---------------------------------------------------------------------------

  /** numpy refuses to allocate an array with a negative dimension. */
  datatype ShapeError = NegativeDimensions

  /**
    `np.ones((k, k)) / (k * k)`: a k x k kernel whose entries are all the same
    weight, the reciprocal of k*k, so that the kernel takes an unweighted mean.
  */
  function BoxKernel(kernelSize: int): (r: Result<Kernel, ShapeError>)
    ensures r.Failure? <==> kernelSize < 0
    ensures r.Success? ==> HasShape(r.value, kernelSize, kernelSize)
    ensures r.Success? ==> forall i, j :: 0 <= i < kernelSize && 0 <= j < kernelSize ==>
      r.value[i][j] * (kernelSize * kernelSize) as real == 1.0
  {
    if kernelSize < 0 then Failure(NegativeDimensions)
    else if kernelSize == 0 then Success([])
    else
      var weight := 1.0 / (kernelSize * kernelSize) as real;
      Success(seq(kernelSize, _ => seq(kernelSize, _ => weight)))
  }

  /** Sum of a row of weights. */
  function Sum(s: seq<real>): real {
    if s == [] then 0.0 else s[0] + Sum(s[1..])
  }

  /** Sum of all weights of a kernel. */
  function KernelSum(K: Kernel): real {
    if K == [] then 0.0 else Sum(K[0]) + KernelSum(K[1..])
  }

  lemma {:induction false} SumOfConstant(s: seq<real>, c: real)
    requires forall i :: 0 <= i < |s| ==> s[i] == c
    ensures Sum(s) == |s| as real * c
  {
    if s != [] {
      SumOfConstant(s[1..], c);
    }
  }

  lemma {:induction false} KernelSumOfConstantRows(K: Kernel, c: real)
    requires forall i :: 0 <= i < |K| ==> Sum(K[i]) == c
    ensures KernelSum(K) == |K| as real * c
  {
    if K != [] {
      KernelSumOfConstantRows(K[1..], c);
    }
  }

  /** The weights of a non-empty box kernel add up to exactly 1. */
  lemma BoxKernelSumsToOne(kernelSize: int)
    requires 0 < kernelSize
    ensures BoxKernel(kernelSize).Success?
    ensures KernelSum(BoxKernel(kernelSize).value) == 1.0
  {
    var K := BoxKernel(kernelSize).value;
    var n := kernelSize as real;
    var weight := 1.0 / (kernelSize * kernelSize) as real;
    assert (kernelSize * kernelSize) as real == n * n;
    forall i | 0 <= i < |K|
      ensures Sum(K[i]) == n * weight
    {
      SumOfConstant(K[i], weight);
    }
    KernelSumOfConstantRows(K, n * weight);
    assert n * (n * weight) == (n * n) * weight;
  }

  // ---------------------------------------------------------------------------
  // Offset grid and weights of gaussian_image_3channel
  // ---------------------------------------------------------------------------

  /**
    `int(kernel_size / 2)`: true division followed by truncation toward zero,
    so twice the radius is the even number next to `kernelSize` on the side of 0.
  */
  function GridRadius(kernelSize: int): (size: int)
    ensures 0 <= kernelSize ==> 0 <= 2 * size <= kernelSize < 2 * size + 2
    ensures kernelSize < 0 ==> 2 * size - 2 < kernelSize <= 2 * size <= 0
  {
    if kernelSize >= 0 then kernelSize / 2 else -((-kernelSize) / 2)
  }

  /** The integers `lo, lo+1, ..., hi-1`, as a slice `lo:hi` enumerates them. */
  function Range(lo: int, hi: int): (r: seq<int>)
    ensures |r| == if lo < hi then hi - lo else 0
    ensures forall i :: 0 <= i < |r| ==> r[i] == lo + i
    decreases hi - lo
  {
    if hi <= lo then [] else [lo] + Range(lo + 1, hi)
  }

  /** The offsets of `np.mgrid[-size:size + 1]`, along either axis of the kernel. */
  function GridOffsets(kernelSize: int): (o: seq<int>)
    ensures var size := GridRadius(kernelSize);
      |o| == (if 0 <= size then 2 * size + 1 else 0)
      && forall i :: 0 <= i < |o| ==> o[i] == -size + i
  {
    var size := GridRadius(kernelSize);
    Range(-size, size + 1)
  }

  /** For a non-negative size the grid has side 2*(k div 2) + 1 and runs from -(k div 2) to k div 2. */
  lemma GridOffsetsShape(kernelSize: int)
    requires 0 <= kernelSize
    ensures var o := GridOffsets(kernelSize);
      && |o| == 2 * (kernelSize / 2) + 1
      && (forall i :: 0 <= i < |o| ==> o[i] == -(kernelSize / 2) + i)
      && o[0] == -(kernelSize / 2) && o[|o| - 1] == kernelSize / 2
  {
  }

  /** An odd size gives a grid of exactly that side. */
  lemma GridSideOdd(kernelSize: int)
    requires 0 < kernelSize && kernelSize % 2 == 1
    ensures |GridOffsets(kernelSize)| == kernelSize
  {
  }

  /** An even size gives a grid one wider than asked for: the kernel is not k x k. */
  lemma GridSideEven(kernelSize: int)
    requires 0 < kernelSize && kernelSize % 2 == 0
    ensures |GridOffsets(kernelSize)| == kernelSize + 1
  {
  }

  /** Truncation makes -1 a 1 x 1 grid and every size below -1 an empty one. */
  lemma GridSideNegative(kernelSize: int)
    requires kernelSize < 0
    ensures |GridOffsets(kernelSize)| == if kernelSize == -1 then 1 else 0
  {
  }

  /** The offsets are symmetric about the centre: mirrored positions hold opposite offsets. */
  lemma GridOffsetsSymmetric(kernelSize: int, i: nat)
    requires i < |GridOffsets(kernelSize)|
    ensures var o := GridOffsets(kernelSize);
      o[|o| - 1 - i] == -o[i]
  {
  }

  /**
    The argument of `exp` at offset (x, y), with sigma = 1: -(x^2 + y^2) / 2.
    It is never positive and is zero only at the centre offset (0, 0).
  */
  function Exponent(x: int, y: int): (e: real)
    ensures e <= 0.0
    ensures e == 0.0 <==> x == 0 && y == 0
  {
    assert x * x >= 0 && y * y >= 0;
    assert x != 0 ==> x * x > 0;
    assert y != 0 ==> y * y > 0;
    -((x * x + y * y) as real) / 2.0
  }

  /** Offsets farther from the centre get a smaller (or equal) exponent argument. */
  lemma ExponentPeak(x1: int, y1: int, x2: int, y2: int)
    requires x1 * x1 + y1 * y1 <= x2 * x2 + y2 * y2
    ensures Exponent(x2, y2) <= Exponent(x1, y1) <= Exponent(0, 0)
  {
  }

  /**
    The Gaussian weight at offset (x, y), given `exp` and the scale `1/(2*pi)`.
    When `exp` is increasing on the non-positive reals and the scale is not
    negative, no weight exceeds the weight at the centre.
  */
  function GaussianWeight(exp: real -> real, normal: real, x: int, y: int): (w: real)
    ensures (forall e :: e <= 0.0 ==> exp(e) <= exp(0.0)) && 0.0 <= normal ==>
      w <= exp(0.0) * normal
  {
    var e := Exponent(x, y);
    exp(e) * normal
  }

  /** The weight is a function of x^2 + y^2 alone. */
  lemma GaussianWeightRadial(exp: real -> real, normal: real, x1: int, y1: int, x2: int, y2: int)
    requires x1 * x1 + y1 * y1 == x2 * x2 + y2 * y2
    ensures GaussianWeight(exp, normal, x1, y1) == GaussianWeight(exp, normal, x2, y2)
  {
  }

  /** The unnormalised Gaussian kernel over the offset grid; row i has x offset o[i], column j y offset o[j]. */
  function GaussianKernel(kernelSize: int, exp: real -> real, normal: real): (K: Kernel)
    ensures var n := |GridOffsets(kernelSize)|; HasShape(K, n, n)
  {
    var o := GridOffsets(kernelSize);
    seq(|o|, i requires 0 <= i < |o| =>
      seq(|o|, j requires 0 <= j < |o| => GaussianWeight(exp, normal, o[i], o[j])))
  }

  /** An odd positive size gives a k x k Gaussian kernel, an even one a (k+1) x (k+1) kernel. */
  lemma GaussianKernelShape(kernelSize: int, exp: real -> real, normal: real)
    requires 0 < kernelSize
    ensures kernelSize % 2 == 1 ==> HasShape(GaussianKernel(kernelSize, exp, normal), kernelSize, kernelSize)
    ensures kernelSize % 2 == 0 ==> HasShape(GaussianKernel(kernelSize, exp, normal), kernelSize + 1, kernelSize + 1)
  {
    if kernelSize % 2 == 1 {
      GridSideOdd(kernelSize);
    } else {
      GridSideEven(kernelSize);
    }
  }

  /** The Gaussian kernel is unchanged by transposing it or by mirroring either axis. */
  lemma GaussianKernelSymmetric(kernelSize: int, exp: real -> real, normal: real, i: nat, j: nat)
    requires i < |GridOffsets(kernelSize)| && j < |GridOffsets(kernelSize)|
    ensures var K := GaussianKernel(kernelSize, exp, normal); var n := |K|;
      && K[i][j] == K[j][i]
      && K[n - 1 - i][j] == K[i][j]
      && K[i][n - 1 - j] == K[i][j]
  {
    var o := GridOffsets(kernelSize);
    GridOffsetsSymmetric(kernelSize, i);
    GridOffsetsSymmetric(kernelSize, j);
    GaussianWeightRadial(exp, normal, o[i], o[j], o[j], o[i]);
    GaussianWeightRadial(exp, normal, o[|o| - 1 - i], o[j], o[i], o[j]);
    GaussianWeightRadial(exp, normal, o[i], o[|o| - 1 - j], o[i], o[j]);
  }

  /**
    The centre entry has the largest exponent argument, and no other entry has
    it; so when `exp` is increasing and the scale non-negative, the centre
    weight is the largest.
  */
  lemma GaussianKernelCentrePeak(kernelSize: int, exp: real -> real, normal: real, i: nat, j: nat)
    requires i < |GridOffsets(kernelSize)| && j < |GridOffsets(kernelSize)|
    ensures var o := GridOffsets(kernelSize); var c := GridRadius(kernelSize);
      && o[c] == 0
      && Exponent(o[i], o[j]) <= Exponent(o[c], o[c])
      && (Exponent(o[i], o[j]) == Exponent(o[c], o[c]) <==> i == c && j == c)
    ensures (forall e :: e <= 0.0 ==> exp(e) <= exp(0.0)) && 0.0 <= normal ==>
      var K := GaussianKernel(kernelSize, exp, normal); var c := GridRadius(kernelSize);
      K[i][j] <= K[c][c]
  {
    var o := GridOffsets(kernelSize);
    var c := GridRadius(kernelSize);
    assert o[c] == 0;
    if (forall e :: e <= 0.0 ==> exp(e) <= exp(0.0)) && 0.0 <= normal {
      var K := GaussianKernel(kernelSize, exp, normal);
      assert K[i][j] == GaussianWeight(exp, normal, o[i], o[j]);
      assert K[c][c] == exp(0.0) * normal;
    }
  }

}
