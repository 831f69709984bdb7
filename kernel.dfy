/** `generate_gaussian_kernel_1d` of otb/utils.cpp. The Gaussian
    `exp(-x^2 / 2 sigma^2) / sqrt(2 pi sigma^2)` for the chosen sigma is the
    parameter `gauss`, a function of the integer offset that is only known to
    be positive; everything else (the offsets, the running weight sum, the
    in-place normalisation) is modelled exactly. */
module GaussianKernel {

  /** The largest `kernel_size` whose cast to `int32_t` keeps its value. */
  const MaxKernelSize: int := 0x8000_0000 - 1

  ghost predicate Positive(gauss: int -> real)
  {
    forall x :: 0.0 < gauss(x)
  }

  /** Offset of entry i from the kernel centre: `i - kernel_size / 2`. */
  function Offset(size: nat, i: int): int
  {
    i - size / 2
  }

  /** The running `weight_sum` after the first n entries have been generated. */
  function WeightSum(gauss: int -> real, size: nat, n: nat): (r: real)
    ensures Positive(gauss) && 0 < n ==> 0.0 < r
  {
    if n == 0 then 0.0 else WeightSum(gauss, size, n - 1) + gauss(Offset(size, n - 1))
  }

  /** The kernel the function returns: entry i is the Gaussian at offset
      `i - kernel_size / 2`, divided by the sum of all raw entries. */
  function Kernel(gauss: int -> real, size: nat): (k: seq<real>)
    requires Positive(gauss)
    ensures |k| == size
  {
    seq(size, i requires 0 <= i < size => gauss(Offset(size, i)) / WeightSum(gauss, size, size))
  }

  /** Sum of a sequence, accumulated left to right. */
  function Sum(s: seq<real>): real
  {
    if s == [] then 0.0 else Sum(s[..|s| - 1]) + s[|s| - 1]
  }

  /** Extending a prefix by one entry adds that entry to its sum. */
  lemma SumStep(s: seq<real>, t: nat)
    requires 0 < t <= |s|
    ensures Sum(s[..t]) == Sum(s[..t - 1]) + s[t - 1]
  {
    assert s[..t][..t - 1] == s[..t - 1];
  }

  /** The generation loop followed by the normalisation loop. */
  method GenerateGaussianKernel(gauss: int -> real, kernelSize: nat) returns (kernel: seq<real>)
    requires Positive(gauss)
    requires kernelSize <= MaxKernelSize
    ensures kernel == Kernel(gauss, kernelSize)
  {
    var values := new real[kernelSize];
    var weightSum := 0.0;
    var i := 0;
    while i < kernelSize
      invariant 0 <= i <= kernelSize
      invariant weightSum == WeightSum(gauss, kernelSize, i)
      invariant forall m :: 0 <= m < i ==> values[m] == gauss(Offset(kernelSize, m))
    {
      var value := gauss(Offset(kernelSize, i));
      values[i] := value;
      weightSum := weightSum + value;
      i := i + 1;
    }
    var j := 0;
    while j < kernelSize
      invariant 0 <= j <= kernelSize
      invariant forall m :: 0 <= m < j ==> values[m] == Kernel(gauss, kernelSize)[m]
      invariant forall m :: j <= m < kernelSize ==> values[m] == gauss(Offset(kernelSize, m))
    {
      values[j] := values[j] / weightSum;
      j := j + 1;
    }
    kernel := values[..];
  }

  /** The partial sums of the kernel are the partial weight sums, scaled. */
  lemma {:induction false} KernelPrefixSum(gauss: int -> real, size: nat, n: nat)
    requires Positive(gauss) && 0 < size && n <= size
    ensures Sum(Kernel(gauss, size)[..n]) == WeightSum(gauss, size, n) / WeightSum(gauss, size, size)
  {
    var k := Kernel(gauss, size);
    var total := WeightSum(gauss, size, size);
    if n > 0 {
      KernelPrefixSum(gauss, size, n - 1);
      assert k[..n][..n - 1] == k[..n - 1];
      assert Sum(k[..n]) == Sum(k[..n - 1]) + k[n - 1];
      assert k[n - 1] == gauss(Offset(size, n - 1)) / total;
      DivAdd(WeightSum(gauss, size, n - 1), gauss(Offset(size, n - 1)), total);
    }
  }

  lemma DivAdd(a: real, b: real, c: real)
    requires c != 0.0
    ensures a / c + b / c == (a + b) / c
  {
  }

  /** A non-empty kernel is normalised: its entries sum to 1. */
  lemma KernelSumsToOne(gauss: int -> real, size: nat)
    requires Positive(gauss) && 0 < size
    ensures Sum(Kernel(gauss, size)) == 1.0
  {
    var k := Kernel(gauss, size);
    KernelPrefixSum(gauss, size, size);
    assert k[..size] == k;
    DivSelf(WeightSum(gauss, size, size));
  }

  lemma DivSelf(t: real)
    requires 0.0 < t
    ensures t / t == 1.0
  {
  }

  /** Every entry of the kernel is positive. */
  lemma KernelPositive(gauss: int -> real, size: nat, i: nat)
    requires Positive(gauss) && i < size
    ensures 0.0 < Kernel(gauss, size)[i]
  {
  }

  /** For an even function (as the Gaussian is) and an odd size, the kernel
      is symmetric about its centre, since entries i and size-1-i sit at
      opposite offsets. */
  lemma KernelSymmetric(gauss: int -> real, size: nat, i: nat)
    requires Positive(gauss) && forall x :: gauss(-x) == gauss(x)
    requires size % 2 == 1 && i < size
    ensures Kernel(gauss, size)[i] == Kernel(gauss, size)[size - 1 - i]
  {
    assert Offset(size, size - 1 - i) == -Offset(size, i);
  }
}
