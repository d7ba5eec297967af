/**
  The decision the upload handler makes once an image has been decoded: which
  kernel size to use, which filter to run, and under what name the result is
  stored. The form fields arrive as optional strings (a missing field is
  `None`), the image only through its height and width, and the random hex of
  `uuid4()` as a parameter.
*/
module App {
  import opened Wrappers
  import opened ImageSmoothing

  /** The kernel size used when the form asks for the fixed policy. */
  const FIXED_KERNEL_SIZE := 5

  /**
    `5 if kernel_option == "fixed" else calculate_optimal_kernel_size(image_rgb)`:
    the comparison is exact and case-sensitive, and an absent field is not
    "fixed".
  */
  function ChooseKernelSize(kernelOption: Option<string>, height: nat, width: nat): (k: nat)
    ensures kernelOption == Some("fixed") ==> k == FIXED_KERNEL_SIZE
    ensures kernelOption != Some("fixed") ==> k == OptimalKernelSize(height, width)
    ensures k % 2 == 1 && 3 <= k
  {
    if kernelOption == Some("fixed") then FIXED_KERNEL_SIZE else OptimalKernelSize(height, width)
  }

  // ---------------------------------------------------------------------------
  // str.lower() on ASCII text
  // ---------------------------------------------------------------------------

  predicate IsUpper(c: char) { 'A' <= c <= 'Z' }

  predicate IsLower(c: char) { 'a' <= c <= 'z' }

  /** The lower-case form of an ASCII letter; never upper-case, and `UpperChar` undoes it on letters. */
  function LowerChar(c: char): (d: char)
    ensures !IsUpper(d)
    ensures IsUpper(c) ==> IsLower(d) && UpperChar(d) == c
    ensures !IsUpper(c) ==> d == c
  {
    if IsUpper(c) then (c as int + 32) as char else c
  }

  /** The upper-case form of an ASCII letter; never lower-case. */
  function UpperChar(c: char): (d: char)
    ensures !IsLower(d)
    ensures IsLower(c) ==> IsUpper(d)
    ensures !IsLower(c) ==> d == c
  {
    if IsLower(c) then (c as int - 32) as char else c
  }

  /**
    `s.lower()`, restricted to ASCII letters: the result has no upper-case
    letter, keeps every other character in place, and puts in place of each
    upper-case letter the lower-case letter it is the capital of.
  */
  function Lower(s: string): (r: string)
    ensures |r| == |s|
    ensures NoUpper(r)
    ensures forall i :: 0 <= i < |s| && !IsUpper(s[i]) ==> r[i] == s[i]
    ensures forall i :: 0 <= i < |s| && IsUpper(s[i]) ==> IsLower(r[i]) && UpperChar(r[i]) == s[i]
  {
    seq(|s|, i requires 0 <= i < |s| => LowerChar(s[i]))
  }

  /** Lowering twice is lowering once. */
  lemma LowerIdempotent(s: string)
    ensures Lower(Lower(s)) == Lower(s)
  {
  }

  /** A string with no upper-case letter. */
  predicate NoUpper(t: string) {
    forall i :: 0 <= i < |t| ==> !IsUpper(t[i])
  }

  /**
    For a target with no upper-case letter, `s.lower() == t` holds exactly when
    `s` spells `t` letter by letter in either case.
  */
  lemma {:induction false} LowerMatches(s: string, t: string)
    requires NoUpper(t)
    ensures Lower(s) == t <==>
      |s| == |t| && forall i :: 0 <= i < |s| ==> s[i] == t[i] || s[i] == UpperChar(t[i])
  {
    if Lower(s) == t {
      forall i | 0 <= i < |s|
        ensures s[i] == t[i] || s[i] == UpperChar(t[i])
      {
        assert LowerChar(s[i]) == t[i];
        if IsUpper(s[i]) {
          assert UpperChar(t[i]) as int == s[i] as int;
        }
      }
    }
    if |s| == |t| && forall i :: 0 <= i < |s| ==> s[i] == t[i] || s[i] == UpperChar(t[i]) {
      forall i | 0 <= i < |s|
        ensures Lower(s)[i] == t[i]
      {
        if s[i] != t[i] {
          assert s[i] == UpperChar(t[i]);
        }
      }
      assert Lower(s) == t;
    }
  }

  // ---------------------------------------------------------------------------
  // Filter selection
  // ---------------------------------------------------------------------------

  /** The two filters the form can select. */
  datatype Filter = AverageSmoothing | GaussianSmoothing

  /** `algorithm_option.lower()` on a missing field raises before any filter runs. */
  datatype HandlerError = AlgorithmOptionMissing

  const AVERAGE_OPTION := "average_smoothing"
  const GAUSSIAN_OPTION := "gaussian_smoothing"

  /**
    The if/elif/else on `algorithm_option.lower()`: `Some(filter)` for the two
    recognised names in any letter case, `None` (nothing is processed) for
    every other string, and an error for a missing field.
  */
  function SelectFilter(algorithmOption: Option<string>): (r: Result<Option<Filter>, HandlerError>)
    ensures r.Failure? <==> algorithmOption.None?
    ensures r == Success(Some(AverageSmoothing)) <==>
      algorithmOption.Some? && Lower(algorithmOption.value) == AVERAGE_OPTION
    ensures r == Success(Some(GaussianSmoothing)) <==>
      algorithmOption.Some? && Lower(algorithmOption.value) == GAUSSIAN_OPTION
    ensures r == Success(None) <==>
      algorithmOption.Some? && Lower(algorithmOption.value) !in {AVERAGE_OPTION, GAUSSIAN_OPTION}
  {
    match algorithmOption
    case None => Failure(AlgorithmOptionMissing)
    case Some(option) =>
      var lowered := Lower(option);
      if lowered == AVERAGE_OPTION then Success(Some(AverageSmoothing))
      else if lowered == GAUSSIAN_OPTION then Success(Some(GaussianSmoothing))
      else Success(None)
  }

  /** Selection ignores letter case: an option and its lowered form select the same filter. */
  lemma SelectFilterIgnoresCase(option: string)
    ensures SelectFilter(Some(option)) == SelectFilter(Some(Lower(option)))
  {
    LowerIdempotent(option);
  }

  /** The average filter is selected by exactly the case variants of "average_smoothing". */
  lemma SelectAverageCaseVariants(option: string)
    ensures SelectFilter(Some(option)) == Success(Some(AverageSmoothing)) <==>
      |option| == |AVERAGE_OPTION| && forall i :: 0 <= i < |option| ==>
        option[i] == AVERAGE_OPTION[i] || option[i] == UpperChar(AVERAGE_OPTION[i])
  {
    LowerMatches(option, AVERAGE_OPTION);
  }

  /** The Gaussian filter is selected by exactly the case variants of "gaussian_smoothing". */
  lemma SelectGaussianCaseVariants(option: string)
    ensures SelectFilter(Some(option)) == Success(Some(GaussianSmoothing)) <==>
      |option| == |GAUSSIAN_OPTION| && forall i :: 0 <= i < |option| ==>
        option[i] == GAUSSIAN_OPTION[i] || option[i] == UpperChar(GAUSSIAN_OPTION[i])
  {
    LowerMatches(option, GAUSSIAN_OPTION);
  }

  /** Worked selections. */
  lemma SelectFilterExamples()
    ensures SelectFilter(Some("average_smoothing")) == Success(Some(AverageSmoothing))
    ensures SelectFilter(Some("Gaussian_Smoothing")) == Success(Some(GaussianSmoothing))
    ensures SelectFilter(Some("AVERAGE_SMOOTHING")) == Success(Some(AverageSmoothing))
    ensures SelectFilter(Some("median_smoothing")) == Success(None)
    ensures SelectFilter(Some("")) == Success(None)
    ensures SelectFilter(None) == Failure(AlgorithmOptionMissing)
  {
    assert Lower("Gaussian_Smoothing") == GAUSSIAN_OPTION;
    assert Lower("AVERAGE_SMOOTHING") == AVERAGE_OPTION;
    assert Lower("median_smoothing")[0] == 'm';
  }

  // ---------------------------------------------------------------------------
  // Naming of the processed file
  // ---------------------------------------------------------------------------

  /** The tag each filter's output file is saved under; the two filters get different tags. */
  function OutputTag(f: Filter): (tag: string)
    ensures tag == "average_image" <==> f == AverageSmoothing
    ensures tag == "gaussian_image" <==> f == GaussianSmoothing
  {
    match f
    case AverageSmoothing => "average_image"
    case GaussianSmoothing => "gaussian_image"
  }

  /** `f"{hex}_{tag}.png"`, with the random hex supplied by the caller. */
  function ProcessedFileName(hex: string, tag: string): (name: string)
    ensures |name| == |hex| + 1 + |tag| + 4
    ensures name[..|hex|] == hex && name[|hex|] == '_'
    ensures name[|hex| + 1..|name| - 4] == tag && name[|name| - 4..] == ".png"
  {
    hex + "_" + tag + ".png"
  }

  /** Hex and tag can be read back from a name when the hex length is known (32 for `uuid4().hex`). */
  lemma ProcessedFileNameInjective(hex1: string, tag1: string, hex2: string, tag2: string)
    requires |hex1| == |hex2|
    requires ProcessedFileName(hex1, tag1) == ProcessedFileName(hex2, tag2)
    ensures hex1 == hex2 && tag1 == tag2
  {
    var name := ProcessedFileName(hex1, tag1);
    assert hex1 == name[..|hex1|] == hex2;
    assert tag1 == name[|hex1| + 1..|name| - 4] == tag2;
  }

  /** For one hex, the two filters never write to the same file name. */
  lemma FiltersWriteDistinctNames(hex: string)
    ensures ProcessedFileName(hex, OutputTag(AverageSmoothing)) != ProcessedFileName(hex, OutputTag(GaussianSmoothing))
  {
    if ProcessedFileName(hex, OutputTag(AverageSmoothing)) == ProcessedFileName(hex, OutputTag(GaussianSmoothing)) {
      ProcessedFileNameInjective(hex, OutputTag(AverageSmoothing), hex, OutputTag(GaussianSmoothing));
      assert false;
    }
  }

  // ---------------------------------------------------------------------------
  // The handler's decision as a whole
  // ---------------------------------------------------------------------------

  /**
    What the handler passes to the display template: the processed file name
    (`None` when no filter ran), the algorithm option as submitted, and the kernel size.
  */
  datatype Rendered = Rendered(processedImage: Option<string>, filterType: string, kernelSize: nat)

  /**
    Lines 55-92 of the handler with the I/O taken out: choose the kernel size,
    select the filter, and name the processed file after the filter's tag.
  */
  function UploadOutcome(kernelOption: Option<string>, algorithmOption: Option<string>,
                         height: nat, width: nat, hex: string): (r: Result<Rendered, HandlerError>)
    ensures r.Failure? <==> algorithmOption.None?
    ensures r.Success? ==> r.value.filterType == algorithmOption.value
    ensures r.Success? ==> r.value.kernelSize == ChooseKernelSize(kernelOption, height, width)
    ensures r.Success? ==> r.value.kernelSize % 2 == 1 && 3 <= r.value.kernelSize
    ensures r.Success? ==> (r.value.processedImage.None? <==> SelectFilter(algorithmOption) == Success(None))
    ensures forall f :: SelectFilter(algorithmOption) == Success(Some(f)) ==>
      r == Success(Rendered(Some(ProcessedFileName(hex, OutputTag(f))), algorithmOption.value,
                            ChooseKernelSize(kernelOption, height, width)))
  {
    var kernelSize := ChooseKernelSize(kernelOption, height, width);
    match SelectFilter(algorithmOption)
    case Failure(e) => Failure(e)
    case Success(None) => Success(Rendered(None, algorithmOption.value, kernelSize))
    case Success(Some(f)) =>
      Success(Rendered(Some(ProcessedFileName(hex, OutputTag(f))), algorithmOption.value, kernelSize))
  }

  /**
    The kernel the selected filter builds: the box kernel or the Gaussian
    kernel of that size (`exp` and the scale `1/(2*pi)` as parameters).
  */
  function AppliedKernel(f: Filter, kernelSize: nat, exp: real -> real, normal: real): (K: Kernel)
    ensures kernelSize % 2 == 1 ==> HasShape(K, kernelSize, kernelSize)
    ensures f == AverageSmoothing ==> HasShape(K, kernelSize, kernelSize)
    ensures f == AverageSmoothing && 0 < kernelSize ==> KernelSum(K) == 1.0
  {
    match f
    case AverageSmoothing =>
      if kernelSize == 0 then BoxKernel(kernelSize).value
      else BoxKernelSumsToOne(kernelSize); BoxKernel(kernelSize).value
    case GaussianSmoothing =>
      if kernelSize == 0 then GaussianKernel(kernelSize, exp, normal)
      else GaussianKernelShape(kernelSize, exp, normal); GaussianKernel(kernelSize, exp, normal)
  }

  /**
    Every size the handler can choose is odd, so whichever filter is selected
    the kernel it builds is square with exactly that side.
  */
  lemma UploadKernelIsSquare(kernelOption: Option<string>, algorithmOption: Option<string>,
                             height: nat, width: nat, exp: real -> real, normal: real, f: Filter)
    requires SelectFilter(algorithmOption) == Success(Some(f))
    ensures var k := ChooseKernelSize(kernelOption, height, width);
      HasShape(AppliedKernel(f, k, exp, normal), k, k)
  {
  }

  /** A 100x100 upload with automatic sizing and "Average_Smoothing" writes `<hex>_average_image.png` with k = 5. */
  lemma UploadOutcomeExample(hex: string)
    ensures UploadOutcome(Some("automatic"), Some("Average_Smoothing"), 100, 100, hex)
      == Success(Rendered(Some(hex + "_average_image.png"), "Average_Smoothing", 5))
  {
    OptimalKernelSizeExamples();
    assert "automatic"[0] != "fixed"[0];
    assert ChooseKernelSize(Some("automatic"), 100, 100) == 5;
    assert Lower("Average_Smoothing") == AVERAGE_OPTION;
    assert hex + "_" + "average_image" + ".png" == hex + "_average_image.png";
  }
}
