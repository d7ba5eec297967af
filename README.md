# Image smoothing web app: kernel sizing, kernels and filter dispatch

This project models the logic of a small Flask application that blurs an
uploaded image. A user picks a filter (average or Gaussian) and a kernel-size
policy (fixed or automatic). The application then smooths the image with that
kernel and stores the result under a random name. The convolution itself is
done by OpenCV, so it is not modelled. What is modelled is everything the
repository computes itself:

- `wrappers.dfy` (module `Wrappers`): `Option` for Python's `None`, and `Result`
  for an operation that raises.
- `image_smoothing.dfy` (module `ImageSmoothing`), for `utils/image_smoothing.py`:
  - the automatic kernel size `calculate_optimal_kernel_size`. Python's `|` is
    written out as a bitwise or on non-negative integers (`BitOr`).
  - the box kernel of `averange_image_3channel`, over exact reals.
  - the offset grid and the weights of `gaussian_image_3channel`. The weights
    take `exp` and the scale `1/(2*pi)` as parameters.
- `app.dfy` (module `App`), for `app.py`: the part of `upload_file` that
  decides things, lifted out of the handler as pure functions:
  - the kernel size policy;
  - the case-insensitive filter selection;
  - the processed file name `<hex>_<tag>.png`;
  - the values handed to the display template.

An image enters only through its height and width (`image.shape[0]`,
`image.shape[1]`). The random hex of `uuid.uuid4()` is a parameter.

Behaviour that follows the code rather than a cleaner reading of it:

- A zero dimension is not excluded. The code then computes `0 // 20 | 1 = 1` and
  returns 3, so `OptimalKernelSize` has no precondition.
- `int(kernel_size / 2)` truncates toward zero, so `GridRadius` is defined for
  negative sizes too. A size of -1 gives a 1x1 grid. Any size below -1 gives an
  empty grid, because the slice `-size:size+1` is then empty.
- An even kernel size gives a Gaussian grid of side k+1, not k
  (`GridSideEven`). The handler only passes odd sizes (`UploadKernelIsSquare`).
- `np.ones` with a negative side raises, which is modelled as
  `Failure(NegativeDimensions)`. A side of 0 gives an empty kernel.
- The kernel-size comparison with `"fixed"` is exact and case-sensitive. The
  filter comparison lowers the option first.
- A missing `algorithm_option` makes `.lower()` raise before any filter runs.
  This is `Failure(AlgorithmOptionMissing)`. An unrecognised option is not an
  error: nothing is processed and the processed image is `None`.
- The Gaussian kernel is not normalised to sum to 1, unlike the box kernel. The
  model keeps it unnormalised.

## Model

| member | source | states |
|---|---|---|
| `ImageSmoothing.BitOr` | utils/image_smoothing.py:25 | the result's low bit is set iff either operand's is; the result is at least each operand and at most their sum |
| `ImageSmoothing.OrOne` | utils/image_smoothing.py:25 | or-ing with 1 leaves an odd number unchanged and raises an even number by one |
| `ImageSmoothing.OptimalKernelSize` | utils/image_smoothing.py:22-26 | the automatic kernel size is always odd and at least 3 |
| `ImageSmoothing.OptimalKernelSizeClosedForm` | utils/image_smoothing.py:24-25 | with q = min(height, width) div 20, the size is max(3, q) for odd q and max(3, q+1) for even q |
| `ImageSmoothing.OptimalKernelSizeDependsOnSmallest` | utils/image_smoothing.py:24 | two shapes with the same smaller dimension get the same size; swapping height and width changes nothing |
| `ImageSmoothing.OptimalKernelSizeMonotone` | utils/image_smoothing.py:24-25 | a larger smaller-dimension never yields a smaller kernel |
| `ImageSmoothing.OptimalKernelSizeBounds` | utils/image_smoothing.py:24-25 | the size lies between max(3, q) and max(3, q+1) |
| `ImageSmoothing.OptimalKernelSizeExamples` | test/image_smoothing.py:33-34 | a 100x100 image gives 5; smaller sides of 40, 19 and 0 give 3; 1080x1920 gives 55 |
| `ImageSmoothing.BoxKernel` | utils/image_smoothing.py:17 | a negative side fails; otherwise the kernel is k x k and each entry times k*k is 1 |
| `ImageSmoothing.BoxKernelSumsToOne` | utils/image_smoothing.py:17 | for k > 0 the box kernel's entries add up to exactly 1 |
| `ImageSmoothing.GridRadius` | utils/image_smoothing.py:7 | `int(k / 2)` truncates toward zero: twice the radius is the even number next to k on the side of 0 |
| `ImageSmoothing.Range` | utils/image_smoothing.py:8 | the slice `lo:hi` enumerates hi-lo consecutive integers starting at lo, or none when hi <= lo |
| `ImageSmoothing.GridOffsets` | utils/image_smoothing.py:7-8 | the axis of `np.mgrid[-size:size + 1]`: offset i is -size + i, with side 2*size+1 for size >= 0 and no offsets for a negative size |
| `ImageSmoothing.GridOffsetsShape` | utils/image_smoothing.py:7-8 | for k >= 0 offset i is -(k div 2) + i, the offsets run from -(k div 2) to k div 2, and the side is 2*(k div 2)+1 |
| `ImageSmoothing.GridSideOdd` | utils/image_smoothing.py:7-8 | an odd positive size gives a grid of side exactly k |
| `ImageSmoothing.GridSideEven` | utils/image_smoothing.py:7-8 | an even positive size gives a grid of side k+1 |
| `ImageSmoothing.GridSideNegative` | utils/image_smoothing.py:7-8 | size -1 gives side 1, any smaller size an empty grid |
| `ImageSmoothing.GridOffsetsSymmetric` | utils/image_smoothing.py:8 | mirrored positions of the offset grid hold opposite offsets |
| `ImageSmoothing.Exponent` | utils/image_smoothing.py:10 | the argument -(x^2+y^2)/2 of `np.exp` is never positive and is 0 exactly at offset (0, 0) |
| `ImageSmoothing.ExponentPeak` | utils/image_smoothing.py:10 | an offset no closer to the centre than another gets an exponent argument no larger, and none exceeds the centre's |
| `ImageSmoothing.GaussianWeight` | utils/image_smoothing.py:9-10 | with `exp` increasing on the non-positive reals and a non-negative scale, no weight exceeds the centre weight `exp(0) * normal` |
| `ImageSmoothing.GaussianWeightRadial` | utils/image_smoothing.py:10 | offsets with the same x^2+y^2 get the same weight |
| `ImageSmoothing.GaussianKernel` | utils/image_smoothing.py:8-10 | the kernel is square with the side of the offset grid |
| `ImageSmoothing.GaussianKernelShape` | utils/image_smoothing.py:7-10 | an odd positive size gives a k x k kernel, an even one a (k+1) x (k+1) kernel |
| `ImageSmoothing.GaussianKernelSymmetric` | utils/image_smoothing.py:8-10 | the kernel equals its transpose and its mirror images along either axis |
| `ImageSmoothing.GaussianKernelCentrePeak` | utils/image_smoothing.py:7-10 | for every size with a non-empty grid, the offset at index `int(k/2)` is 0 and holds the unique largest exponent; with `exp` increasing and a non-negative scale the centre weight is the largest |
| `App.ChooseKernelSize` | app.py:55-56 | the size is 5 when the option is exactly `"fixed"` and the automatic size otherwise, including an absent field; it is always odd and at least 3 |
| `App.LowerChar` | app.py:67 | the lower-case form of a character is never upper-case; an upper-case letter becomes the lower-case letter whose capital it is; anything else is kept |
| `App.UpperChar` | app.py:67 | the upper-case form of a character is never lower-case; a lower-case letter becomes an upper-case one; anything else is kept |
| `App.Lower` | app.py:67-71 | `s.lower()` on ASCII: same length, no upper-case letter left, every non-upper-case character kept, every upper-case letter replaced by its lower-case letter |
| `App.LowerIdempotent` | app.py:67 | lowering a string twice is the same as lowering it once |
| `App.LowerMatches` | app.py:67-71 | for a target with no upper-case letter, `s.lower() == t` iff s spells t letter by letter in either case |
| `App.SelectFilter` | app.py:59-76 | a missing option fails; the average filter iff the lowered option is `"average_smoothing"`; the Gaussian filter iff it is `"gaussian_smoothing"`; no filter for every other string |
| `App.SelectFilterIgnoresCase` | app.py:67-71 | an option and its lowered form select the same filter |
| `App.SelectAverageCaseVariants` | app.py:67-70 | the average filter is selected by exactly the upper/lower-case spellings of `"average_smoothing"` |
| `App.SelectGaussianCaseVariants` | app.py:71-74 | the Gaussian filter is selected by exactly the upper/lower-case spellings of `"gaussian_smoothing"` |
| `App.SelectFilterExamples` | app.py:67-76 | mixed-case names select their filter; `"median_smoothing"` and `""` select none; an absent option fails |
| `App.OutputTag` | app.py:67-74 | the tag is `"average_image"` exactly for the average filter and `"gaussian_image"` exactly for the Gaussian filter |
| `App.ProcessedFileName` | app.py:27 | the name is the hex, then `_`, then the tag, then `.png` |
| `App.ProcessedFileNameInjective` | app.py:27 | for hexes of one length, the name determines both the hex and the tag |
| `App.FiltersWriteDistinctNames` | app.py:67-74 | for one hex, the `"average_image"` and `"gaussian_image"` outputs never get the same file name |
| `App.UploadOutcome` | app.py:55-92 | the handler fails iff the algorithm option is absent; otherwise it passes the submitted option and the chosen odd size of at least 3; the processed image is absent iff no filter matched, and is `<hex>_<tag>.png` for the selected filter |
| `App.AppliedKernel` | app.py:67-74 | the kernel the selected filter builds at size k is k x k when k is odd (always for the box kernel), and the box kernel's weights sum to 1 for k > 0 |
| `App.UploadKernelIsSquare` | app.py:55-74 | whichever filter is selected, the kernel it builds at the chosen size is k x k |
| `App.UploadOutcomeExample` | app.py:55-92 | an automatic-policy 100x100 upload with `"Average_Smoothing"` renders `<hex>_average_image.png` with kernel size 5 |

## Left out

- `cv2.filter2D` (its border mode, rounding and saturating cast) is OpenCV code
  and is not part of this model. Shape and dtype preservation and "the content
  changes" are properties of that library call, not of this repository's code.
- The numeric values of the Gaussian weights are left out: `np.exp` and
  `1 / (2.0 * np.pi)` become the parameters `exp` and `normal`, and only their
  grid structure and symmetry are proved.
- Kernel weights are exact reals. The float32 rounding of `1/(k*k)` and the
  float64 rounding of the Gaussian weights are not modelled. As a result
  `BoxKernelSumsToOne` is exact, where the source is only within rounding error.
- `int(kernel_size / 2)` goes through a float. For |k| above 2^53 this can
  differ from exact truncation; `GridRadius` is exact.
- `str.lower()` is modelled on ASCII letters only. Other Unicode case mappings
  are not modelled.
- `uuid.uuid4()` is a parameter (`hex`). The model does not say that it is 32
  lower-case hex digits or that it is random.
- Left out as I/O and web plumbing (app.py:1-53 and 78-99):
  - Flask routing and the upload checks;
  - `file.save`, `cv2.imread` and `cvtColor`;
  - `plt.imsave` and `os.path.join` with the media folders;
  - `url_for`, `send_from_directory` and `render_template`;
  - the debug prints.
  `Rendered.processedImage` holds the processed file name in place of its URL.
- The upload file name `<hex>_<secure_filename(name)>` (app.py:46) is left out,
  because `secure_filename` is werkzeug code that is not part of this model.
- The `__main__` plotting demo (utils/image_smoothing.py:28-78) only displays
  images, and the test runner test/main.py has no logic, so neither is modelled.
