# CCDDrone web front end and pixel-spectrum preprocessing, in Dafny

This project models the sequential logic of the CCDDrone camera front end and
of its skipper-CCD analysis, and proves properties of that model. The
modelled code comes from six parts of the repository.

- **Pixel statistics and histogram** (`analysis/PixelDistribution.py`, module
  `PixelDistribution`, built on `NumPy`).
  - The median and MAD are taken over the strictly positive pixels. The MAD
    is floored at 1, and the result is (0, 1) when no pixel is positive.
  - The histogram edges are `arange(floor(lo), ceil(hi))` of the nsigma or
    `minRange` window. Its centres are the edges plus one half, and its last
    bin is closed.
  - The moving-average peak finder convolves with a flat kernel in "same"
    mode, zero-padded. It takes first differences and applies the ±threshold
    sign-change test.
  - The fit windows of the dark-current and single-electron-noise fits: one
    per maximum, then extrapolated ones.
- **Image objects** (`analysis/DamicImage.py`, module `DamicImage`).
  - `Image` is a class whose constructor stores the statistics and the
    histogram in fields.
  - `DamicImage` adds `reverse`, and its `reverseHistogram` flips `hpix` in
    place.
  - Dafny classes cannot extend classes, so `DamicImage` holds its `Image`
    part as a field.
- **The catalogue's metadata check** (`ImageDB.py`, module `ImageDB`):
  required keys, restricted values and the source rule. It returns
  True/False, and raises KeyError on one path.
- **The required-metadata table and its validator** (`Metadata.py`, module
  `Metadata`). The validator either returns True or raises on the first
  failing entry.
- **The indexed form-field parser** (`forms.py`, module `Forms`).
  `MetadataField.process` reads `<name>_key_<i>` inputs from 0 until one is
  missing or empty. It converts each value by its dtype and collects comments
  and error strings. It then validates the result and always sets `data`.
- **Process bookkeeping** (`Executor.py`, module `Executor`).
  - file-name normalisation in `Expose`;
  - the priority rule of `getstate`;
  - the `_run` and `ExposeLoop` guards;
  - the exposure loop with its counters, together with `endexposureloop`
    and `abort`;
  - the choice of configuration file in `readconfig`;
  - the carriage-return filter `getstatus` applies to the log.

Python's string and value semantics are in `PyStr` and `PyValue`:
- `str()` and `int()` of integers;
- `repr()` of strings and `str()` of tuples of strings;
- ASCII `upper`/`lower`;
- `posixpath.join`.

`Option`/`Result` are in `Wrappers`.

Pixel values are integers (ADU), and the statistics are exact reals. The MAD
scale of `scipy.stats.median_absolute_deviation` is the named constant
`MadScale` (1.4826).

Two details of the numpy code decide the model's shapes:
- **Histogram window.** The window bounds med − nsigma·mad and
  med + nsigma·mad are rounded outwards, and `arange` drops the upper bound,
  so the last edge is below `ceil(hi)`. `minRange` is used only when it is
  truthy and strictly wider than that window.
- **Moving average.** numpy's "same" mode pads with zeros and returns
  `max(len(h), n)` values. The output is longer than the histogram when the
  kernel is, and a peak index can then run past `bins`; that gives an
  IndexError.

State and environment:
- **Changing state.** The changing state is held in classes:
  `DamicImage.Image`, `DamicImage.DamicImage`, `Forms.MetadataField` and
  `Executor.Executor`. Their methods state their whole new state.
- **Environment inputs.** These are parameters:
  - the current time stamp of an exposure;
  - the exit code of each child;
  - file modification times and file contents;
  - the log text and its time stamp;
  - Python's `float()` (as a function from the text to `str()` of the float,
    or to nothing when it raises).

## Model

| member | source | states |
|---|---|---|
| PixelDistribution.Positives | analysis/PixelDistribution.py:369 | `image[image > 0]`: every element is positive and is some pixel's value; it is empty exactly when no pixel is positive |
| PixelDistribution.PositivesMultiplicity | analysis/PixelDistribution.py:369 | every positive pixel value occurs among the positives exactly as many times as in the image |
| PixelDistribution.EstimateDistributionParameters | analysis/PixelDistribution.py:354-375 | with no positive pixel the result is exactly (0, 1); otherwise mad is the MAD of the positive pixels or, when that is below 1, exactly 1; mad >= 1 always |
| PixelDistribution.MedianWithinPositives | analysis/PixelDistribution.py:369 | when some pixel is positive, some positive pixel is <= med and some positive pixel is >= med |
| PixelDistribution.ConstantImageStats | analysis/PixelDistribution.py:365-373 | an image whose pixels all equal c > 0 gives (med, mad) = (c, 1) |
| PixelDistribution.MedianAbsDeviation | analysis/PixelDistribution.py:371-373 | the scaled MAD of the positive pixels is never negative |
| PixelDistribution.WindowCovers | analysis/PixelDistribution.py:344-347 | the arange bounds enclose med ± nsigma·mad, and when `minRange` is used they are at least `minRange` apart |
| PixelDistribution.HistogramWith | analysis/PixelDistribution.py:343-351 | a histogram exists exactly when the window has at least two edges; edges are lo, lo+1, … below ceil(hi); len(hpix) = len(centers) = len(edges) − 1; centers[i] = edges[i] + 0.5; hpix[i] counts the pixels in bin i, the last bin closed |
| PixelDistribution.HistogramTotal | analysis/PixelDistribution.py:348 | the counts add up to the number of pixels x with edges[0] <= x <= edges[-1] |
| PixelDistribution.DefaultHistogramExists | analysis/PixelDistribution.py:341-349 | with nsigma = 3 and the image's own statistics the histogram always exists and has at least six edges |
| PixelDistribution.FlaggedFrom | analysis/PixelDistribution.py:270-275 | `np.nonzero` of the mask: exactly the flagged indices, strictly ascending |
| PixelDistribution.FindPeakPosition | analysis/PixelDistribution.py:257-279 | raises exactly for a non-positive window, an empty histogram, or a flagged index past the end of `bins`; otherwise maxima and minima are the bins at the flagged indices, in index order |
| PixelDistribution.PeakRule | analysis/PixelDistribution.py:263-275 | index i is a maximum iff 1 <= i <= len(d)−1, d[i−1] > t and d[i] < −t with t = dthresh/nMovingAverage; minima mirrored |
| PixelDistribution.PeaksSeparated | analysis/PixelDistribution.py:270-275 | with t >= 0 no index is both a maximum and a minimum, and no two adjacent indices are both maxima (or both minima) |
| PixelDistribution.PeaksWithinBins | analysis/PixelDistribution.py:263-277 | with a window no longer than the histogram and one bin per count, peak finding never raises |
| PixelDistribution.FitDeltaSpacing | analysis/PixelDistribution.py:183-186 | fitDelta is abs(last − first) / (#maxima − 1) when there are several maxima, else 2·mad |
| PixelDistribution.BuildFitWindows | analysis/PixelDistribution.py:183-197 | fails (IndexError of `fitMean[-1]`) exactly when there is no maximum but extra peaks are asked for; otherwise #maxima + nAdditionalPeaks windows, the first ones at the maxima, the extra ones at last maximum + k·fitDelta, each window spanning fitDelta/2 on both sides of its mean (with nAdditionalPeaks = 0 this is the layout of computeSkImageNoise, lines 125-134) |
| PixelDistribution.WindowsAtMaxima | analysis/PixelDistribution.py:187-191 | the first loop: one window per maximum, in order, each centred on it |
| PixelDistribution.AddPeaks | analysis/PixelDistribution.py:194-197 | the second loop keeps the earlier windows and adds `extra` windows whose means step by fitDelta from the last one |
| PixelDistribution.ExtrapolateClosedForm | analysis/PixelDistribution.py:195 | adding fitDelta k times to a mean gives mean + k·fitDelta |
| NumPy.Sort | analysis/PixelDistribution.py:369 | the sort inside `np.median` is sorted and a permutation of its input |
| NumPy.InsertSorted | analysis/PixelDistribution.py:369 | inserting into a sorted sequence keeps it sorted |
| NumPy.InsertMultiset | analysis/PixelDistribution.py:369 | inserting adds exactly one occurrence of the value and changes nothing else |
| NumPy.MedianBounds | analysis/PixelDistribution.py:369 | the median lies between some element and some element |
| NumPy.MedianOfConstant | analysis/PixelDistribution.py:369 | the median of equal values is that value |
| NumPy.MedianNonNegative | analysis/PixelDistribution.py:371-372 | the median of non-negative values is non-negative |
| NumPy.Ceil | analysis/PixelDistribution.py:345 | `np.ceil`: x <= ceil(x) < x + 1 |
| NumPy.CountInSplit | analysis/PixelDistribution.py:348 | counting over two adjacent ranges counts over their union |
| NumPy.CountsTotal | analysis/PixelDistribution.py:348 | for increasing edges the bin counts add up to the count over [first, last] |
| NumPy.Diff | analysis/PixelDistribution.py:268 | `np.diff`: one value fewer, d[i] = s[i+1] − s[i] |
| NumPy.DiffTelescopes | analysis/PixelDistribution.py:184 | the differences add up to last − first |
| NumPy.MovingAverageOfOne | analysis/PixelDistribution.py:263-265 | with a one-point kernel the smoothed curve is the histogram itself |
| NumPy.FlipFlip | analysis/DamicImage.py:131 | flipping twice restores the sequence |
| DamicImage.Image.constructor | analysis/DamicImage.py:17-24 | `image` and `filename` stored unchanged; med/mad are those of the free function; hpix/centers/edges are the 3-MAD histogram of them, which exists |
| DamicImage.Image.EstimateDistributionParameters | analysis/DamicImage.py:26-52 | sets med and mad to the statistics of the pixels and returns them |
| DamicImage.Image.HistogramImage | analysis/DamicImage.py:54-82 | returns the histogram of the held med/mad and stores exactly that triple; when numpy raises nothing is stored |
| DamicImage.DamicImage.constructor | analysis/DamicImage.py:120-126 | minRange 200 and reverse True by default; the Image part is built as above and its hpix is flipped exactly when `reverse` |
| DamicImage.DamicImage.ReverseHistogram | analysis/DamicImage.py:128-131 | hpix'[i] = hpix[len − 1 − i]; centres, edges, statistics and pixels untouched (the frame allows only `hpix`) |
| ImageDB.FirstMissingKey | ImageDB.py:27-31 | none exactly when every required key is present in some spelling; otherwise a key absent in both its spelling and its lower-case spelling, with every key before it in the table present |
| ImageDB.FirstBadValue | ImageDB.py:34-37 | none exactly when every restricted key is absent or allowed; otherwise a key present with a value outside its tuple, with every rule before it passing |
| ImageDB.ValidateAcceptsIff | ImageDB.py:23-45 | accepted iff all required keys are present (either spelling), RUNTYPE/SOURCE values are allowed, RUNTYPE is present under that spelling, and a source or gasinjection run has SOURCE |
| ImageDB.MissingKeyRejected | ImageDB.py:27-31 | a required key absent in both spellings gives False, reporting a missing key that is absent in both spellings and preceded in the table only by present keys |
| ImageDB.BadValueRejected | ImageDB.py:12-37 | RUNTYPE or SOURCE with a value outside its tuple gives False |
| ImageDB.SourceRunNeedsSource | ImageDB.py:40-43 | a source or gasinjection run without SOURCE gives False |
| ImageDB.LowerCaseRunTypeRaises | ImageDB.py:40-41 | with only the lower-case `runtype` spelling, a record passing the first two checks raises KeyError |
| Metadata.ValidateMetadata | Metadata.py:21-38 | never False: True, or an error exactly when some table entry fails |
| Metadata.ValidateFirstFailure | Metadata.py:28-38 | the error raised is that of the first failing entry in table order |
| Metadata.MissingKeyRaises | Metadata.py:30-31 | a key absent in both spellings, after entries that pass, raises "Missing required key K" |
| Metadata.NotAllowedRaises | Metadata.py:34-36 | a value outside `allowed_values`, after entries that pass, raises the not-allowed ValueError |
| Metadata.ValidateOnlyReadsTableKeys | Metadata.py:28-38 | records agreeing on the table's keys (and their upper-case spellings) get the same outcome: other keys never matter |
| Metadata.ValidateFailureIsEntryFailure | Metadata.py:28-36 | every error is the failure of some table entry |
| Metadata.UpperCaseTableNeverKeyError | Metadata.py:30-34 | a table whose keys are upper case never reaches the KeyError of `metadata[key]` |
| Metadata.DefaultTableNeverKeyError | Metadata.py:9-18 | the default table is such a table |
| Forms.FieldNameSuffix | forms.py:9-11 | the field name is the prefix followed by a numeral that `int()` reads back as the index |
| Forms.FieldNameInjective | forms.py:9-11 | different indices give different field names |
| Forms.ConvertValue | forms.py:27-42 | bool: converted exactly for the truthy/falsy strings (to True exactly for the truthy ones), otherwise "Can't parse … as type bool" keeping the raw value; int: TypeError exactly for a missing value, converted exactly when `int()` parses; other dtypes keep the raw value |
| Forms.BoolRoundTrip | forms.py:28-32 | `str(True)`/`str(False)` read back as bool give the same bool |
| Forms.IntRoundTrip | forms.py:35-36 | `str(i)` read back as int gives i |
| Forms.TruthyFalsyDisjoint | forms.py:29-32 | no string is both truthy and falsy |
| Forms.EntryCount | forms.py:20-24 | the entries read are 0 … n−1 with n the first index whose key input is missing or empty |
| Forms.EntryCountReadsOnlyPrefix | forms.py:20-24 | key inputs past the first missing one do not change the number of entries read |
| Forms.CollectNext | forms.py:20-46 | reading one more entry applies that entry to the state so far |
| Forms.CollectReadsOnlyItsEntries | forms.py:20-46 | forms agreeing on the inputs of entries 0 … n−1 build the same result, comments and errors |
| Forms.ApplyFields | forms.py:27-45 | one entry adds its key to `result`, records its comment exactly when it is non-empty, adds at most one error, and ends the aliasing of `result["comments"]` when its key is `comments` |
| Forms.CollectShaped | forms.py:18-45 | `result` always holds `comments`, which is the comments dictionary while no entry overwrote it |
| Forms.CollectAliased | forms.py:19-42 | `result["comments"]` stays the comments dictionary iff no entry has the key `comments` |
| Forms.CollectCommentKeys | forms.py:43-45 | a key has a comment iff some entry with that key had a non-empty comment input |
| Forms.CollectResultKeys | forms.py:42 | every entry read has its key in `result` |
| Forms.CollectErrorsBounded | forms.py:39-40 | at most one error per entry |
| Forms.ErrorsBeforeTypeError | forms.py:27-40 | when an entry's conversion raises TypeError, `process` raises and the errors left are those of the entries before it |
| Forms.EmptyFormKeepsData | forms.py:14-16 | with absent or empty form data `data` keeps its initial value and no error is recorded |
| Forms.ValidationFailureStillSetsData | forms.py:48-56 | a validation ValueError becomes the last error while `data` is still set to the parsed result |
| Forms.DefaultTableProcessNoKeyError | forms.py:48-53 | with the default table `process` never raises KeyError |
| Forms.MetadataField.constructor | forms.py:5-7 | the field uses the default required table and starts with no data and no errors |
| Forms.MetadataField.Process | forms.py:13-56 | `data`, `process_errors` and the exception raised are those of `ProcessOutcome`: empty form, TypeError, KeyError, validation error and success paths |
| Forms.MetadataField.ReadEntries | forms.py:18-46 | the `while True` loop builds exactly the state of reading entries 0 … EntryCount−1 in order, or stops at a TypeError with the errors gathered before it |
| Executor.LastMatch | Executor.py:202 | the rightmost position below the bound where the pattern matches, or none |
| Executor.WithFitsSuffix | Executor.py:199-200 | the name ends in ".fits"; it is unchanged if it did, else ".fits" is appended |
| Executor.NormalizeEndsWithFits | Executor.py:199-206 | the normalised name always ends in ".fits" |
| Executor.NormalizeStamps | Executor.py:201-206 | with no stamp, or a rightmost stamp other than tstamp, the result ends in tstamp + ".fits"; with the current stamp the name is kept |
| Executor.StampAtEnd | Executor.py:202 | a newline-free name ending in a stamp and ".fits" matches exactly there |
| Executor.NormalizeIdempotent | Executor.py:199-206 | for a well-formed stamp and a name without newline, normalising twice = normalising once |
| Executor.NormalizeWithNewlineGrows | Executor.py:202-204 | with a newline early in the name `.*` cannot reach the stamp, so each normalisation inserts another stamp |
| Executor.NewlineBlocksMatch | Executor.py:202 | a newline in second place, after anything but '_', leaves the pattern no match |
| Executor.FirstLineLength | Executor.py:132 | the first line with `newline=''` ends at the first "\n", "\r\n" or lone "\r" |
| Executor.ReadLines | Executor.py:132 | every line is non-empty, its carriage returns only start "\r\n", and all but the last end in a line end |
| Executor.ReadLinesConcat | Executor.py:132 | the lines put back together give the text |
| Executor.CommandOutput | Executor.py:127-139 | empty when the log is missing; otherwise the header, then the lines not ending in "\r" in order, after the last line's own trailing "\r" is removed |
| Executor.AppendKept | Executor.py:135-137 | the loop appends exactly the lines that do not end in "\r" |
| Executor.FilteredLogHasNoBareCR | Executor.py:132-137 | every carriage return left in the shown log is part of "\r\n" |
| Executor.LogWithoutCRShownWhole | Executor.py:132-137 | a log without carriage returns is shown whole |
| Executor.NewestIndex | Executor.py:75-76 | the first index with the greatest key: what the stable reverse sort puts first |
| Executor.Executor.NewestConfigIsNewest | Executor.py:72-78 | the file read is a candidate with the latest mtime, and every earlier candidate is strictly older |
| Executor.TakenFrom | Executor.py:225-232 | the loop takes at most the budget, every exposure before the last succeeded, and it stops short of the budget only right after a failing exposure |
| Executor.Executor.constructor | Executor.py:19-65 | the paths and their defaults; no child, no counters, no last file, no loop |
| Executor.Executor.GetState | Executor.py:104-113 | running iff an exposure is counted or a child is running; error iff not and the last child exited non-zero; else idle |
| Executor.Executor.Run | Executor.py:166-179 | refuses with "A process is already running" while a child runs, leaving it untouched; otherwise starts a child with these arguments |
| Executor.Executor.ExposeArgsShape | Executor.py:213-216 | the script gets the exposure time, the image file, the metadata file, and the preview path exactly when one is set |
| Executor.Executor.Expose | Executor.py:196-220 | records the normalised file (joined to the data directory) even when the start is refused, then starts the script through the guard |
| Executor.Executor.RoundFileIsExposeFile | Executor.py:199-208 | exposure k of a loop writes the file `Expose` makes from that exposure's stamp |
| Executor.Executor.Rounds | Executor.py:225-232 | after n exposures the counter has grown by n |
| Executor.Executor.RoundsLast | Executor.py:225-232 | after n > 0 exposures the last file and child are those of exposure n−1, and the children started are those of the n exposures in order |
| Executor.Executor.RoundsLaunched | Executor.py:225-232 | the children started by n exposures are the n exposure commands in order |
| Executor.Executor.CountAndExpose | Executor.py:227-231 | one loop pass field by field: count, expose, wait for the child's exit code |
| Executor.Executor.ExposeRound | Executor.py:227-231 | one loop pass as a whole-state step: `AfterRound` when started, only the count and file when refused |
| Executor.Executor.ExposeRounds | Executor.py:225-232 | the `while` loop runs exactly `TakenFrom` exposures and ends in the state `Rounds` describes, or stops at a refused first start |
| Executor.Executor.DoExposeLoop | Executor.py:222-235 | at most max − current exposures, stopping right after the first non-zero exit, then both counters cleared; a refused start ends the thread with the count one higher and the limit unchanged |
| Executor.Executor.ExposeLoop | Executor.py:237-248 | refuses while a child or a loop runs, leaving the counters; otherwise sets them to 0 of n and marks the loop alive |
| Executor.Executor.EndExposureLoop | Executor.py:149-151 | the limit becomes the current count, so the loop's guard fails at its next test |
| Executor.Executor.Abort | Executor.py:153-163 | always clears the exposure count; signals (kill or terminate) exactly when a child is running |
| PyStr.ParseIntOfIntToStr | forms.py:36 | `int(str(i)) == i` |
| PyStr.IntToStrInjective | forms.py:11 | different integers have different numerals |
| PyStr.ReprPlain | Metadata.py:36 | a plain string's repr is it between single quotes |
| PyStr.Join | Executor.py:208 | `path.join`: an absolute second part replaces the first; otherwise the result starts with the first and ends with the second |

## Left out

- analysis/PoissonGausFit.py is not part of this model, because the Gaussian⊗Poisson density, its CDF and the lmfit fit are floating-point code built on exp, erf and factorial.
- The curve fits of analysis/PixelDistribution.py are left out because they are numerical optimisation. These are the `curve_fit` calls, the fits inside `computeSkImageNoise` and `computeDarkCurrent`, `computeImageNoise`, `imageEntropy`, `imageEntropySlope`, `computeImageTailRatio` and `convertValErrToString`. Only the fit-window layout of the two computations is modelled.
- `Image.plotSpectrum` is left out because it only draws with matplotlib.
- Floating point is left out: pixels are integers and statistics are exact reals, without rounding.
- The `ImageDB` class, `update_metadata`, `Metadata.update_file_metadata` and `get_file_metadata` are left out because they are database and FITS I/O.
- `Metadata.process_formdata` is left out. With the default `predata=None`, `predata.setdefault` raises AttributeError before the form is read. Its loop never advances `index`, so with entry 0 present the loop either raises or never ends.
- The `float` dtype of forms.py is not parsed. `float()` is a parameter giving `str()` of the float or nothing, because float parsing and printing are floating point.
- The wtforms machinery (`Field`, `super().process`, `ExposeForm` and its validators) is left out because it is a foreign library. The base-class call is modelled as setting `data` to its initial value and clearing `process_errors`.
- PyValue.Str: `str()` of a dictionary is written `{...}` instead of Python's rendering. A dictionary only reaches a message when a table entry with allowed values is keyed `comments`, which the default table does not do.
- Executor.py's child processes are left out because they run outside the program:
  - `Popen`, `poll`, `kill` and `terminate` are not modelled;
  - a child is a value holding its arguments and, once it has exited, its return code;
  - the loop's wait for a child is its exit code, supplied per exposure.
- Files and clocks are parameters, not read:
  - `open`/`read`/`write`, `getmtime`, `isfile` and `datetime.now()`;
  - the log text and its time stamp, each exposure's stamp, modification times and file contents.
- The log file handle and the `env` of `_run` are left out because they are I/O configuration.
- The constructor's directory checks, `mkdir`, the PATH update, `abspath` and the image-database settings are left out because they are file-system and environment effects.
- `saveconfig`, `savemetadata` and the fixed-argument launchers are left out: each either writes a file or only calls `_run` with fixed arguments, as `Run` models. The launchers are `StartupAndErase`, `PerformEraseProcedure`, `ApplyNewSettings` and `ToggleBias`.
- `getstatus` is modelled only for its `cmdoutput` (`CommandOutput`). Its other fields are direct reads of state, and its `state` is `GetState`.
- The exposure-loop thread is modelled as running to its end in one call (`DoExposeLoop`). An `abort` or `endexposureloop` racing it from the web thread is not interleaved.
- The note `abort` writes to the log is left out because it is file output. The `Signal` result stands for `kill()`/`terminate()`.
- Executor.NormalizeIdempotent: the property is proved only for names without a newline. `.*` does not cross a newline, and `NormalizeWithNewlineGrows` shows that normalisation is not idempotent otherwise.
- Executor.Executor.ExposeRounds: the exposure loop is given one `Round` (stamp and exit code) for each exposure it may take. A refused start (a child already running) ends the loop's thread with an exception, as `_run` raises.
- PyStr.ParseInt: only ASCII digits and ASCII whitespace are accepted. Python's `int()` also accepts other Unicode decimal digits and Unicode whitespace, so `"٣"` or a no-break space before `3` reads as 3 in Python and as unparsable here.
- PyStr.Repr: non-ASCII characters are kept as they are. Python's `repr` escapes non-printable ones such as U+0085 and U+2028. The `int()` error message holds the whole repr, while CPython cuts it at 200 characters.
- Executor.IsStamp: `\d` is taken as an ASCII digit. In a Python 3 string pattern it also matches other Unicode decimal digits, so the source replaces a stamp written in such digits, while the model sees no stamp, keeps those characters and inserts a new stamp before ".fits".
- PixelDistribution.MedianAbsDeviation: the contract states only non-negativity. The scale factor is the constant `MadScale`, and the value is the MAD's definition.
