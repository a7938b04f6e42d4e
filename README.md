# Image fixer: a verified model of its filename logic and upscale decisions

The image fixer (`main.py`) walks the keys of an S3 bucket once. It keeps the
keys that look like JPEG images and groups them into *families* by base name.
The base name is the key up to its last `-`, so `cat-300x200.jpg` belongs to
family `cat`. In each family it picks the variant with the largest pixel area.
The area is read from the `-<W>x<H>` suffix of the name. From that variant it
derives a *base image name*: the family name plus the variant's extension
(`cat.jpg`). When that name is not already a variant of the family and the
area is non-zero, `upscale_image` is called. That function checks that the
source still exists and decodes. It requires the longest edge to be at least
600 px. It compares the source against an existing base image, if there is
one. When all of that passes, it is meant to upload the source scaled up by a
factor of 2 under the base name. As written, it first calls
`os.makedirs(os.path.dirname(base_image_name))` (`main.py:76-77`). For a base
name without a `/` that call raises, and the run ends (see "## Findings").

The Dafny project has five modules, one per piece of that flow:

- `Filenames` (`filenames.dfy`) covers the pure string functions:
  - `get_basename` (`Basename`);
  - `get_image_area` (`ImageArea`): the case-sensitive removal of a JPEG
    extension, `str.split('x')` and `int()` on digit strings;
  - the filter `'.jpg' or '.jpeg' in key.lower()` (`IsImageKey`);
  - `os.path.splitext(p)[1]` (`Extension`).
- `Grouping` (`grouping.dfy`) is the grouping loop of `main()`. It is a method
  (`GroupImages`) that builds the insertion-ordered dict as an ordered list of
  family names plus a map from names to lists of variants. It is proved
  against the specification functions `Bases` and `Family`. The module also
  holds the re-filter `variants_without_base` (`WithBase`).
- `Selection` (`selection.dfy`) is the body of the family loop up to the call
  of `upscale_image` (`ChooseSource`). It includes Python's `max(..., key=...)`
  (`LargestIndex`), which keeps the first maximal element.
- `Upscale` (`upscale.dfy`) covers `object_exists` and the branches of
  `upscale_image`. The object store and the image codec are replaced by the
  outcomes they produce (`Probe`): what `head_object` answered, what opening
  the image gave, and whether writing the result went through.
- `Batch` (`batch.dfy`) is the family loop of `main()`:
  - `RunListing`, `UpscaleFamilies` and `VisitFamily` are proved against
    `Outcomes(Requests(keys), probe)`;
  - `Requests(keys)` lists the `upscale_image` calls the listing asks for;
  - `Outcomes` performs those calls in order, with `upscale_image` as written
    (`Perform`), and stops after the first one that raises, because `main()`
    catches nothing.

A few proofs tell the verifier to set aside a definition they do not need,
with `hide`. Each such proof relies only on the contracts and lemmas it calls.

Some facts about `main.py` that shape the model:

- `main.py` makes one `list_objects` call (`main.py:19`). It has no
  pagination, batching or resume cursor.
- The only size gate is `max(w, h) >= 600` (`main.py:61`). There is no
  aspect-ratio bound and no size limit on an existing base image.
- An existing base image of *equal* area is overwritten (`main.py:71` compares
  with a strict `>`).
- An exception inside `upscale_image` is not caught per family. Only
  `UnidentifiedImageError` is caught (`main.py:85`). Anything else leaves
  `main()` and ends the run (`Outcomes`, `OutcomesSpec`).
- Temporary files are never deleted.
- For the listing `cat-100x100.jpg`, `cat-300x200.jpg`, `dog-50x50.jpg`,
  `main()` calls `upscale_image("cat-300x200.jpg", "cat.jpg")` and
  `upscale_image("dog-50x50.jpg", "dog.jpg")`. Both stop at the size gate,
  because their longest edges are under 600 px (`SizeGateBoundary`,
  `UploadExactly`).
- Even a large enough source with a top-level base name raises at
  `os.makedirs('')` instead of uploading (`TopLevelUploadEndsRun`).

## Model

| member | source | states |
|---|---|---|
| Filenames.Basename | main.py:12-14 | The base name is a prefix of the key. It is the whole key when the key has no `-`. Otherwise it stops at the last `-`, and no `-` follows that one. |
| Filenames.LastSegment | main.py:27 | `rsplit('-', 1)[-1]` is a suffix of the key with no `-`, and it is the whole key when the key has no `-`. |
| Filenames.BasenameRoundTrip | main.py:12-14 | The base name, `-` and the last segment put back together give the key. The last segment has no `-`. |
| Filenames.BasenameOfSuffixed | main.py:12-14 | `get_basename(b + "-" + s)` is `b`, and the last segment is `s`, whenever `s` has no `-`. |
| Filenames.BasenameOfExtended | main.py:12-14 | If `b + e` has base name `b`, then `e` is empty or starts with `-`. |
| Filenames.IsImageKey | main.py:105 | The filter: the lower-cased key contains `.jpg` or `.jpeg` as a contiguous substring anywhere, not only as a suffix. |
| Filenames.JpegNameIsImageKey | main.py:105 | Every key ending in `.jpg`, `.jpeg`, `.JPG` or `.JPEG` passes the lower-cased substring filter. |
| Filenames.StripJpegExtension | main.py:27 | The result is a prefix of the segment. It is either the segment itself or the segment minus exactly one of the four extensions. |
| Filenames.StripSizedSegment | main.py:27 | Each of `.jpg`, `.jpeg`, `.JPG` and `.JPEG` at the end of a segment is removed, and the rest is kept. |
| Filenames.Split | main.py:29 | `str.split('x')` gives one more piece than there are separators, and no piece contains a separator. |
| Filenames.SplitJoin | main.py:29 | Joining the pieces with the separator gives back the string, so splitting loses nothing. |
| Filenames.SplitOnce | main.py:29 | A string with exactly one `x` splits into its two sides. |
| Filenames.DigitsValue | main.py:29 | `int()` of a digit string, most significant digit first. `DecimalRoundTrip` makes it the inverse of the decimal rendering. |
| Filenames.Decimal | main.py:29 | The decimal rendering of a number is a non-empty digit string with no `x` or `-`. |
| Filenames.DecimalRoundTrip | main.py:29 | `int()` of the rendering of `n` is `n`. |
| Filenames.ImageArea | main.py:25-34 | `get_image_area`: the product of the two numbers of the stripped last segment, or 0 on the `ValueError` path. `AreaOfSizedName`, `NoSeparatorNoArea` and `MixedCaseExtensionHasNoArea` state its cases. |
| Filenames.AreaOfSizedName | main.py:25-34 | A key `<base>-<W>x<H><ext>` with digit strings `W`, `H` and one of the four extensions has area `int(W) * int(H)`. |
| Filenames.AreaOfDimensions | main.py:25-34 | Rendering `w` and `h` into a variant name and reading the area back gives `w * h`. |
| Filenames.NoSeparatorNoArea | main.py:27-34 | A last segment without `x` is the `ValueError` path, and the area is 0. |
| Filenames.MixedCaseExtensionHasNoArea | main.py:27-34 | `.Jpg` is not stripped, because the alternation is case-sensitive. The height then fails `int()`, so the area is 0. |
| Filenames.Extension | main.py:117 | The extension is a suffix of the path. It is empty or starts with `.`, and it holds no other `.` and no `/`. It is empty when only dots precede the last dot in the last path component, as for `.jpg`. |
| Filenames.ExtensionAt | main.py:117 | The extension starts at the last dot when a non-dot character precedes that dot in the same path component. |
| Filenames.ExtensionOfSizedName | main.py:117 | The extension of `<base>-<W>x<H><ext>` is `ext`. |
| Grouping.Family | main.py:102-110 | `images_data[b]`: the image keys with base name `b`, in listing order. `FamilyMembers` and `FamilyComplete` characterise it. |
| Grouping.Bases | main.py:102-110 | The keys of `images_data` in insertion order. `BasesAreNonEmptyFamilies` and `BasesDistinct` characterise it. |
| Grouping.FamilyMembers | main.py:103-110 | Every variant of family `b` is a listed key that passes the filter and has base name `b`. |
| Grouping.FamilyComplete | main.py:103-110 | Every listed key that passes the filter lands in the family of its base name. |
| Grouping.FamilyAppend | main.py:103-110 | Grouping a listing in two parts gives each family's variants in listing order, part by part. |
| Grouping.BasesAreNonEmptyFamilies | main.py:106-110 | A family name is recorded exactly when its family has a variant. |
| Grouping.BasesDistinct | main.py:107-110 | No family name is recorded twice. |
| Grouping.WithBase | main.py:114 | `[x for x in variants if get_basename(x) == base]`. `WithBaseMembers`, `WithBaseEmpty` and `WithBaseKeepsFamily` characterise it. |
| Grouping.WithBaseMembers | main.py:114 | The re-filter keeps only variants that carry the family name. |
| Grouping.WithBaseEmpty | main.py:114-115 | The re-filter is empty exactly when no variant carries the family name. |
| Grouping.WithBaseKeepsFamily | main.py:114 | On a family built by the grouping, the re-filter changes nothing. |
| Grouping.GroupStep | main.py:103-110 | One more key extends only its own family, and adds its name to the list when the name is new. |
| Grouping.GroupImages | main.py:102-110 | The loop builds exactly the first-seen list of family names and, for each, its family in listing order. |
| Selection.LargestIndex | main.py:116 | `max(..., key=...)` returns an element whose key is at least every other key, and no earlier element reaches that key. |
| Selection.ChooseSource | main.py:114-127 | What one turn of the family loop decides, up to the call. `ChooseNoVariants`, `ChooseFirstLargest` and `ChooseUpscale` state its cases. |
| Selection.ChooseNoVariants | main.py:114-115 | A family is skipped as empty exactly when no variant carries its name. |
| Selection.ChooseFirstLargest | main.py:114-116 | Otherwise the chosen source is a variant with the family name, and the first one of maximal area. |
| Selection.ChooseUpscale | main.py:117-127 | `upscale_image` is requested exactly when `base + ext(source)` is not a variant and the area is non-zero. It is requested with that source and that name. |
| Selection.BaseListedOnlyWithoutExtension | main.py:117-121 | In a family built by the grouping, the "base already listed" skip can only fire for a source with no extension. |
| Upscale.ObjectExists | main.py:36-44 | `object_exists` returns False exactly for a ClientError with code `'404'`. A ClientError with any other code, or no error, gives True. Any other exception propagates. |
| Upscale.UpscaleDecision | main.py:46-87 | The branches of `upscale_image`, with the directory created only when there is one. `UploadExactly`, `NoUploadWithoutImages` and `RerunSkips` state them. |
| Upscale.UploadExactly | main.py:46-87 | An upload happens exactly when all hold: the source exists and decodes; its longest edge is at least 600; the base is absent or decodes to an area no larger; the write goes through. The upload is to the base name at `(w*f, h*f)`. |
| Upscale.NoUploadWithoutImages | main.py:56-87 | An unidentified or unreadable source or existing base never leads to an upload. |
| Upscale.SizeGateBoundary | main.py:60-62 | A 600 px longest edge passes the gate. A 599 px longest edge is skipped as too small. |
| Upscale.RerunSkips | main.py:65-73 | With a factor of at least 2, rerunning after an upload finds the new base strictly larger and skips. |
| Upscale.UpscaleDecisionAsWritten | main.py:76-81 | As written, a call that would upload to a base name without a `/` raises instead, so no upload ever goes there. Every other outcome, and every call on a name with a `/`, is the intended one. |
| Upscale.TopLevelBaseRaises | main.py:76-77 | For `cat.jpg` and a 600x400 source, the code as written raises where an upload of 1200x800 is meant. |
| Batch.Perform | main.py:46-87 | One call of `upscale_image` as written. It never uploads to a base name without a `/`, and it raises where such an upload was meant. |
| Batch.Outcomes | main.py:112-127 | The calls made for the requests, in order, ending after the first that raises. `OutcomesSpec` and `OutcomesStopped` state this. |
| Batch.OutcomesSpec | main.py:112-127 | The calls made are a prefix of the requests, each with its own outcome. None but the last raised, and requests go unserved only after a raise. |
| Batch.OutcomesStopped | main.py:112-127 | After a call raised, later requests change nothing. |
| Batch.RunStep | main.py:112-127 | One more family adds its call, if any, to the calls made. |
| Batch.VisitFamily | main.py:114-127 | One turn of the family loop extends the log exactly as `Outcomes` does for one more family. |
| Batch.UpscaleFamilies | main.py:112-127 | The family loop makes exactly the calls the families ask for, in insertion order, until one raises. |
| Batch.RunListing | main.py:101-127 | `main()` from the listing on makes exactly `Outcomes(Requests(keys))`, with `upscale_image` as written. |
| Batch.RequestsAppend | main.py:112 | The calls of consecutive runs of families follow each other. |
| Batch.RequestsWellFormed | main.py:103-127 | Every call reads a listed image key that has non-zero area and is the first largest of its family. It writes `base + ext`, which is not a variant of the family. |
| Batch.RequestsComplete | main.py:112-127 | Every family that asks for a call gets it in the list. |
| Batch.FamilyRequestSource | main.py:114-127 | A family asks for at most one call, on one of its own variants. |
| Batch.RequestsFromBases | main.py:112-127 | Every call reads a source of one of the families visited. |
| Batch.RequestsDistinct | main.py:112-127 | Over distinct family names, no two calls read the same source. |
| Batch.NoTopLevelUpload | main.py:76-81 | No call of a run uploads to a base name without a `/`. |
| Batch.TopLevelUploadEndsRun | main.py:76-127 | A call that would upload to a base name without a `/` raises, and it is the last call of the run. |

## Left out

- The S3 calls `list_objects`, `head_object`, `download_file`, `upload_file` and the client creation are not modelled; they are remote I/O. Their outcomes enter as the `HeadOutcome`, `ImageOutcome` and `WriteOutcome` fields of a `Probe`.
- `get_images` can raise `UnboundLocalError` after a `NoCredentialsError` (`main.py:20-23`). This is not modelled, because the listing enters the model as a sequence of keys.
- PIL work is not modelled, because it is image codec and floating-point resampling:
  - `Image.open` enters only as its outcome: the size, `UnidentifiedImageError`, or another error;
  - `resize` with bicubic interpolation is assumed to succeed;
  - `save` and `upload_file` failures are folded into `WriteError`.
- Filesystem effects are not modelled, since they are local side effects: the `./tmp/` paths, the `uuid` temporary names, `os.makedirs` beyond the failure under "## Findings", and the temporary files the code never deletes.
- Output is not modelled, since it is a side channel: redirection of stdout and stderr into a timestamped file, and every `print`.
- `Batch.Perform`: the outside world answers through a function of the request, so any change of the bucket during a run is captured only as different answers to different requests. `Batch.RequestsDistinct` shows that no two calls of one run read the same source.
- `Filenames.ImageArea`: `int()` is modelled on ASCII digit strings only. Python also accepts surrounding whitespace, a sign and `_` between digits, and such names are given area 0 here.
- `Filenames.StripJpegExtension`: the regular expression's `$` also matches before a single trailing newline. That case is not modelled, because keys with a trailing newline are not expected.
- `Filenames.IsImageKey`: `str.lower` is modelled on ASCII letters only.
- `Filenames.Extension`: `os.path.splitext` is modelled for POSIX paths only.

## Findings

| source | as written | input that shows it | evidently intended | confidence | as-written member | corrected member |
|---|---|---|---|---|---|---|
| main.py:76-77 | `os.makedirs(os.path.dirname(base_image_name), exist_ok=True)` is called with an empty path whenever the base name has no `/`. `os.makedirs('')` raises FileNotFoundError, and nothing catches it. | Source `cat-600x400.jpg` exists and decodes to 600x400, and no `cat.jpg` exists. The call raises and ends the run instead of uploading `cat.jpg` at 1200x800. | Create the directory only when there is one, then save and upload. | not executed; follows from the documented behaviour of `os.makedirs` | Upscale.UpscaleDecisionAsWritten, Upscale.TopLevelBaseRaises, Batch.TopLevelUploadEndsRun | Upscale.UpscaleDecision, Upscale.UploadExactly |
