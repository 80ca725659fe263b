# DatasetMaker face-crop pipeline, modelled in Dafny

`main.py` builds a face dataset from a directory of pictures in three steps:

- `get_images` keeps the directory entries named `*.jpg` or `*.png`.
- `filter_images` drops from that list, in place, the single-band (greyscale or palette) images it inspects. The entry after each removal is skipped (see `ColorFilter` below).
- `detect_faces` runs a cascade face detector on every remaining image. It crops each face, resizes the crop with `image_resize(…, width=64, height=64)` and writes it to `data/<name without .jpg/.png>.png`.

This project models the sequential logic of those steps. OpenCV, PIL and the filesystem are represented by inputs:

- the directory listing is a `seq<string>`;
- the band tuple, or `OSError`, of each file is a `probe: string -> Probe`;
- whether the cascade file exists is a `bool`;
- the detector's answer per image is a `scan: string -> Option<seq<Face>>`. `None` means `cv2.imread` could not read the file.

Modules:

- `Wrappers`: `Option`.
- `Sequences`: Python list facts. `list.remove` deletes the first equal element, plus subsequences and duplicate-free lists.
- `Strings`: `str.endswith`, and `str.replace(pat, '')`, which deletes every non-overlapping occurrence from left to right.
- `Scanner`: `get_images`, as a loop (`GetImages`) proved against a filter function (`SelectImages`).
- `ColorFilter`: `filter_images`.
  - The caller's list is a `NameList` object that `FilterImages` mutates and returns.
  - The `for` loop is modelled with Python's hidden iterator index. After `images.remove(image)` the next entry slides into the slot just visited, so it is never classified.
  - `Sweep` is the specification of that loop.
  - `Survivors` is an independent positional reading for duplicate-free lists (directory listings). The two are proved equal on such lists.
- `Resize`: the target dimensions computed by `image_resize`.
- `Detector`: `detect_faces`.
  - The cascade check comes first.
  - The outer loop reads images and stops at the first unreadable one. `cv2.cvtColor` raises on the `None` that `cv2.imread` returns for it.
  - The inner loop writes one artifact per face to `OutputPath(image)`, so later faces overwrite earlier ones.
  - The output directory is an `OutputDir` object holding a `map<string, Artifact>`.
- `Pipeline`: the script at the bottom of `main.py`, plus end-to-end scenarios.

Behaviour of the code worth knowing, which the model follows:

- **Crop size.** The docstring of `image_resize` (main.py:49-51) calls `height` the height of the image after resizing, and `detect_faces` asks for `width=64, height=64`. In the code, `image_resize` ignores `height` whenever `width` is given. So in the model, a crop of `w` × `h` pixels becomes `64` × `⌊64·h/w⌋`. `BoxRequestIsSquareIff` states exactly when that exact-arithmetic result is 64 × 64. The program's float arithmetic can give one less (see "## Left out").
- **Unreadable files in the filter.** `filter_images` does not drop a file that PIL cannot open. Its `OSError` handler (main.py:39-40) only logs, so the entry stays in the list (`Classify` gives `InvalidFile`, which is kept) and reaches the detector.
- **Unreadable files in the detector.** An image that `cv2.imread` cannot read aborts the whole run (`ReadFailed`). It is not skipped.

## Model

| member | source | states |
|---|---|---|
| Strings.EndsWith | main.py:13 | `s.endswith(suffix)` holds iff `s` is some stem followed by exactly `suffix`, character for character |
| Scanner.IsImageName | main.py:13 | an entry is an image name iff its last four characters are exactly ".jpg" or ".png" |
| Scanner.UpperCaseExtensionIsNotImage | main.py:13 | the test is case-sensitive: "photo.JPG" and "photo.PNG" are not selected |
| Scanner.SelectImages | main.py:11-18 | the selected entries are at most as many as the listing, and each ends in ".jpg" or ".png" |
| Scanner.SelectImagesMembers | main.py:12-15 | a name is selected iff it is in the listing and ends in ".jpg" or ".png" (case-sensitive) |
| Scanner.SelectImagesIsSubsequence | main.py:12-15 | the selection keeps listing order: it is a subsequence of the listing |
| Scanner.SelectEveryImage | main.py:12-15 | a listing made only of image names is returned whole |
| Scanner.GetImages | main.py:5-18 | the append loop returns the filter `SelectImages`, so it holds exactly the image-named entries, in listing order |
| Sequences.FirstIndex | main.py:36 | the index found holds `x`, and no earlier index does |
| Sequences.RemoveAt | main.py:36 | deleting one position shortens the list by one |
| Sequences.RemoveAtShifts | main.py:36 | entries before the deleted position stay put; later ones move down by one |
| Sequences.RemoveFirst | main.py:36 | `list.remove(x)` shortens the list by one |
| Sequences.RemoveFirstMultiset | main.py:36 | `list.remove(x)` takes away exactly one copy of `x` and nothing else |
| Sequences.RemoveFirstOfDistinct | main.py:36 | in a duplicate-free list, `remove(s[j])` deletes position `j` |
| Strings.RemoveAll | main.py:93 | `replace(pat, '')` never lengthens the name |
| Strings.RemoveAllFirstOccurrence | main.py:93 | for `u + pat + v` where `pat` first occurs right after `u`, `replace(pat, '')` keeps `u`, deletes that occurrence and continues on `v` |
| Strings.RemoveAllBeforeOccurrence | main.py:93 | before the first occurrence, the first character is copied and the remaining prefix still holds no occurrence |
| Strings.RemoveAllMiss | main.py:93 | a position where `pat` does not start is copied and the scan moves on |
| Strings.RemoveAllNoOccurrence | main.py:93 | a name in which `pat` never occurs is unchanged |
| Strings.RemoveAllStep | main.py:93 | a character that cannot start `pat` is copied and the scan moves on |
| Strings.RemoveAllSkipsStem | main.py:93 | a prefix free of `pat`'s first character is copied through unchanged |
| Strings.RemoveAllLeading | main.py:93 | a leading occurrence is deleted and the scan resumes after it |
| Strings.RemoveAllTrailing | main.py:93 | a name whose only occurrence of `pat` is trailing loses exactly that occurrence |
| Strings.RemoveAllKeepsOtherExtension | main.py:93 | removing ".jpg" keeps a trailing ".png" (and the other way round) |
| Strings.RemoveAllAbsent | main.py:93 | a name without `pat`'s first character is unchanged |
| ColorFilter.SingleBand | main.py:34-36 | an entry is single-band iff PIL opens it and reports exactly one band; this is main.py:34's test, which removes an entry the loop inspects |
| ColorFilter.Classify | main.py:29-40 | removal happens iff the band tuple has length 1; `OSError` is `InvalidFile`, which is kept; an entry is `Colour` iff PIL reports exactly ("R","G","B") or ("R","G","B","A") |
| ColorFilter.NameList.Remove | main.py:36 | the list object becomes `RemoveFirst` of its contents; `found` is false exactly where Python raises `ValueError` |
| ColorFilter.Sweep | main.py:27-36 | the loop from hidden index `idx` never lengthens the list |
| ColorFilter.Survivors | main.py:27-36 | the positional reading never lengthens the list |
| ColorFilter.SurvivorsSubset | main.py:27-36 | the positional reading only drops entries |
| ColorFilter.FilterImages | main.py:20-41 | mutates and returns the very list given; its new contents are `Sweep` of the old; they form a subsequence of the old; on a duplicate-free list they equal `Survivors` |
| ColorFilter.SweepIsSubsequence | main.py:27-36 | the loop only deletes, keeping order |
| ColorFilter.SweepKeepsOtherNames | main.py:27-40 | a name that is not single-band (colour, other layout, unreadable) keeps every occurrence |
| ColorFilter.SweepFrom | main.py:27-36 | on a duplicate-free list, the loop from index `i` keeps the first `i` entries and leaves `Survivors` of the rest |
| ColorFilter.SweepKeptCase | main.py:27-33 | a kept entry joins the untouched prefix |
| ColorFilter.RemoveOfDistinct | main.py:36 | on a duplicate-free list, `remove(xs[i])` deletes position `i` and leaves a duplicate-free list |
| ColorFilter.SweepLastCase | main.py:34-36 | removing the last entry ends the loop |
| ColorFilter.SweepDroppedCase | main.py:34-36 | after a removal, the entry that slid into the slot is kept without being classified |
| ColorFilter.SurvivorsAfterDrop | main.py:34-36 | after a removal at `i`, the positional reading keeps the next entry |
| ColorFilter.FilterMatchesSurvivors | main.py:27-36 | on a duplicate-free list the loop leaves exactly `Survivors` |
| ColorFilter.SurvivesIff | main.py:27-36 | on a duplicate-free list, an entry survives iff it is not single-band or the entry before it was removed |
| ColorFilter.AdjacentSingleBandExactlyOneSurvives | main.py:27-36 | on a duplicate-free list, of two adjacent single-band entries exactly one is left in the result |
| ColorFilter.TwoKept | main.py:27-33 | two entries that are not single-band both stay |
| ColorFilter.ColourThenSingleBand | main.py:27-36 | in a two-entry list of distinct names, a single-band entry right after a kept one is classified and removed |
| ColorFilter.DuplicateNamesReorder | main.py:27-36 | with a repeated name, `remove` deletes the earlier copy: [y, a, b, a] becomes [b, a], where the positional reading gives [a, b] |
| ColorFilter.RemoveLeading | main.py:36 | `remove` of the first entry drops exactly that entry |
| Resize.TargetSize | main.py:53-62 | no size gives the image back unchanged; a zero source side with its ratio in use raises ZeroDivisionError; with `width` given the result is `width` × ⌊h·width/w⌋ whatever `height` is; with only `height` it is ⌊w·height/h⌋ × `height` |
| Resize.FloorDiv | main.py:58-62 | the quotient is the floor of the exact ratio |
| Resize.BoxRequestIsSquareIff | main.py:60-62 | with exact arithmetic, `width=64, height=64` gives 64 × 64 iff w ≤ h < 65w/64 (the float truncation of the program is left out) |
| Detector.OutputPath | main.py:93 | the path starts with "data/" and ends with ".png" |
| Detector.FaceArtifact | main.py:91-92 | the artifact records the image and face; it is 64 wide and ⌊64·h/w⌋ high |
| Detector.OutputDir.Write | main.py:93 | `cv2.imwrite` creates or overwrites exactly that path |
| Detector.WriteFaces | main.py:90-93 | the face loop adds no path other than the image's output path, and every other path keeps its contents |
| Detector.DetectAll | main.py:80-93 | the outer loop never reports a missing cascade file; it reads at least one image unless there are none, and never more than there are |
| Detector.DetectAllReadsPrefix | main.py:80-83 | the images read are a prefix of the list, in list order |
| Detector.DetectAllStopsAtFirstUnreadable | main.py:80-83 | a run that stops early stops at the first unreadable image: it is the last one read, `cv2.imread` gave `None` for it, and every image read before it was readable |
| Detector.DetectAllFinishedIff | main.py:80-83 | the run finishes iff every image is readable, and then it has read them all |
| Detector.Detect | main.py:77-80 | a missing cascade file raises `RuntimeError` before any image is read or written |
| Detector.DetectFaces | main.py:67-93 | the loops compute `Detect` of the initial directory; with a missing cascade file nothing is read or written |
| Detector.WriteAllFaces | main.py:90-93 | the inner loop leaves the directory `WriteFaces` of the old one |
| Detector.AfterAfter | main.py:80-82 | recording read images in two steps equals recording them at once |
| Detector.DetectAllStep | main.py:80-93 | one outer iteration: an unreadable first image ends the run, a readable one has its faces written before the rest |
| Detector.LastFaceWins | main.py:90-93 | after the face loop, the image's output path holds the crop of the last face, and nothing else changed |
| Detector.DetectOneImage | main.py:80-93 | a single readable image has its faces written and the run finishes |
| Detector.DetectTwoImages | main.py:80-93 | two readable images are processed in list order |
| Detector.NoFaceNoWrite | main.py:90-93 | an image with no face writes nothing |
| Detector.DetectAllTouchesOnlyOutputPaths | main.py:80-93 | a path that is no image's output path keeps its contents |
| Detector.OutputPathOfStem | main.py:93 | `stem`.jpg and `stem`.png (dot-free stem) both map to "data/`stem`.png" |
| Detector.OutputPathOfAbcJpg | main.py:93 | "abc.jpg" maps to "data/abc.png" |
| Detector.OutputPathsCollide | main.py:93 | "a.jpg" and "a.png" map to the same path "data/a.png" |
| Detector.OutputPathDropsInnerJpeg | main.py:93 | every ".jpg" is removed, not only a trailing one |
| Detector.JpegPassDropsInner | main.py:93 | the first `replace` deletes an inner ".jpg" and keeps the trailing ".png" |
| Pipeline.ScriptRun | main.py:95-98 | with a missing cascade file the script stops with `RuntimeError`, the detector having read (`cv2.imread`) no image and the directory unchanged |
| Pipeline.RunScript | main.py:95-98 | running the three functions in order computes `ScriptRun` |
| Pipeline.ScriptReadsListingInOrder | main.py:95-98 | the images the detector reads are a subsequence of the directory listing |
| Pipeline.ScriptRunOneColourImage | main.py:95-98 | a listing of one readable colour image finishes after writing its faces |
| Pipeline.ListedStemsSelected | main.py:12-15 | `a`.jpg and `b`.png are both selected |
| Pipeline.ExtensionsDiffer | main.py:13 | a ".jpg" name and a ".png" name are never equal |
| Pipeline.ScenarioOneColourOneGrey | main.py:95-98 | for colour `a`.jpg with one 80×80 face and greyscale `b`.png, listed in either order, the directory receives only "data/`a`.png", a 64×64 crop, and `b`.png is never read by the detector; with `b`.png first, `a`.jpg is kept without being classified |
| Pipeline.OneSquareCrop | main.py:90-93 | the finished run that read only `a`.jpg and wrote only "data/`a`.png", a 64 × 64 crop |
| Pipeline.ColourImageCropped | main.py:80-93 | the detector alone on `a`.jpg with one 80×80 face gives `OneSquareCrop(a)` |
| Pipeline.ScenarioManyFacesOneFile | main.py:90-98 | however many faces `c`.jpg has, one file "data/`c`.png" remains, holding the last face's crop |
| Pipeline.ScenarioSameStemCollide | main.py:93-98 | `c`.jpg and `c`.png share one output file, and the one listed later wins |
| Pipeline.BothStemsProcessed | main.py:95-98 | `c`.jpg and `c`.png, both colour and readable, are both kept and processed in listing order |

## Left out

- Library calls are represented by inputs:
  - `Image.open`/`getbands` by `probe`;
  - `os.path.isfile` by `cascadeExists`;
  - `cv2.imread`, `cvtColor`, `equalizeHist` and `detectMultiScale` by `scan`;
  - `os.listdir` by `listing`.
  Their internals, the pixel data and the `INTER_AREA` resampling of `cv2.resize` are not modelled. An artifact records the source, face and size instead of pixels.
- Resize.TargetSize: uses the exact floor of `h·width/w`. The source computes `int(h * (width / float(w)))`. Float rounding can land just below an exact integer, and the truncation then gives one less. This hits square crops, which are what the cascade detector normally returns. For example, a 98 × 98 crop gives `int(98 * (64 / 98.0))` = 63.
- Resize.BoxRequestIsSquareIff: the iff is about the exact-floor model. For square crops of side 98, 103, 107, 161, 187, 196, … the program writes 64 × 63 where the model gives 64 × 64.
- Detector.Face: the model assumes that `detectMultiScale` never returns a region smaller than `minSize=(64, 64)` (main.py:88). This assumption is what rules out a zero-width crop, and with it the `ZeroDivisionError` in `image_resize`, in `FaceArtifact`. The foreign detector's own guarantee is not modelled.
- Detector.FaceArtifact: assumes the detector returns in-bounds rectangles, so the crop is `w` × `h`. NumPy's clipping of out-of-bounds slices is not modelled.
- Detector.FaceArtifact: a computed height of 0 (a crop more than 64 times wider than tall) is recorded as `Scaled(64, 0)`. The error `cv2.resize` would raise is not modelled.
- Detector.OutputDir.Write: a failing `cv2.imwrite` (missing `data/` directory) is not modelled. Every write succeeds.
- `detect_faces` builds a new `CascadeClassifier` for every image. This is unobservable in the model and left out.
- The hard-coded paths are not modelled: `"D:\GrabberData"`, the `'\\'` joins and the cascade file name.
- All `logging` calls and `basicConfig` are left out. They are diagnostic output only.
- Exceptions other than those modelled are left out, for example a `KeyboardInterrupt` or a PIL error that is not an `OSError`. The modelled ones are `OSError` in the filter, `RuntimeError` for a missing cascade file, and the failure on an unreadable image.
- Scanner.GetImages: directory entries are plain names. Subdirectories whose names end in ".jpg" or ".png" are selected like files, as in the source, but the model does not distinguish them.
