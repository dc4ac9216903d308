# ImageLabelIA core, modelled in Dafny

ImageLabelIA labels photos with keywords predicted by image classifiers and object detectors. This project models its core:

- **Keyword writer** (`ImageWriter`). It merges the predicted keywords into each image's IPTC keyword list and saves the image. When asked, it also writes the newly added keywords into a sibling RAW file (`.dng` / `.DNG`) through exiv2's IPTC container. Values are truncated to the byte limits of the IPTC datasets.
- **Orientation normaliser** (`ImageLoader`). It undoes the camera's EXIF orientation and converts the image to RGB.
- **Thumbnail generator** (`ImageUtils.generate_thumbnail`). It converts to RGB, corrects the orientation, and computes an aspect-preserving size whose longer side is `base_size`.

Files:

- `wrappers.dfy`: `Option`.
- `utf8.dfy`: UTF-8 from section 3 of RFC 3629, Python's `decode(..., errors='ignore')`, and byte-limited truncation.
- `path_split.dfy`: POSIX `os.path.splitext`.
- `exiv2_iptc.dfy`: the exiv2 `IptcData` container as a class over a sequence of records.
- `iptc_writer.dfy`: `_max_bytes`, `truncate_iptc` and `set_iptc_value`.
- `tag_writer.dfy`: `changeToRawExtension`, the RAW sibling search, the keyword merge and the RAW IPTC update.
- `batch_writer.dfy`: `writeTagsFromPredictionsInImages`. The file system is a value threaded through the batch. Library failures (opening an image's IPTC block, saving it, opening and writing a RAW file) are given as sets of failing paths.
- `raster.dfy`: images as rows of pixels, with PIL's lossless transposes.
- `image_loader.dfy`: the orientation table, `correct_image_orientation` and `load_image`.
- `image_utils.dfy`: thumbnail sizing and `generate_thumbnail`.

Behaviour of the code that is easy to miss, and that the model follows:

- The image's IPTC block is opened (`IPTCInfo(filename, force=True)`) outside any `try`. An image that is missing, unreadable or unparsable therefore stops the whole batch.
- The RAW file is opened (`exiv2.ImageFactory.open`, `readMetadata`) outside any `try`. A RAW file that exists but cannot be opened therefore stops the whole batch; it is not a per-file error.
- A failed primary save is caught and printed, and the RAW step still runs for that image.
- `set_iptc_value` with an empty value calls `clear_iptc_tag`, which the class does not define. This raises `AttributeError`. So an image that gains no new keyword has its RAW write fail inside the `try`.
- In `generate_thumbnail`, `_getexif` is called outside the `try`. An image type without that method makes the thumbnail fail. In `correct_image_orientation` the same case is caught.

## Model

| member | source | states |
|---|---|---|
| Utf8.EncodeChar | ImageWriter.py:43 | the UTF-8 encoding of one character: 1 to 4 bytes, the lead-byte range for each length, continuation bytes after it |
| Utf8.DecodeHead | ImageWriter.py:44 | a decoded sequence is exactly the encoding of the character it returns, so overlong forms, surrogates and values above U+10FFFF are refused |
| Utf8.Encode | ImageWriter.py:43 | `str.encode('utf-8')`: between one and four octets per character |
| Utf8.DecodeIgnore | ImageWriter.py:44 | `decode('utf-8', errors='ignore')`: never more characters than bytes, since each kept character consumes at least one byte |
| Utf8.Take | ImageWriter.py:43 | slicing to `n` bytes: exactly the first `n` bytes of a longer input, the whole input when it is short enough |
| Utf8.TruncateToBytes | ImageWriter.py:42-44 | encode, slice to `n` bytes, decode: at most `n` characters (its longest-fit property is `TruncateToBytesIsLongestFit`) |
| Utf8.DecodeEncode | ImageWriter.py:43-44 | decoding with 'ignore' gives back any text that was encoded |
| Utf8.ContinuationsDropped | ImageWriter.py:44 | leading continuation bytes are dropped by the lenient decoder |
| Utf8.PartialCharDropped | ImageWriter.py:44 | a character cut off inside its encoding disappears entirely |
| Utf8.TruncateToBytesIsLongestFit | ImageWriter.py:42-44 | encode, slice to `n` bytes, decode: the result is the longest prefix of whole characters whose encoding fits in `n` bytes |
| Utf8.TruncateToBytesFits | ImageWriter.py:42-44 | a text whose encoding fits is returned unchanged |
| PathSplit.RFind | ImageWriter.py:33 | the index of the last occurrence of the character, or -1 |
| PathSplit.SplitExt | ImageWriter.py:33 | `os.path.splitext`: root and extension concatenate to the path, and a non-empty extension starts with a dot |
| PathSplit.SplitExtJoins | ImageWriter.py:33 | `os.path.splitext`: root and extension concatenate to the path, and the extension is empty or a dot followed by no dot or separator |
| PathSplit.NoExtensionIff | ImageWriter.py:33 | the extension is empty exactly when the last component has no non-dot character before its last dot (no dot at all, or only leading dots), and the root is then the whole path |
| PathSplit.SplitExtOfJoined | ImageWriter.py:33 | splitting `base + "." + x` gives back `base` and `"." + x` when `x` holds no '.' and no '/', and the last component of `base` has a non-dot character |
| Exiv2Iptc.FirstWithKey | ImageWriter.py:66 | the index of the first record with the key, or the length when there is none |
| Exiv2Iptc.IptcData.FindKey | ImageWriter.py:66 | `findKey`: the first record with the key; `end()` exactly when there is none |
| Exiv2Iptc.IptcData.SetValue | ImageWriter.py:70 | `setValue` replaces the value at the iterator and keeps its key and every other record |
| Exiv2Iptc.IptcData.Erase | ImageWriter.py:72 | `erase` removes that record and returns the iterator to its successor |
| Exiv2Iptc.IptcData.Add | ImageWriter.py:79 | `add` returns non-zero (6) exactly when the dataset is not repeatable and already present, and then leaves the records alone; otherwise it appends |
| IptcWriter.TruncateIptc | ImageWriter.py:37-45 | `truncate_iptc`: an unbounded tag passes through; for a bounded tag the result is a prefix of the value, fits the tag's byte limit, and no longer prefix fits |
| IptcWriter.TruncateIptcKeepsFittingValue | ImageWriter.py:42-45 | a value within the limit is not altered |
| IptcWriter.ValuesToWrite | ImageWriter.py:61-64 | a list becomes its items truncated one by one, in order; a single value becomes a one-element list |
| IptcWriter.MaxBytesLimits | ImageWriter.py:7-26 | `_max_bytes`: every repeatable dataset has a limit, Keywords allows 64 octets and the character set 32, and every limit is positive |
| IptcWriter.Overwrite | ImageWriter.py:66-74 | the overwrite walk never adds records and never has more values left than it was given |
| IptcWriter.AppendValues | ImageWriter.py:76-81 | the append loop keeps the records it starts from as a prefix, adds at most one record per value, and all of them when it is never refused |
| IptcWriter.IptcUpdate | ImageWriter.py:47-82 | `set_iptc_value` raises for the missing `clear_iptc_tag` exactly when the value is empty, and then leaves the records as they were |
| IptcWriter.SetIptcValue | ImageWriter.py:47-82 | `set_iptc_value` leaves the container in the state, and ends with the outcome, given by the overwrite walk followed by the append loop |
| IptcWriter.OverwriteRecords | ImageWriter.py:66-74 | the walk from `findKey`: each record of the tag takes the next value, and records beyond the values are erased |
| IptcWriter.AppendRecords | ImageWriter.py:76-81 | the append loop adds one record per remaining value and stops at the first refusal |
| IptcWriter.OverwriteSkipsPrefix | ImageWriter.py:66-67 | records before the first record of the tag are not touched by the walk |
| IptcWriter.SetIptcValueOutcome | ImageWriter.py:51-53 | raises (missing `clear_iptc_tag`) exactly for an empty value, and then changes nothing; returns None exactly when a non-repeatable dataset would get a second record |
| IptcWriter.SetIptcValueWritesValues | ImageWriter.py:66-81 | records of other datasets are unchanged and keep their order; on success the records of the tag read, in order, exactly the truncated values; on refusal they are a proper prefix of them |
| IptcWriter.SetIptcValueInPlace | ImageWriter.py:66-74 | for a record at index i such that the tag records up to and including it number no more than the values: it stays at i; a record of another dataset is unchanged, and the k-th record of the tag takes the k-th value (records after an erased one move up) |
| IptcWriter.SetIptcValueAppendsAtEnd | ImageWriter.py:76-81 | the values left over become new records at the end, in order |
| TagWriter.ChangeToRawExtension | ImageWriter.py:29-35 | `changeToRawExtension`: the result ends in "." plus the new extension, after a prefix of the path whose remainder is one splitext extension |
| TagWriter.ChangeToRawExtensionReplaces | ImageWriter.py:33-34 | "dir/img.jpg" becomes "dir/img.dng": the last extension is replaced |
| TagWriter.ChangeToRawExtensionAppends | ImageWriter.py:33-34 | a path without a splitext extension (no dot in its last component, or only leading dots as in ".jpg") gets the new extension appended |
| TagWriter.RawCandidates | ImageWriter.py:102-104 | the candidate RAW names, one per extension, "dng" before "DNG" |
| TagWriter.FirstExisting | ImageWriter.py:103-108 | the first candidate that exists, and none before it exists |
| TagWriter.RawSibling | ImageWriter.py:101-109 | the RAW sibling, when there is one, exists and is the path renamed to ".dng" or ".DNG" |
| TagWriter.FindRawSibling | ImageWriter.py:101-109 | the search loop with `break` finds the sibling that `RawSibling` names |
| TagWriter.RawSiblingChoice | ImageWriter.py:101-109 | the ".dng" file wins when present, then the ".DNG" file, else there is no sibling |
| TagWriter.RawSiblingExists | ImageWriter.py:105 | a sibling that is found exists on disk |
| TagWriter.MergeKeywords | ImageWriter.py:111-119 | the merge loop produces the keyword list and `addedKeywords` that `MergedKeywords` gives |
| TagWriter.NewKeywords | ImageWriter.py:116-119 | the keywords the loop appends: no more than were proposed, each proposed and absent from the starting list |
| TagWriter.MergedKeywords | ImageWriter.py:113-119 | the keyword list and `addedKeywords`: without `overwrite` the list grows by exactly the added keywords, and every added keyword was proposed and is in the list |
| TagWriter.FirstIndex | ImageWriter.py:117 | the position of the first occurrence of a keyword |
| TagWriter.NewKeywordsCharacterised | ImageWriter.py:116-119 | the added keywords have no repeats, are exactly the proposals absent from the starting list, and follow the order of their first proposal |
| TagWriter.MergeOverwrite | ImageWriter.py:113-119 | with `overwrite`: the new list is the proposals without repeats, first occurrence first, and all of it counts as added |
| TagWriter.MergeAppend | ImageWriter.py:116-119 | without `overwrite`: the stored keywords stay first and in order, followed by exactly the absent proposals |
| TagWriter.MergeContainsProposals | ImageWriter.py:113-119 | after the merge every proposal is in the list |
| TagWriter.MergeAppendExample | ImageWriter.py:116-119 | ["a","b"] merged with ["b","c"] gives ["a","b","c"], and only "c" is added |
| TagWriter.MergeOverwriteExample | ImageWriter.py:113-119 | overwriting ["a","b"] with ["c","c","d"] gives ["c","d"], all of it added |
| TagWriter.UpdateRawIptc | ImageWriter.py:131-133 | the two `set_iptc_value` calls on the RAW container (character set, then keywords) produce the records and success flag that `RawIptcUpdate` gives |
| TagWriter.RawIptcUpdate | ImageWriter.py:131-133 | the two `set_iptc_value` calls on the RAW records; with no added keyword the update fails |
| TagWriter.DesignationFits | ImageWriter.py:132 | the escape ESC % G fits the 32-byte character-set limit, so it is stored unchanged |
| TagWriter.ValuesOfThroughOthers | ImageWriter.py:66-81 | removing one dataset's records leaves every other dataset's values as they were |
| TagWriter.RawIptcUpdateSucceeds | ImageWriter.py:131-134 | the RAW update succeeds exactly when at least one keyword was added |
| TagWriter.RawIptcUpdateContents | ImageWriter.py:131-133 | after a successful update the character set reads ESC % G once; the keywords are the added ones, truncated to 64 bytes, in order; every other dataset is kept |
| TagWriter.RawIptcUpdateOfEmpty | ImageWriter.py:131-133 | a RAW file without IPTC records gets the character-set record followed by one record per added keyword |
| BatchWriter.WriteOne | ImageWriter.py:95-137 | the loop body for one prediction gives the disk and report that `Step` gives |
| BatchWriter.WriteTagsFromPredictionsInImages | ImageWriter.py:84-137 | the loop over the predictions, with the RAW flag reset for each one, gives the result that `Run` gives |
| BatchWriter.Step | ImageWriter.py:95-137 | a handled prediction had an existing, openable image, and its report names that image |
| BatchWriter.RawPart | ImageWriter.py:129-137 | the RAW half of a step changes only RAW records, and is skipped exactly when there is no sibling |
| BatchWriter.Run | ImageWriter.py:94-137 | the batch produces at most one report per prediction |
| BatchWriter.StepStopsIff | ImageWriter.py:99-109 | a prediction stops the batch exactly when its image is missing or `IPTCInfo` cannot open it, or when its RAW sibling exists but cannot be opened; a missing sibling is no error |
| BatchWriter.StepReport | ImageWriter.py:111-129 | the report names the image and the keywords the merge added, says whether the save succeeded, and has a RAW step exactly when RAW handling is on and a sibling exists, saved or not |
| BatchWriter.StepSavesMerged | ImageWriter.py:111-127 | the stored keyword list becomes the merged list exactly when the save succeeds, and the "~" backup then disappears; other images are untouched |
| BatchWriter.StepRawWrite | ImageWriter.py:129-137 | the sibling is rewritten exactly when RAW handling is on, a sibling exists, a keyword was added and the write succeeds; it then holds ESC % G once and the added keywords, truncated, with other datasets kept |
| BatchWriter.StepRawOthersKept | ImageWriter.py:129-137 | only the written sibling's records change; without a RAW write no RAW file changes |
| BatchWriter.RunReports | ImageWriter.py:94-137 | one report per handled prediction, in order; the batch completes exactly when all were handled |
| BatchWriter.RunRemovesOnlyBackups | ImageWriter.py:121-127 | files only disappear, and each is some image's "~" backup |
| BatchWriter.RunWithoutRaw | ImageWriter.py:93-109 | without `applyToRaw` no RAW file changes, and every report says the RAW step was skipped |
| BatchWriter.RunIsolatesFailures | ImageWriter.py:99-137 | when every image exists and `IPTCInfo` can open it, no image path is another image's path plus "~" (saving one would delete the other), and every RAW file present can be opened, the batch handles every prediction whatever saves and RAW writes fail, and each report records its own save outcome |
| Raster.ImageEq | ImageLoader.py:12-25 | two well-formed images with equal size and pixels are the same image |
| Raster.FlipLeftRight | ImageLoader.py:13 | `FLIP_LEFT_RIGHT`: same size, each row mirrored |
| Raster.Rotate180 | ImageLoader.py:15 | `rotate(180)`: same size, turned upside down |
| Raster.RotateClockwise | ImageLoader.py:21 | `rotate(-90, expand=True)`: sides swap, a quarter turn clockwise |
| Raster.RotateCounterClockwise | ImageLoader.py:25 | `rotate(90, expand=True)`: sides swap, a quarter turn counter-clockwise |
| Raster.MapPixels | ImageLoader.py:48 | `convert("RGB")`: same size, each pixel converted on its own |
| Raster.FlipLeftRightInvolution | ImageLoader.py:13 | mirroring twice restores the image |
| Raster.Rotate180Involution | ImageLoader.py:15 | a half turn twice restores the image |
| Raster.QuarterTurnsInverse | ImageLoader.py:21-25 | the clockwise and counter-clockwise quarter turns undo each other |
| Raster.TwoQuarterTurns | ImageLoader.py:15-21 | two clockwise quarter turns make the half turn |
| Raster.MapPixelsCommutes | ImageLoader.py:47-48 | converting pixels commutes with each transform |
| ImageLoader.OrientationValue | ImageLoader.py:8-12 | the Orientation tag's value is found exactly when the image has an EXIF table holding tag 0x0112 |
| ImageLoader.Reorient | ImageLoader.py:12-25 | the orientation table: values 5 to 8 swap the sides, the others keep them |
| ImageLoader.CorrectImageOrientation | ImageLoader.py:5-29 | `correct_image_orientation`: the result keeps the side lengths (possibly swapped), and either is the input unchanged or is a new image without `_getexif` |
| ImageLoader.ReorientPixel | ImageLoader.py:12-25 | where each output pixel comes from: 2 mirror, 3 half turn, 4 top-bottom flip, 5 transpose, 6 clockwise, 7 transverse, 8 counter-clockwise |
| ImageLoader.InverseOrientation | ImageLoader.py:12-25 | 6 and 8 are each other's inverse; every other value is its own |
| ImageLoader.ReorientUndone | ImageLoader.py:12-25 | every table entry is a bijection on pixels: the inverse entry gives the image back |
| ImageLoader.ReorientSource | ImageLoader.py:12-25 | each output pixel of a table entry is taken from a position inside the original |
| ImageLoader.ReorientPixelsFrom | ImageLoader.py:12-25 | every pixel of a reoriented image is a pixel of the original |
| ImageLoader.ReorientKeepsPixels | ImageLoader.py:12-25 | orientation only rearranges pixels: the reoriented image holds a pixel exactly when the original does |
| ImageLoader.ReorientSelfInverse | ImageLoader.py:16-23 | the entries 4, 5 and 7 undo themselves |
| ImageLoader.CorrectImageOrientationDefaults | ImageLoader.py:7-28 | no EXIF method, no EXIF, no tag, or a value outside 2..8 leaves the image as it was; otherwise the table entry is applied |
| ImageLoader.CorrectImageOrientationIdempotent | ImageLoader.py:5-29 | correcting an already corrected image changes nothing |
| ImageLoader.ReorientMapPixels | ImageLoader.py:47-48 | converting pixels commutes with every table entry |
| ImageLoader.LoadImage | ImageLoader.py:32-50 | `load_image` fails exactly when the file cannot be opened, and otherwise yields a well-formed image |
| ImageLoader.LoadImageConvertFirst | ImageLoader.py:44-48 | correcting then converting gives the same pixels as converting then correcting |
| ImageUtils.ThumbnailSize | ImageUtils.py:43-50 | a size exists exactly when the height is non-zero, since the aspect ratio divides by it |
| ImageUtils.ThumbnailSizeKeepsAspect | ImageUtils.py:43-50 | the longer side becomes `base_size`; the other is the exact scaled side rounded down, off by less than one pixel and at most `base_size` |
| ImageUtils.ThumbnailSizeTransposes | ImageUtils.py:44-50 | swapping width and height swaps the thumbnail size |
| ImageUtils.ThumbnailSizeCollapses | ImageUtils.py:44-50 | the shorter side is 0 exactly when the aspect ratio exceeds `base_size` |
| ImageUtils.GenerateThumbnail | ImageUtils.py:7-53 | `generate_thumbnail` gives a well-formed image and a size with both sides positive |
| ImageUtils.ThumbnailOfLoadedImage | ImageUtils.py:12-41 | the thumbnail is a resize of exactly the image `load_image` gives for the same file, to the thumbnail size of that image |
| ImageUtils.GenerateThumbnailSucceeds | ImageUtils.py:12-52 | the thumbnail is produced exactly when the image type reports EXIF, and the oriented image (sides swapped for values 5 to 8) has a height and no collapsing side |

## Left out

- `saveFails` models a save that raises. iptcinfo3's `save` is not part of this model; it can also return without writing, for instance for a file that is not a JPEG, such as the `.png` images the application accepts. A path in `saveFails` stands for that case too. The source then still removes the "~" backup and prints nothing, and the model does not tell the two apart.
- File contents and decoding (PIL's `Image.open`, iptcinfo3's file parsing and saving, exiv2's `readMetadata` and `writeMetadata`) are not modelled. An opened image is a parameter: `None` when it cannot be opened. Library failures are sets of paths on which the call raises: `IPTCInfo(filename, force=True)` on an existing image, `save`, and the RAW `open`/`readMetadata` and `writeMetadata`.
- The file system is a value: existing paths, each image's stored keyword list, and each RAW file's IPTC records. When the primary image is itself a `.dng`, its two metadata views are kept apart.
- Keyword values are compared as strings. How iptcinfo3 decodes the bytes stored in a file is not part of this model.
- `print` diagnostics are not modelled.
- The date and time branches of `set_iptc_value` (`exiv2.DateValue`, `exiv2.TimeValue`) are not modelled. The writer only sets the character set and Keywords, which are strings.
- `Exiv2Iptc.IptcData.Add`: repeatability is known only for the datasets that have a byte limit; any other dataset is treated as non-repeatable.
- `setIptcData(None)` after a refused `set_iptc_value` is taken to raise, like exiv2's binding does for a missing container. The RAW write is then reported as failed.
- Python strings that hold lone surrogates cannot be encoded to UTF-8 and raise. Dafny characters are Unicode scalar values, so that case does not arise.
- Windows path rules (`ntpath`) are not modelled; only the POSIX `os.path.splitext` is.
- The search for "Orientation" in `ExifTags.TAGS` is the constant 0x0112.
- EXIF values that are not integers are treated like integers outside 2..8: no branch matches them.
- `ImageUtils.GenerateThumbnail`: the pixels of the resized image are not modelled. PIL's resampling filters are floating point. The model keeps the oriented RGB image and the target size.
- `ImageUtils.ThumbnailSize`: the sides are the exact quotient rounded down. The source divides in floating point, which can round differently when the exact quotient lies within floating-point error of an integer.
- A computed side of 0 is taken to make `resize` raise. PIL refuses non-positive sizes.
- `get_iptc_keywords`, the Tk desktop interface (`app.py`), the classifiers, the detector and the translator are not part of this model.
