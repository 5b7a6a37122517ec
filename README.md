# Nationwide degree show: conversion pipeline and page API, in Dafny

This project models two parts of the degree-show site.

The first is the **conversion tool** that turns the submissions
spreadsheet into the site's data:

- `parse` reads the CSV rows under normalised column names.
- `downloadFiles` acquires each submission's image: a manual override, a
  cached download larger than 5 KiB, or a fresh download. A PDF is
  rasterised, the file type is corrected by renaming the file under
  `overrides/`, four JPEG thumbnails are rendered and a colour is taken
  from the compressed one.
- `probeImageDimensions` records the width and height of every stored
  image and reports the files that are missing or are not images.
- `persist` shapes the records, folding the raw category flags into the
  merged categories.
- The missing-images report is written as a CSV file.

Both pipelines are modelled: the older one in `tools/convert/submissions.ts`
(module `Submissions`) and the newer one in `tools/convert/lib/submissions.ts`
(module `SubmissionsLib`).

The second is the **serverless API**. It serves the category table and pages
of fifty submissions; a path that is not recognised gets a 404 and a page
that is not a number gets a 422.

Modules:

- `JsString`, `NodePath` and `JsNumber` give the ECMAScript and Node
  operations the code relies on: `trim`, `toLowerCase`, `replace`,
  `split`, `join`, `path.basename`, `path.extname`, `path.resolve`,
  `Number()`, number arithmetic with NaN and the infinities, and `slice`.
- `Seqs` defines `filter` and `Array.from(new Set(..))`.
- `Records` holds CSV cells, rows, the `RawSubmission` object and the
  persisted record.
- `Files` holds the file policy. `Files.Workspace` is a class holding the
  file system (a map from path to size) and the module-level `errors` and
  `missingImages` arrays, which its methods update in place.
- `Submissions` and `SubmissionsLib` hold the two pipelines.
- `Repository` and `Api` hold the API.
- `MissingImagesCsv` holds the report writer and a reader used to state
  its round trip.

What `https`, `glob`, `file-type`, `pdf-image`, `sharp`, `probe-image-size`
and `node-vibrant` answer is an argument of the operation that calls them.

Behaviour of the code worth knowing:

- The thumbnails are rendered one after another, and the first rejected
  resize ends the image branch. It does not go on to the other sizes.
- A fresh render resolves to the bare stem of the file name, while a cached
  thumbnail resolves to its full path. The older pipeline stores whichever
  one it gets as the thumbnail path.
- A download request that throws before it is sent leaves an empty file
  at the download path, so the next run fetches again.
- Page 0 and an empty page segment serve nothing. A negative page counts
  from the end of the list, because `slice` does.

## Model

| member | source | states |
|---|---|---|
| JsString.TrimEnds | tools/convert/files.ts:39 | `trim` leaves no white space at either end and never lengthens the string |
| JsString.TrimRemovesOnlyWhitespace | tools/convert/files.ts:39 | `trim` removes white space only: the result is a contiguous piece of the string, and everything before and after it is white space |
| JsString.TrimStartRemovesOnlyWhitespace | tools/convert/files.ts:39 | the leading white space goes, and only it: what is left is a suffix not starting with white space, and every character cut off is white space |
| JsString.TrimEndRemovesOnlyWhitespace | tools/convert/files.ts:39 | the trailing white space goes, and only it: what is left is a prefix not ending with white space, and every character cut off is white space |
| JsString.TrimKeeps | tools/convert/files.ts:39 | a string without white space at its ends is its own trim |
| JsString.LowerEach | tools/convert/files.ts:39 | `toLowerCase` keeps the length and lowers each character (ASCII letters) |
| JsString.LowerIsLower | tools/convert/files.ts:39 | a lower-cased string has nothing left to lower-case |
| JsString.TrimKeepsLower | tools/convert/lib/submissions.ts:18 | trimming keeps a lower-case string lower-case |
| JsString.IndexOf | tools/convert/files.ts:114 | `indexOf` is the first occurrence, and is -1 exactly when there is none |
| JsString.IndexFrom | tools/convert/files.ts:114 | the search from a position finds the first occurrence at or after it, and -1 exactly when there is none |
| JsString.CharIndex | src/functions/api.ts:9 | the position of the first occurrence of a character, or the length when there is none |
| JsString.SplitCons | src/functions/api.ts:9 | splitting text whose front has no separator gives that front as the first piece |
| JsString.Split | src/functions/api.ts:9 | `split` on one character never yields an empty list |
| JsString.SplitJoin | tools/convert/json.ts:60-62 | splitting undoes joining when no part holds the separator |
| JsString.NatToString | tools/convert/files.ts:173 | the decimal rendering of a number is a non-empty run of digits |
| JsString.IntToString | src/functions/api.ts:18 | the decimal rendering of an integer is never empty |
| NodePath.BaseName | tools/convert/files.ts:182 | `path.basename` contains no `/` |
| NodePath.StripTrailingSlashes | tools/convert/files.ts:182 | trailing `/` are removed, and only they: the result is a prefix that does not end with `/` |
| NodePath.LastIndexIsLast | tools/convert/files.ts:316 | no occurrence of the character follows the position `lastIndexOf` reports |
| NodePath.LastIndexAfter | tools/convert/files.ts:316 | in `a c b`, with no `c` in `b`, the last `c` is the one after `a` |
| NodePath.ExtNameShape | tools/convert/files.ts:316 | `path.extname` is empty or a suffix of the base name that starts with its only `.` and is shorter than the base name |
| NodePath.StemShape | tools/convert/files.ts:182 | `path.basename(p, path.extname(p))` holds no `/`, and followed by the extension it is the base name |
| NodePath.BaseNameOfResolve | tools/convert/files.ts:60 | the base name of `path.resolve(dir, name)` is `name` |
| NodePath.ExtNameOf | tools/convert/files.ts:316 | a base name `stem.e`, with no `.` in `e`, has extension `.e` |
| NodePath.StemOf | tools/convert/files.ts:182 | a base name `stem.e` has stem `stem` |
| NodePath.ResolvedParts | tools/convert/files.ts:185 | `dir/stem.e` has base name `stem.e`, extension `.e` and stem `stem` |
| NodePath.ExtNameNone | tools/convert/files.ts:316 | a base name without a `.` has no extension |
| JsNumber.Add | src/functions/lib/repository.ts:12 | `+` is exact on finite numbers and NaN exactly when an operand is NaN or the infinities cancel |
| JsNumber.Mul | src/functions/lib/repository.ts:9 | `*` is exact on finite numbers and NaN exactly when an operand is NaN or an infinity meets zero |
| JsNumber.ToNumber | src/functions/api.ts:18 | `Number(undefined)` is NaN and `Number("")` is 0 |
| JsNumber.NatToStringToNumber | src/functions/api.ts:18 | `Number` reads back the decimal rendering of every natural number |
| JsNumber.IntToStringToNumber | src/functions/api.ts:18 | `Number` reads back the decimal rendering of every integer, negative ones included |
| JsNumber.LettersAreNaN | src/functions/api.ts:18-20 | a lower-case word without `e` converts to NaN |
| JsNumber.Truncate | src/functions/lib/repository.ts:12 | truncation toward zero stays within one of the real it truncates |
| JsNumber.SliceIndex | src/functions/lib/repository.ts:12 | a `slice` bound becomes an index between 0 and the length |
| JsNumber.Slice | src/functions/lib/repository.ts:12 | `slice` never returns more elements than the list has |
| JsNumber.SliceNat | src/functions/lib/repository.ts:12 | with natural bounds, `slice` takes the elements between them, clipped to the length |
| Seqs.Filter | tools/convert/lib/submissions.ts:24 | `filter` keeps only elements that pass and never lengthens the list |
| Seqs.FilterMembership | tools/convert/lib/submissions.ts:140 | an element is in the filtered list exactly when it is in the list and passes |
| Seqs.FilterConcat | tools/convert/lib/submissions.ts:24 | filtering distributes over concatenation, so relative order is kept |
| Seqs.FilterIdempotent | tools/convert/lib/submissions.ts:24 | filtering twice by one test is filtering once |
| Seqs.FilterAll | tools/convert/lib/submissions.ts:24 | a filter keeps the whole list exactly when every element passes |
| Seqs.FilterNoDuplicates | tools/convert/submissions.ts:94 | a filter of a list without duplicates has none |
| Seqs.FilterOrder | tools/convert/submissions.ts:94 | what a filter keeps from a list without duplicates comes in that list's order |
| Seqs.Dedup | tools/convert/lib/submissions.ts:169 | deduplication never lengthens the list |
| Seqs.DedupMembership | tools/convert/lib/submissions.ts:169 | deduplication keeps every element and adds none |
| Seqs.DedupNoDuplicates | tools/convert/lib/submissions.ts:169 | the deduplicated list has no duplicates |
| Seqs.DedupPrefix | tools/convert/lib/submissions.ts:169 | elements are kept at their first occurrence: appending never reorders what was kept |
| Seqs.DedupOfDistinct | tools/convert/lib/submissions.ts:169 | a list without duplicates is its own deduplication |
| Seqs.DedupConcat | tools/convert/lib/submissions.ts:169 | deduplicating `a + b` keeps `a` deduplicated and then what of `b` is new, in order |
| Records.Underscore | tools/convert/lib/submissions.ts:18 | `split(/\s/).join('_')` replaces each white-space character by `_`, keeping the length |
| Records.NormaliseColumn | tools/convert/lib/submissions.ts:18 | a normalised column name is lower-case, has no white space and is no longer than the original |
| Records.NormaliseColumnIdempotent | tools/convert/lib/submissions.ts:18 | normalising a normalised column name changes nothing |
| Records.NormalisedKeeps | tools/convert/lib/submissions.ts:18 | a lower-case name without white space is its own normal form |
| Records.RowKeys | tools/convert/lib/submissions.ts:16-19 | a row's keys are exactly the column names |
| Records.Columns | tools/convert/lib/submissions.ts:16-19 | every header name is normalised, in header order |
| Records.RowsShape | tools/convert/submissions.ts:13-25 | the parser yields one row per record in file order, and rejects the file when some record's length differs from the header's |
| Records.RowColumns | tools/convert/lib/submissions.ts:16-19 | every column of a row is some header name normalised, so it is lower-case and free of white space |
| Records.RawSubmission.constructor | tools/convert/submissions.ts:121-156 | a fresh submission holds its CSV row and no pipeline field |
| Records.AspectRatio | tools/convert/lib/submissions.ts:115 | the ratio exists exactly when width and height are both truthy, and then ratio × height = width |
| Records.BaseNameOrNull | tools/convert/lib/submissions.ts:128-129 | a base name exactly when the path is set, and it has no `/` |
| Records.Record | tools/convert/lib/submissions.ts:117-130 | the persisted record copies the descriptive columns, dimensions and colour, has the ratio, and names the file and thumbnail by base name exactly when they are set |
| Files.Moved | tools/convert/files.ts:117-120 | a move puts the file at the target, removes the source, and leaves every other path as it was |
| Files.NormalisedShape | tools/convert/files.ts:38-49 | trimmed and lower-cased, `.jpeg` and `.jpg` become `.jpg` and nothing else does; the result is lower-case, has no white space at its ends and is never `.jpeg` |
| Files.NormaliseExtensionIdempotent | tools/convert/files.ts:38-49 | normalising a normalised extension changes nothing |
| Files.NormaliseJpg | tools/convert/files.ts:41-44 | `.jpg` is already normal |
| Files.NormaliseKeeps | tools/convert/files.ts:38-49 | a lower-case, trimmed extension other than `.jpg`/`.jpeg` normalises to itself |
| Files.LowerTrimEnds | tools/convert/files.ts:39 | a trimmed, lower-cased extension has no white space at either end |
| Files.LowerTrimKeeps | tools/convert/files.ts:39 | a lower-case extension without white space at its ends is unchanged by `trim` and `toLowerCase` |
| Files.DottedImageExtension | tools/convert/files.ts:314-325 | dropping the dot and looking up the bare list is looking the dotted extension up in the dotted list |
| Files.IsImageByExtension | tools/convert/files.ts:314-325 | a path is an image exactly when its extension is `.jpg`, `.jpeg`, `.png`, `.gif` or `.tif` |
| Files.IsImageOfResolved | tools/convert/files.ts:314-325 | `dir/stem.e` is an image exactly when `e` is one of the image extensions, compared case-sensitively |
| Files.ExtNameOfResolved | tools/convert/files.ts:316 | a file `stem.e` in any directory has extension `.e` |
| Files.LowerJpgIsImage | tools/convert/files.ts:318-319 | a `.jpg` file is an image |
| Files.UpperJpgIsNotImage | tools/convert/files.ts:314-325 | a `.JPG` file is not an image: the test is case-sensitive |
| Files.UpperNotImageExtension | tools/convert/files.ts:318-324 | no image extension starts with a capital letter |
| Files.DottedImageExtensions | tools/convert/files.ts:318-324 | the dotted image extensions are `.jpg`, `.jpeg`, `.png`, `.gif` and `.tif` |
| Files.AcquisitionOrder | tools/convert/files.ts:51-75 | a missing URL wins over everything and an override over the cache, and the network is used exactly when there is neither an override nor a cached file larger than 5 KiB |
| Files.MissingUrlTouchesNothing | tools/convert/files.ts:54-56 | without a URL the decision depends on neither the overrides nor the file system |
| Files.DownloadThenCacheHit | tools/convert/files.ts:70-73 | after a download of more than 5 KiB, the next run takes the cached file |
| Files.RejectedRequestRefetches | tools/convert/files.ts:75-84 | a request that throws before it is sent rejects with its message and leaves an empty file, so the next run fetches again |
| Files.DownloadedOutcome | tools/convert/files.ts:51-103 | an override or a cached file always resolves to its path without touching the file system; a fetch resolves exactly when the network answered, and then the file is stored; a transport error removes it, and a request that throws before it is sent leaves it empty; no other path changes |
| Files.ReplaceAfterDirectory | tools/convert/files.ts:114 | in `root/pat…`, with `pat` free of `/` and absent from `root`, `replace` hits the `pat` after `root/` |
| Files.OverridePathOfOriginal | tools/convert/files.ts:148 | replacing the first `original` of a path under the originals directory gives the same name under `overrides` |
| Files.ReplaceTrailingExtension | tools/convert/files.ts:143 | removing a trailing extension that occurs nowhere earlier leaves the rest of the path |
| Files.RenameShape | tools/convert/files.ts:143-146 | the renamed path is `dir/stem.ext`, and equals the old path exactly when the extension already was `.ext` |
| Files.RenameTargetLayout | tools/convert/files.ts:143-146 | for a resolved file, renaming replaces the extension by `.ext`, a no-op exactly when it already was `.ext` |
| Files.PathIsPrefixAndExtension | tools/convert/files.ts:143 | a resolved file is its directory and stem followed by its extension |
| Files.CorrectedPathLayout | tools/convert/files.ts:143-148 | type correction of `original/name` yields `overrides/<stem>.<ext>`, and leaves the path alone exactly when the extension already fits |
| Files.PdfConvertedOutcome | tools/convert/files.ts:105-130 | a written page is moved to the overrides path and kept with its size; a failed conversion, or a page that was neither written nor present, hands the PDF's path back with no file changed |
| Files.CorrectedOutcome | tools/convert/files.ts:132-170 | a mime is reported only for a detection, and then it is the detected one; without one, nothing changes; a kept detection or a fitting name keeps the path; a moved file takes its contents to the new path |
| Files.ThumbDestinationShape | tools/convert/files.ts:181-185 | every thumbnail is a `.jpg` named after its source's stem |
| Files.SourceOf | tools/convert/files.ts:181-214 | what a resize takes from its source: its path, its stem, the JPEG quality as written and the missing-image entry a failure records |
| Files.ResizedOutcome | tools/convert/files.ts:185-217 | an existing thumbnail is returned and nothing is requested; otherwise the render is requested and either stores the thumbnail and resolves to the stem, or records one missing image and rejects with the render's message; no file is removed |
| Files.GifGuard | tools/convert/files.ts:197-198 | the guard as written re-encodes a `.gif`; the intended guard does not |
| Files.GuardAsWrittenAlwaysHolds | tools/convert/files.ts:198 | as written, the guard holds for every file that has an extension |
| Files.IntendedGuard | tools/convert/files.ts:197 | the intended guard re-encodes `stem.e` exactly when `e` is not `gif` |
| Files.RequestAsWritten | tools/convert/files.ts:191-202 | the render asks for the source, the destination and the box, and for JPEG at the given quality exactly when the guard as written holds |
| Files.IntendedRequest | tools/convert/files.ts:197-202 | with the intended guard, JPEG is asked for exactly when the file is not a `.gif` |
| Files.GifRequest | tools/convert/files.ts:197-202 | for `dir/stem.e` the request as written always asks for JPEG; the intended one does so exactly when `e` is not `gif` |
| Files.DimensionDiagnostics | tools/convert/files.ts:266-298 | a missing file or a non-image adds exactly one entry, with its reason and extension (none for a missing file), and a probeable file adds none |
| Files.ProbeDiagnostics | tools/convert/files.ts:220-243 | the pool records at most one entry per submission |
| Files.ProbeDiagnosticsNext | tools/convert/files.ts:226-242 | one more submission appends its own entries after those of the earlier ones |
| Files.DimensionErrors | tools/convert/files.ts:266-287 | a missing file or a non-image pushes exactly one error message, naming the file or the extension; a probeable file pushes none |
| Files.ProbeErrors | tools/convert/files.ts:226-242 | the pool pushes one error message per recorded missing-image entry |
| Files.ProbeErrorsNext | tools/convert/files.ts:226-242 | one more submission appends its own error messages after those of the earlier ones |
| Files.ProbeOnlyStoredImages | tools/convert/files.ts:263-300 | only a stored image is probed; an entry is recorded exactly when the file is absent or not an image, naming the extension of a non-image |
| Files.Workspace.constructor | tools/convert/files.ts:19-24 | the run starts with the given file system and empty `errors` and `missingImages` |
| Files.Workspace.DownloadFile | tools/convert/files.ts:51-103 | resolves to the chosen source, and only a fresh download changes the file system: it writes the file, removes it on a transport error, or leaves it empty when the request throws before it is sent |
| Files.Workspace.ConvertPdf | tools/convert/files.ts:105-130 | the page the converter writes is stored first; a page present afterwards is moved to the overrides path with the page's extension and returned; otherwise the PDF's own path is returned and nothing changes |
| Files.Workspace.CorrectFileType | tools/convert/files.ts:132-170 | a kept detection or a fitting name keeps the path with the mime; otherwise the file moves to `overrides/<stem>.<ext>`, and when it is absent the failed rename is caught; no detection or a caught failure keeps the path with a null mime |
| Files.Workspace.ResizeImage | tools/convert/files.ts:172-218 | an existing thumbnail is returned as is; otherwise the render is requested as line 198 is written (JPEG for every file with an extension, gifs included), a success stores it and resolves to the stem, and a failure records one missing image and rejects; no file is ever removed |
| Files.Workspace.FetchDimensions | tools/convert/files.ts:263-312 | a missing file, then a non-image, each add one entry and one error and reject; otherwise the probe decides |
| Files.Workspace.ProbeOne | tools/convert/files.ts:228-241 | a successful probe sets both dimensions and a failure leaves them, and the check's missing-image entries and error messages are recorded |
| Files.Workspace.ProbeLogged | tools/convert/files.ts:228-241 | one submission's check appends its entries and its error messages, and its dimensions take the probe's outcome |
| Files.Workspace.ProbeImageDimensions | tools/convert/files.ts:220-243 | every submission comes back; each has its probed dimensions or keeps its old ones; earlier entries and error messages stay, and the new ones are those of the failed checks |
| Files.Workspace.ProbeAll | tools/convert/files.ts:226-242 | after the pool every submission carries its outcome, and the missing-image entries and the error messages are recorded in list order |
| Files.Workspace.ProbeStep | tools/convert/files.ts:228-240 | probing one submission changes its dimensions only, and appends its entries and its error messages |
| Files.StoreDimensions | tools/convert/files.ts:234-235 | a successful probe sets both dimensions, and a failed one leaves them |
| SubmissionsLib.ParseKeepsIdentified | tools/convert/lib/submissions.ts:10-30 | `parse` keeps exactly the rows with a truthy id, rejects when the parser does, and a second filter changes nothing |
| SubmissionsLib.ParseKeepsOrder | tools/convert/lib/submissions.ts:24 | the id filter keeps rows in file order |
| SubmissionsLib.Triggered | tools/convert/lib/submissions.ts:143-166 | a destination is pushed exactly when some rule's source is among the raw categories |
| SubmissionsLib.TriggeredInRuleOrder | tools/convert/lib/submissions.ts:143-166 | the triggered destinations are those of the rules whose source is present, in rule order |
| SubmissionsLib.CoerceCategories | tools/convert/lib/submissions.ts:138-170 | the loop over the pairs computes the kept categories, then the triggered destinations, deduplicated |
| SubmissionsLib.CoercedContents | tools/convert/lib/submissions.ts:138-170 | the result has no duplicates and holds exactly the canonical inputs and the destinations of the triggered rules |
| SubmissionsLib.CoercedOrder | tools/convert/lib/submissions.ts:140-169 | the canonical inputs come first, in input order |
| SubmissionsLib.CoercedEmpty | tools/convert/lib/submissions.ts:138-170 | no raw categories give no categories |
| SubmissionsLib.NothingTriggered | tools/convert/lib/submissions.ts:160-166 | rules whose sources are all absent push nothing |
| SubmissionsLib.ArchitectureAndTheatre | tools/convert/lib/submissions.ts:143-145 | `architecture` and `theatre` together give the single category `architecture_and_set_design` |
| SubmissionsLib.NoneKept | tools/convert/lib/submissions.ts:140 | raw categories none of which is canonical keep nothing |
| SubmissionsLib.ArchitectureAndTheatreTriggered | tools/convert/lib/submissions.ts:143-166 | on `architecture` and `theatre`, every triggered destination is `architecture_and_set_design` |
| SubmissionsLib.DedupConstant | tools/convert/lib/submissions.ts:169 | a repeated element deduplicates to one |
| SubmissionsLib.Persist | tools/convert/lib/submissions.ts:105-136 | one record per submission, in order, with the coerced flagged raw keys as categories |
| SubmissionsLib.PersistCategories | tools/convert/lib/submissions.ts:111 | a record's categories never repeat and hold the flagged canonical keys and the destinations of the flagged raw keys |
| SubmissionsLib.FirstRejected | tools/convert/lib/submissions.ts:62-66 | the awaited resizes stop at the first rejection: all before it succeeded |
| SubmissionsLib.Reached | tools/convert/lib/submissions.ts:46-52 | download, then PDF conversion for a `.pdf`, then type correction: the first rejection wins |
| SubmissionsLib.ImageStage | tools/convert/lib/submissions.ts:61-76 | at least one resize is started; a message is thrown exactly when some resize rejects; colour and thumbnail are stored exactly when all resizes and the palette succeed |
| SubmissionsLib.ResizesOnlyImages | tools/convert/lib/submissions.ts:58-62 | resizes are started exactly when a non-empty image path was stored |
| SubmissionsLib.EarlyRejectionStoresNothing | tools/convert/lib/submissions.ts:45-56 | a rejection before type correction stores nothing on the submission |
| SubmissionsLib.StyledOnlyAfterEveryStage | tools/convert/lib/submissions.ts:61-76 | colour and thumbnail are stored exactly after an image path, all four resizes and the palette, and are the palette's colour and the 400 px result |
| SubmissionsLib.FirstRejectedAt | tools/convert/lib/submissions.ts:62-66 | the first rejection is the one that only successes precede |
| SubmissionsLib.FirstRejectedAll | tools/convert/lib/submissions.ts:62-66 | no rejection exactly when every resize succeeded |
| SubmissionsLib.PaletteFailureIsContained | tools/convert/lib/submissions.ts:68-76 | once every resize succeeded, a palette failure is caught and nothing reaches the outer catch |
| SubmissionsLib.Store | tools/convert/lib/submissions.ts:45-78 | the `try` block stores mime, path, colour and thumbnail as the stages decide, and passes on the thrown message |
| SubmissionsLib.Thumbnails | tools/convert/lib/submissions.ts:61-76 | the image branch throws the first rejection or stores the colour and the compressed thumbnail |
| SubmissionsLib.DownloadItem | tools/convert/lib/submissions.ts:40-94 | the submission's fields are set by the stages; the file system is the one the stages leave, from which a corruption message deletes the stored file and hands the submission back; the deletion throws, and the submission is not handed back, when no such file is stored |
| Submissions.ParseKeepsEveryRow | tools/convert/submissions.ts:10-30 | the older `parse` keeps every record, rows without an id included, in file order |
| Submissions.Persist | tools/convert/submissions.ts:88-119 | one record per submission, in order, with the flagged category keys as categories |
| Submissions.CategoryKeysDistinct | tools/convert/categories.ts:5-29 | the category keys are distinct |
| Submissions.PersistCategories | tools/convert/submissions.ts:94 | a record's categories are exactly its flagged keys, each once, in table order |
| Submissions.UnflaggedHasNoCategories | tools/convert/submissions.ts:94 | a submission without flags has no categories |
| Submissions.DownloadOne | tools/convert/submissions.ts:40-77 | mime and path are stored exactly after a successful download; thumbnails only for a stored image path, stopping at the first rejected resize; colour and thumbnail only when every resize and the palette succeed; the file system and the missing images are those the acquisition and the run of resizes produce |
| Submissions.Acquire | tools/convert/submissions.ts:44-56 | a successful download leads to type correction, whose mime is stored always and whose path only when not empty; outcome and file system are those of download, conversion and correction in turn |
| Submissions.Locate | tools/convert/submissions.ts:44-48 | the download's path, converted first when it is a PDF; outcome and file system are those of the two stages in turn |
| Submissions.Illustrate | tools/convert/submissions.ts:55-70 | the image branch runs exactly for a non-empty image path, and its thumbnails, files and missing images are then those of the run of resizes; otherwise nothing changes |
| Submissions.ImageBranch | tools/convert/submissions.ts:59-69 | the resizes are the run over the four sizes: they stop at the first rejection, which alone records a missing image, and every thumbnail before it is stored; colour and thumbnail are stored exactly when all succeed and the palette does |
| Submissions.Thumbnail | tools/convert/submissions.ts:59-63 | one resize to the size's destination: its result, files and recorded entry are those of one resize step |
| Submissions.Thumbnails | tools/convert/submissions.ts:59-63 | the awaited resizes, in size order, are exactly the run of resize steps, which stops at the first rejection |
| Submissions.LocatedOutcome | tools/convert/submissions.ts:44-48 | a path is located exactly when the download resolved, and a non-PDF download is located as is |
| Submissions.AcquiredOutcome | tools/convert/submissions.ts:44-53 | correction happens exactly when the download resolved, and its mime is the detected one |
| Submissions.Correct | tools/convert/submissions.ts:50-57 | nothing changes without a located path; otherwise mime, path and file system are those of type correction, and an empty path is not stored |
| Submissions.NoUrlAcquiresNothing | tools/convert/submissions.ts:44 | without an image URL the download rejects, nothing is corrected and no file changes |
| Submissions.FailedFetchAcquiresNothing | tools/convert/submissions.ts:44 | a failed fetch rejects with the transport error, removes the partly written file and changes nothing else |
| Submissions.PdfPageHandedOn | tools/convert/submissions.ts:46-50 | a downloaded PDF whose page was written is replaced, for type correction, by that page moved under `overrides` |
| Submissions.ThumbDestinations | tools/convert/submissions.ts:59-63 | one destination per size |
| Submissions.ThumbDestinationsAt | tools/convert/submissions.ts:59-63 | the `k`-th destination is the thumbnail path for the `k`-th size |
| Submissions.ResizeRun | tools/convert/submissions.ts:59-63 | the run yields at least one and at most one result per remaining size |
| Submissions.RunHead | tools/convert/submissions.ts:59-63 | a rejected first resize ends the run; a resolved one is followed by the run over the rest |
| Submissions.RunStep | tools/convert/submissions.ts:59-63 | appending one step's result to what came before keeps the results, files and entries on course for the whole run, and a rejection ends it there |
| Submissions.RunResults | tools/convert/submissions.ts:59-63 | every result but the last resolved, and a run shorter than the sizes ends with a rejection |
| Submissions.RunStores | tools/convert/submissions.ts:59-63 | the destination of every resolved resize is in the file system after the run |
| Submissions.RunRecords | tools/convert/submissions.ts:59-63 | a run ending in success records nothing; one ending in a rejection records exactly that one missing image |
| Submissions.RunKeepsFiles | tools/convert/submissions.ts:59-63 | the run removes no file |
| Submissions.RunShape | tools/convert/submissions.ts:59-63 | the run from the first size takes the shape of the thumbnail stage: successes, then possibly one rejection, with stored thumbnails and at most one recorded entry |
| Submissions.AllRenderedLength | tools/convert/submissions.ts:59-63 | when every render succeeds, every size is resized |
| Submissions.AllRendered | tools/convert/submissions.ts:59-63 | when every render succeeds, every resize resolves and nothing is recorded |
| Submissions.AllRenderedStored | tools/convert/submissions.ts:59-63 | when every render succeeds, every thumbnail is stored |
| Submissions.FirstFailedRender | tools/convert/submissions.ts:59-63 | the first failed render of a thumbnail not yet stored ends the run with its message and its one missing image |
| Submissions.RenderedBeforeFailure | tools/convert/submissions.ts:59-63 | the same when successes precede the failed render |
| Repository.GetCategories | src/functions/lib/repository.ts:31-35 | the category table as stored |
| Repository.PageMeta | src/functions/lib/repository.ts:5-29 | meta holds the page, `start = (page - 1) × 50` and `finish = start + 50`; a NaN or infinite page has no data |
| Repository.WholePage | src/functions/lib/repository.ts:9-12 | whole page `n ≥ 1` serves submissions `(n - 1) × 50` up to `n × 50`, clipped, and nothing past the end |
| Repository.PagesAdjacent | src/functions/lib/repository.ts:9-12 | pages `n` and `n + 1` are adjacent stretches that do not overlap |
| Repository.ConcatenatedChunks | src/functions/lib/repository.ts:9-12 | pages that are consecutive runs of fifty concatenate to a prefix of the list |
| Repository.FirstPagesPrefix | src/functions/lib/repository.ts:9-12 | pages 1 to `k` together are the first `50 k` submissions |
| Repository.PagesCoverAll | src/functions/lib/repository.ts:3-12 | reading the pages up to the last one with data yields every submission exactly once, in order |
| Repository.AtMostOneChunk | src/functions/lib/repository.ts:12 | no page number serves more than fifty submissions |
| Repository.SliceIndexSpan | src/functions/lib/repository.ts:12 | the `slice` bounds `x` and `x + 50` are never more than fifty apart |
| Repository.PageZero | src/functions/lib/repository.ts:9-12 | page 0 serves nothing, and its meta starts at -50 |
| Repository.NegativePage | src/functions/lib/repository.ts:9-12 | page `-n` serves the fifty submissions that end `50 n` before the end of the list |
| Api.Respond | src/functions/api.ts:50-59 | status 200, the given body and the caching headers |
| Api.Segments | src/functions/api.ts:7-9 | the path splits into at least one segment |
| Api.ResponseShape | src/functions/api.ts:11-59 | every response has the standard headers, and its status is 200 with data, `'422'` with `missing_page` or `'404'` with `not_found` |
| Api.DispatchBySegments | src/functions/api.ts:11-36 | the response depends on the first segment only, and for `submissions` also on the second |
| Api.StripPrefix | src/functions/api.ts:7 | the prefix is removed from a path that starts with it |
| Api.FirstSegment | src/functions/api.ts:7-9 | the segment after the prefix comes first, and what follows `/` splits on |
| Api.TwoSegments | src/functions/api.ts:9 | `segment/page` without further `/` gives two segments |
| Api.OneSegment | src/functions/api.ts:9 | a segment without `/` gives one segment |
| Api.PageSegments | src/functions/api.ts:9 | `submissions/<page>` gives the two segments |
| Api.CategoriesRoute | src/functions/api.ts:12-13 | `categories`, with any segments after it, answers with the category table |
| Api.SubmissionsBranch | src/functions/api.ts:15-34 | after `submissions`, a NaN page is refused with 422 and any other number is served |
| Api.SubmissionsRoute | src/functions/api.ts:15-34 | `submissions/<n>` serves page `n`, which for `n ≥ 1` is the `n`-th run of fifty |
| Api.MissingPageRoute | src/functions/api.ts:18-31 | `submissions` without a page is refused with `missing_page` |
| Api.WordPageRoute | src/functions/api.ts:18-31 | a page segment that is a lower-case word without `e` is refused with `missing_page` |
| Api.TrailingSlashRoute | src/functions/api.ts:18-34 | `submissions/` is page 0: status 200 with no data |
| Api.UnprefixedPath | src/functions/api.ts:38-47 | a path without the prefix that starts with `/` is not found |
| MissingImagesCsv.Fields | tools/convert/json.ts:61 | an entry has five fields |
| MissingImagesCsv.QuoteAll | tools/convert/json.ts:61 | every field is wrapped in double quotes, in order |
| MissingImagesCsv.Lines | tools/convert/json.ts:60-61 | one line per entry, in recorded order |
| MissingImagesCsv.DecodeLine | tools/convert/json.ts:61 | reading a line back takes every second piece between quotes |
| MissingImagesCsv.DecodeReport | tools/convert/json.ts:60-62 | reading a report back decodes each newline-separated line |
| MissingImagesCsv.Pieces | tools/convert/json.ts:61 | the pieces of quoted, comma-joined fields are the fields with a comma between each two |
| MissingImagesCsv.SplitQuotedFields | tools/convert/json.ts:61 | a line starts with a quote, and the rest splits at quotes into the fields and commas |
| MissingImagesCsv.SplitJoined | tools/convert/json.ts:61 | a line splits at quotes into an empty piece, the fields and commas, and an empty piece |
| MissingImagesCsv.SplitLine | tools/convert/json.ts:61 | the line of a plain entry splits into its fields and commas |
| MissingImagesCsv.LineRoundTrip | tools/convert/json.ts:61 | the line of an entry without quotes or newlines in its fields reads back as those fields |
| MissingImagesCsv.LineHasNoNewline | tools/convert/json.ts:61 | such a line has no newline |
| MissingImagesCsv.ReportRoundTrip | tools/convert/json.ts:58-63 | a report of such entries reads back as their fields, one line per entry, in recorded order |
| MissingImagesCsv.EmptyReport | tools/convert/json.ts:60-62 | no entries give an empty file |
| MissingImagesCsv.NullExtensionLine | tools/convert/json.ts:61 | the null extension of a missing file is written as `null` |
| MissingImagesCsv.SplitPieces | tools/convert/json.ts:61 | splitting at a character yields one piece more than it occurs |
| MissingImagesCsv.QuotesInJoin | tools/convert/json.ts:61 | a line holds two quotes per field besides those inside the fields |
| MissingImagesCsv.QuoteBreaksLine | tools/convert/json.ts:61 | a quote inside a field is not escaped, so the line reads back as more than five fields and the entry is lost |

## Left out

- The network, `glob`, `file-type`, `pdf-image`, `sharp`, `probe-image-size` and `node-vibrant` are not modelled. Their answers are arguments of the operations that call them.
- Console logging and the progress counters are left out.
- Directory creation (files.ts:26-36 and 175-179) is not modelled: the file system holds files only.
- `compressFiles` (files.ts:245-261) is a call into `imagemin` that changes file contents only, so it is not modelled.
- `path.resolve` is modelled as joining with `/`. It does not normalise `.` or `..` and assumes an absolute directory.
- `toLowerCase` is modelled for ASCII letters only.
- csv-parse with `cast: true` is modelled as text or integer cells. Fractional and date casts, quoting rules and `skip_empty_lines` are not modelled.
- Finite numbers are exact reals, so double-precision rounding is not modelled. `-0` is not distinguished from `0`, and numeric separators are not accepted.
- `JSON.stringify` of the bodies and of `submissions.json` is not modelled: the bodies are Dafny values.
- The CDN caching behind the `Cache-Control` header is not modelled.
- `downloadFiles` and `probeImageDimensions` run up to ten submissions at a time in a `PromisePool`. The model runs them one after another, in list order.
- Files.Workspace.ProbeImageDimensions: compares the new missing-images entries and error messages with the expected ones as multisets, because the pool may finish in any order. It requires the submissions to be distinct objects.
- Files.Workspace.ProbeImageDimensions: states each submission's outcome in terms of its path and the file system on entry. Its `modifies` clause keeps both unchanged.
- SubmissionsLib.DownloadItem: the newer pipeline imports `lib/files.ts` and `lib/categories.ts`, which are not part of this model. Its stages' results and the file system they leave are arguments, and the two category key lists are parameters.
- The rest of `json.ts` is not part of this model: category creation, copying the database, and the error log.
- `database.ts`, `categories.ts` (beyond its key list) and the front-end files are not part of this model.
- JsNumber.LettersAreNaN: covers lower-case words without `e` only, not every string that `Number` rejects.
- MissingImagesCsv.ReportRoundTrip: holds only for entries whose fields contain no double quote and no newline, because the writer escapes nothing. QuoteBreaksLine shows the failure.
- The newer pipeline's `isImage` comes from `lib/files.ts`, which is not part of this model; the model uses Files.IsImage from `files.ts` in its place.
- Submissions.DownloadOne: the promise the pool collects is left out. Every rejection is caught and logged, and the submission is always handed back.

## Findings

| source | as written | input that shows it | evidently intended | confidence | as-written member | corrected member |
|---|---|---|---|---|---|---|
| tools/convert/files.ts:197-198 | the "don't convert gifs" guard compares `path.basename(filePath)` with `gif`, which holds for every file with an extension | `/x/thumbs/a.gif`: its base name `a.gif` is not `gif`, so the gif is re-encoded as JPEG | compare the extension with `.gif`, so that gifs are resized but not re-encoded | not executed | Files.TranscodeGuardAsWritten and Files.RequestAsWritten, used by Files.Workspace.ResizeImage and shown by Files.GifGuard, Files.GuardAsWrittenAlwaysHolds and Files.GifRequest | Files.TranscodesToJpeg and Files.IntendedRequest, proved by Files.IntendedGuard and Files.GifRequest |
