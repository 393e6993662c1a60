# DLoopDetector demo: corpus reconciliation and detection bookkeeping

This project models the sequential core of the DLoopDetector demo driver
(`demoDetector::run` and the free functions beside it in
`demo/demoDetector.h`):

- the directory enumerators `storeImages` and `storeDescFeat`, which keep an
  entry when the lower-cased text after its last `.` equals an accepted
  extension;
- `readFileList`, which splits the image manifest into whitespace tokens;
- `readDescFromBinFile`, a count header followed by `128 * count` values,
  and the reshape of that flat vector into 128-value descriptors;
- the reconciliation in `run`: the `.desc`/`.feat` cardinality checks, the
  manifest-size warning, and the mapping from each manifest entry to the
  first `.desc` name with the same base name;
- the query loop: the dispatch over the detector's status, the loop counter
  and the closing summary.

Modules follow the source's structure: `FileNames` (string surgery on
names), `Enumerator`, `FileList`, `Descriptors`, `Reconciler`, `Detection`
and `Demo` (the run itself). `Outcomes` holds the `Option`/`Result` types.

The file system is an input. A directory listing is `Option<seq<string>>`
(`None` when `opendir` fails). The manifest is `Option<string>` (`None` when
the file cannot be opened). Descriptor files are a function from path to
`DescFile`. The loop detector is an oracle: `oracle(i)` is the
`DetectionResult` that `detectLoopDB` gives for query image `i`. Descriptor
values (32-bit floats) are a type parameter and are only copied.

Two defects in the mapping loop are modelled as written in
`Reconciler.ScanAsWritten`, and the rest of the model uses the intended
semantics (see Findings). The loop is meant to scan `j` over the `.desc`
names and stop at the first one whose own base name matches. The same holds
for a short descriptor file: `Descriptors.ReadDescAsWritten` is the source's
read, and `Descriptors.DecodeDescriptors` is the checked decoder used by
`Demo.Run`.

## Model

| member | source | states |
|---|---|---|
| `FileNames.FindLastOf` | demo/demoDetector.h:146 | The result is absent iff the character does not occur. Otherwise it is a position holding the character with none after it. |
| `FileNames.Extension` | demo/demoDetector.h:146 | The extension is the longest dot-free suffix of the name. It is the whole name when there is no dot, because npos + 1 wraps to 0. |
| `FileNames.BaseName` | demo/demoDetector.h:333 | The base name is the prefix before the last dot. It is the whole name exactly when the name has no dot. |
| `FileNames.SplitAtLastDot` | demo/demoDetector.h:333 | A dotted name equals base name + "." + extension. An undotted name is its own base name and its own extension. |
| `FileNames.ToLower` | demo/demoDetector.h:147-151 | Each character is lower-cased in place and the length is kept. |
| `Enumerator.StoreNames` | demo/demoDetector.h:270-287 | The readdir loop leaves an unreadable directory's `names` unchanged. Otherwise it appends, in enumeration order, one prefixed copy of each entry per accepted extension equal to its key. |
| `Enumerator.PushedIsSelected` | demo/demoDetector.h:280-286 | When the accepted extensions are distinct, the nested loops push exactly the entries whose key is accepted. |
| `Enumerator.SelectedMembership` | demo/demoDetector.h:145-157 | A name is kept iff it is the prefixed name of an entry whose key is among the accepted extensions. |
| `Enumerator.SelectedAppend` | demo/demoDetector.h:143-159 | Selection distributes over concatenation of listings, so kept names stay in enumeration order. |
| `Enumerator.StoreDescFeat` | demo/demoDetector.h:248-289 | Appends the bare `.desc` (or `.feat`) names whose lower-cased extension matches, in enumeration order. |
| `Enumerator.StoreImages` | demo/demoDetector.h:119-162 | Appends directory + name for `.desc` entries, or for `.png`/`.jpg` entries, in enumeration order. |
| `FileList.Tokenize` | demo/demoDetector.h:207-212 | Every token is non-empty and whitespace-free. The tokens concatenated equal the input with its whitespace removed. `TokenizeTakesWholeRun` and `TokenizeBlank` state that the tokens are whole whitespace-delimited runs. |
| `FileList.ReadFileList` | demo/demoDetector.h:194-217 | An unopenable file gives no names. Otherwise it gives non-empty, whitespace-free names that concatenate to the text without its whitespace. |
| `FileList.ReadJoinRoundTrip` | demo/demoDetector.h:207-212 | Reading back blank-separated tokens gives exactly those tokens. |
| `FileList.TokenizeBlank` | demo/demoDetector.h:209-212 | Text made only of whitespace yields no token. |
| `FileList.TokenizeSkipsBlank` | demo/demoDetector.h:209-212 | Leading whitespace is skipped and yields no token. |
| `FileList.TokenizeTakesWholeRun` | demo/demoDetector.h:209-212 | After optional whitespace, a whole run of non-whitespace ending at whitespace or at the end of the text is exactly one token, followed by the tokens of the rest. |
| `FileList.ReadLayoutRoundTrip` | demo/demoDetector.h:194-217 | Names separated by any non-empty whitespace (one per line, blanks, tabs), with optional leading and trailing whitespace, read back as exactly those names. |
| `Descriptors.ReadValuesAsWritten` | demo/demoDetector.h:180-185 | The loop yields exactly n values. Value k is the file's k-th value while the file lasts, and the stale value after that. |
| `Descriptors.ReadDescAsWritten` | demo/demoDetector.h:166-190 | The source's read always yields 128 * count values, and those the file holds are its values in order. |
| `Descriptors.ShortFileYieldsStaleValues` | demo/demoDetector.h:180-185 | A file declaring one descriptor with no values still yields 128 values, all stale. |
| `Descriptors.DecodeDescriptors` | demo/demoDetector.h:172-185 | Succeeds iff the file holds at least 128 * count values. It then returns exactly that many, as a prefix of the file's values. Otherwise it reports the truncation. |
| `Descriptors.DecodeAgreesOnCompleteFiles` | demo/demoDetector.h:180-185 | On files that are not short, the checked decoder returns what the source reads. |
| `Descriptors.Reshape` | demo/demoDetector.h:458-466 | Gives \|flat\| / 128 rows of 128 values, with row a, column b equal to flat[128a + b]. |
| `Descriptors.FlattenReshape` | demo/demoDetector.h:458-466 | Laying the rows out again gives the input minus its trailing partial chunk. |
| `Descriptors.ReshapeFlatten` | demo/demoDetector.h:458-466 | Reshaping 128-value descriptors laid end to end gives them back. |
| `Descriptors.EncodeDecodeRoundTrip` | demo/demoDetector.h:166-190 | Writing n descriptors and decoding them gives their values. Reshaping gives the n descriptors back. |
| `Reconciler.FirstMatch` | demo/demoDetector.h:333-344 | A returned index is the least `.desc` position whose base name equals the given one. Absent iff no `.desc` name has that base name. |
| `Reconciler.BuildMapping` | demo/demoDetector.h:329-351 | Success iff every manifest entry resolves. The mapping is then total and least-matching. Otherwise the error is the first unresolved entry. |
| `Reconciler.LeastMappingUnique` | demo/demoDetector.h:336-343 | At most one mapping satisfies the first-match contract. |
| `Reconciler.MappingInjective` | demo/demoDetector.h:329-344 | With distinct manifest base names, no two entries map to the same descriptor. |
| `Reconciler.TwoImageScenario` | demo/demoDetector.h:329-351 | Manifest img001.jpg, img002.jpg against img001.desc, img002.desc maps to [0, 1]. |
| `Reconciler.ScanAsWritten` | demo/demoDetector.h:336-344 | A hit is the first index from the start whose `.desc` name, cut at the last dot of `descNames[i]`, equals the base name. Without a hit, the scan reads index i when i is out of range, and otherwise the first index at or past the end. |
| `Reconciler.ScanOverrunsWithoutMatch` | demo/demoDetector.h:336 | With no candidate matching, the as-written scan reads one element past the `.desc` names instead of stopping. |
| `Reconciler.UnboundedScanExample` | demo/demoDetector.h:336 | For manifest x.jpg against y.desc, the bounded scan finds nothing, while the as-written scan reads index 1. |
| `Reconciler.OuterIndexCutExample` | demo/demoDetector.h:338 | For ab.desc, a.desc and entry a.jpg, the as-written scan picks ab.desc (base name "ab"). The intended scan picks a.desc. |
| `Detection.Classify` | demo/demoDetector.h:515-563 | The loop line is chosen iff the status is a detection. Each listed rejection reason gets its own line. Only an unlisted status falls to the silent default. The candidate printed is the result's match. |
| `Detection.ClassifySeparatesReasons` | demo/demoDetector.h:524-562 | Two different rejection reasons never produce the same line. |
| `Detection.CountDetections` | demo/demoDetector.h:515-520 | The count is at most the number of queries. It is 0 iff no answer is a detection, and equals the number of queries iff every answer is. |
| `Detection.ProcessQueries` | demo/demoDetector.h:488-576 | One line per query image, each the classification of that image's answer. The count is the number of detections. The "no loops" summary is chosen iff the count is 0. |
| `Detection.TwoQueryScenario` | demo/demoDetector.h:515-576 | Answers "no database results" then "loop with image 0" give one loop. |
| `Demo.LoadDatabase` | demo/demoDetector.h:449-467 | Succeeds iff every `.desc` file decodes. Entry i is then well-shaped rows that lay out to exactly file i's values. Otherwise it names a file that fails to decode. |
| `Demo.Reconcile` | demo/demoDetector.h:302-351 | No `.desc` names is fatal, and so is a `.desc`/`.feat` count mismatch. A manifest-size mismatch is only a warning. An entry without a same-base-name descriptor is fatal. Success carries the least mapping. |
| `Demo.Run` | demo/demoDetector.h:294-583 | A failed reconciliation stops the run before anything is loaded or queried. A finished run carries the reconciliation's mapping, the decoded database, one classified line per query image and the detection count. |

## Left out

- File and directory I/O (`opendir`, `readdir`, `closedir`, `fstream`) is replaced by input values. The `closedir(NULL)` call on an unreadable directory (demo/demoDetector.h:161) is not modelled.
- `readFeatFromFile` and `readPoseFile` are not modelled. They parse floating-point text. The keypoints go only into the detector's `m_image_keys` (demo/demoDetector.h:454). The poses read into `xs` and `ys` at demo/demoDetector.h:441-442 are never used again in `run`.
- The vocabulary and database loading, the detector construction with its parameters (`use_nss`, `alpha` 0.3, `k` 1, `GEOM_DI`, `di_levels`) and `detectLoopDB` are foreign code. The detector is an oracle from query position to result.
- The image read, the feature extraction functor and all of `demo/demo_sift.cpp` (SIFT, RootSIFT with `sqrt` and division) are floating-point and foreign code.
- The profiler's wall-clock timing and its mean times are not modelled. They are real elapsed time in floating point.
- The second `storeImages` call at demo/demoDetector.h:418-421 is not modelled. It fills `datanames`, which is never used afterwards.
- `Detection.Classify`: the message text is reduced to which line is chosen. The `alpha` and `k` values printed in two lines are not modelled.
- `Descriptors.DecodeDescriptors`: the header is taken as already decoded to a natural number. The 64-bit `size_t` width of `ndesc * 128` and the `int` loop counter overflowing past 2^31 values are not modelled. A missing file, where `ndesc` is never initialised, is not modelled either.
- `Detection.ProcessQueries`: the `int` counter is unbounded here. The model does not cover more than 2^31 - 1 detections.
- `FileNames.ToLower`: models `std::tolower` in the default "C" locale, where only 'A'..'Z' change. Other locales are not modelled.
- `Descriptors.ReadValuesAsWritten`: every failed read leaves `cur` indeterminate. The model gives all such values the one value `stale`, so it does not let them differ.
- `FileList.Tokenize`: whitespace is the "C" locale's `isspace` set (space, tab, newline, vertical tab, form feed, carriage return).
- `Enumerator.StoreNames`: the two directory enumerations in `run` are assumed to see the same listing. The model passes one listing to both.

The model follows the code on three points:

- An unreadable directory only prints a message and yields no names. The empty `.desc` list then stops the run.
- An unlisted detection status falls silently to the `default` branch, and is not an error.
- The manifest-size mismatch is reported and the run continues.

## Findings

| source | as written | input that shows it | evidently intended | confidence | as-written member | corrected member |
|---|---|---|---|---|---|---|
| demo/demoDetector.h:336 | `j < originNames.size(), !found` keeps only `!found`, so the scan runs until a hit | manifest ["x.jpg"], `.desc` names ["y.desc"]: `j` reaches 1 and `descNames[1]` is read past the end | scan `j` over the `.desc` names and report the entry as unresolved | high; not executed | `Reconciler.UnboundedScanExample` | `Reconciler.FirstMatch` |
| demo/demoDetector.h:338 | each candidate `descNames[j]` is cut at the last-dot position of `descNames[i]`, the outer index | `.desc` names ["ab.desc", "a.desc"], manifest entry 1 "a.jpg": "ab.desc" cut at 1 is "a", so entry 1 maps to "ab.desc" | cut each candidate at its own last dot | high; not executed | `Reconciler.OuterIndexCutExample` | `Reconciler.FirstMatch` |
| demo/demoDetector.h:180-185 | the read loop pushes `cur` even when the read fails past the end of the file | a file with header 1 and no values yields 128 values that are not in the file | reject a file shorter than its header declares | medium; not executed | `Descriptors.ShortFileYieldsStaleValues` | `Descriptors.DecodeDescriptors` |
