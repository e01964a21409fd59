# HEIC to JPEG conversion core

This project models the HEIC conversion helper of a photo-description application
(`heic_utils.py`). It has four parts:

- **Discovery** (`list_heic_to_convert`). Lists the `.heic`/`.heif` files of a working directory that have no
  `.jpg` or `.jpeg` counterpart yet, as a sorted list of path strings.
- **Batch** (`convert_heic_batch`, `_ensure_heif_registered`). An empty list of paths returns at once. Otherwise,
  once per call and before any file is touched, it registers the HEIF opener (once per process) and creates the
  backup folder. Then, for each source file in order, it backs up the source, converts it and optionally removes
  the original. A failure affects only its own file, and progress is reported after every file.
- **Per-file operations** (`_copy_to_backup`, `_convert_single`, `_remove_source_file`). These run over a
  volume of files and directories.
- **Quality search** (`_encode_with_target_size`). A binary search over JPEG quality 40..95 that looks for an
  encoding of at most 2,000,000 bytes. If no encoding fits, it falls back to quality 40. If the accepted encoding
  is below 1,000,000 bytes and its quality below 95, a linear pass probes the next quality up. That pass never
  accepts a new encoding: its first probe is always rejected, and the result is the accepted data labelled with
  the rejected quality `q + 1` (`QualitySearch.RefinementReturnsRejectedQuality`).

Modules, one per concern:

| file | module | models |
|---|---|---|
| wrappers.dfy | Wrappers | `Option`, `Result`, `Outcome` (pass, or the message of the exception raised) |
| codec.dfy | Codec | bytes, and the JPEG encoder as a function from quality to bytes |
| paths.dfy | Paths | `pathlib` paths: `str(p)`, `.suffix`, `.stem`, `.with_suffix`, lower-casing |
| ordering.dfy | Ordering | Python's string order and `list.sort` |
| quality_search.dfy | QualitySearch | `_encode_with_target_size` |
| file_store.dfy | FileStore | the volume, `mkdir`, `_copy_to_backup`, `_remove_source_file`, `write_bytes` |
| discovery.dfy | Discovery | `list_heic_to_convert` |
| registry.dfy | Registry | `_HEIF_REGISTERED` and `_ensure_heif_registered` |
| conversion.dfy | Conversion | `_convert_single` |
| batch.dfy | Batch | `ConversionResult`, `convert_heic_batch` |

Each imperative routine (the search loops, the directory scan, the batch loop, the stateful file system and
the registration flag) is a `method`. Its `ensures` ties the result and the new state to a specification
function: `Search`, `BackupStep`, `RemoveStep`, `ConvertStep`, `RunFiles` and the others. Lemmas then prove
what those functions mean.

The encoder is a parameter (`enc: int -> seq<bv8>`). So is the message of the exception that a filesystem call
or the decoder would raise, and whether each progress call raises (a boolean per call, since the exception
itself is swallowed).

The 2,000,000-byte target is not a guarantee. When even quality 40 is too large, the code returns that
encoding anyway, and the model follows the code: `QualitySearch.SearchBounds` and
`QualitySearch.EncodeWithTargetSize` say exactly "fits, or is the quality-40 fallback".

## Model

| member | source | states |
|---|---|---|
| QualitySearch.EncodeWithTargetSize | heic_utils.py:123-152 | The loops return exactly the specification `Search(enc)`. The quality is in [40, 95]. An encoding over 2,000,000 bytes is the quality-40 fallback. The binary search encodes at most 6 times. |
| QualitySearch.BinarySearchQuality | heic_utils.py:124-136 | The binary search loop ends with exactly the candidate of `Bisect`, after exactly `BisectProbes` encodes. |
| QualitySearch.RefineQuality | heic_utils.py:144-152 | The refinement loop, with its `break`, returns exactly `RefineFrom` from the accepted encoding. |
| QualitySearch.Bisect | heic_utils.py:128-136 | The binary search keeps the best it was given, or ends on a quality within the range searched whose encoding fits, paired with exactly that encoding. |
| QualitySearch.RefineFrom | heic_utils.py:144-152 | Starting past 95 returns the accepted encoding unchanged. Otherwise the quality returned is between the first probed quality and 95. Accepted data that fits stays fitting. |
| QualitySearch.Search | heic_utils.py:123-152 | The quality is in [40, 95]. The data is at most 2,000,000 bytes, or the result is the quality-40 encoding. |
| QualitySearch.BisectProbesBound | heic_utils.py:128-136 | A quality range of fewer than 2^k values is decided with at most k encodes. |
| QualitySearch.SearchProbesAtMostSix | heic_utils.py:124-136 | The search over [40, 95] calls the encoder at most 6 times. |
| QualitySearch.BisectFrontier | heic_utils.py:128-136 | For any encoder, the search ends on a frontier: the best quality fits and the next quality up does not. If nothing was accepted, quality 40 does not fit. |
| QualitySearch.RefineOutcome | heic_utils.py:144-152 | The linear pass keeps the last accepted encoding. It returns the first rejected quality on a break, and 95 when every higher quality fits. |
| QualitySearch.SearchBounds | heic_utils.py:138-152 | The returned quality is in [40, 95]. The result is over 2,000,000 bytes exactly when nothing fit, and then it is the quality-40 encoding. |
| QualitySearch.RefinementReturnsRejectedQuality | heic_utils.py:143-152 | When refinement runs (best below 1,000,000 bytes and below 95), its first probe is rejected. The pair returned is the accepted data with the rejected quality `q + 1`, so the quality does not describe the data. |
| QualitySearch.LargestFitting | heic_utils.py:128-136 | Reference definition: the largest quality in [40, q] whose encoding fits, or none. |
| QualitySearch.BisectFindsLargestFitting | heic_utils.py:128-136 | If size does not decrease with quality, the binary search finds exactly the largest fitting quality. If none exists, it finds nothing. |
| QualitySearch.SearchUnderMonotoneSizes | heic_utils.py:123-152 | If sizes do not decrease with quality, the result is fully determined: the fallback, the largest fitting encoding at its own quality, or that data paired with the next quality. |
| QualitySearch.SearchLandsInWindow | heic_utils.py:123-152 | If sizes do not decrease with quality and some quality's encoding lands in [1,000,000, 2,000,000], the result lands there too, at least at that quality, and its data is the encoding of its own quality. |
| Paths.PathStringInjective | heic_utils.py:46 | Two entries of one directory with the same `str()` are the same entry. |
| Paths.LastDot | heic_utils.py:40 | The position of the last '.' in a name, or -1. No dot follows it. |
| Paths.Suffix | heic_utils.py:40 | `.suffix` is non-empty exactly when the last '.' is neither the first nor the last character of the name; it is then the tail from that dot, without another dot. Otherwise it is empty. |
| Paths.WithSuffix | heic_utils.py:42-43 | `.with_suffix` fails exactly for an empty name, and it keeps the directory. |
| Paths.WithSuffixRoundTrip | heic_utils.py:42-43 | After `with_suffix(ext)` the suffix is `ext` and the stem is unchanged. |
| Ordering.LexLeTotal | heic_utils.py:47 | The string order is total. |
| Ordering.LexLeReflexive | heic_utils.py:47 | The string order is reflexive. |
| Ordering.LexLeTransitive | heic_utils.py:47 | The string order is transitive. |
| Ordering.LexLeAntisymmetric | heic_utils.py:47 | The string order is antisymmetric. |
| Ordering.ConsSorted | heic_utils.py:47 | Putting a lower bound in front of a sorted list keeps it sorted. |
| Ordering.BelowAll | heic_utils.py:47 | A lower bound of a list and of `x` is a lower bound of any rearrangement of that list with `x` added. |
| Ordering.SortedHeadLeast | heic_utils.py:47 | The head of a sorted list is at most each of its elements. |
| Ordering.SortedTail | heic_utils.py:47 | The tail of a sorted list is sorted and holds the same values minus the head. |
| Ordering.Insert | heic_utils.py:47 | Insertion into a sorted list stays sorted and adds exactly that element. |
| Ordering.InsertionSort | heic_utils.py:47 | `results.sort()` yields a sorted permutation of its input. |
| Ordering.SortedPermutationUnique | heic_utils.py:47 | Two sorted permutations of one list are equal, so the sorted result does not depend on the order of the directory listing. |
| FileStore.MakeDirsStep | heic_utils.py:71 | `mkdir(parents=True, exist_ok=True)` succeeds if the folder exists. Otherwise it adds it, or it fails and leaves the volume unchanged. Files are never touched. |
| FileStore.BackupStep | heic_utils.py:102-106 | An existing destination (file or directory) means nothing happens. Otherwise it copies the source's bytes, or fails with "No such file" for a missing source or with the copy's error. It never changes an existing file. |
| FileStore.BackupTwiceIsBackupOnce | heic_utils.py:102-106 | Once a backup succeeded, a second backup of the same source is a no-op, whatever fault it would meet. |
| FileStore.BackupIdempotent | heic_utils.py:102-106 | Backing up twice leaves the same volume as backing up once. |
| FileStore.BackupSlotShared | heic_utils.py:103-105 | Two sources with the same name share one backup slot. After the first backup succeeded, the second passes without copying, and the slot keeps the first file's bytes when the first backup made the copy. |
| FileStore.StepsKeepExistence | heic_utils.py:104 | Backing up, writing and creating folders never make an existing path (file or directory) stop existing. So a backup slot that exists once stays filled and later backups into it pass without copying. |
| FileStore.RemoveStep | heic_utils.py:118-120 | A missing source is a successful no-op. Otherwise the file is unlinked, or the unlink error is reported and nothing changes. |
| FileStore.WriteStep | heic_utils.py:114 | `write_bytes` creates or overwrites the target with the data, leaving other files as they are, or fails and changes nothing. |
| FileStore.FileSystem.MakeDirs | heic_utils.py:71 | The outcome and the new state are those of `MakeDirsStep`. |
| FileStore.FileSystem.CopyToBackup | heic_utils.py:102-106 | The outcome and the new state are those of `BackupStep`. |
| FileStore.FileSystem.RemoveSourceFile | heic_utils.py:118-120 | The outcome and the new state are those of `RemoveStep`. |
| FileStore.FileSystem.WriteBytes | heic_utils.py:114 | The outcome and the new state are those of `WriteStep`. |
| Discovery.IsCandidate | heic_utils.py:38-45 | Every candidate is a file with a non-empty name and a five-character suffix (`.heic`/`.heif` in any case), and neither its `.jpg` nor its `.jpeg` sibling exists. |
| Discovery.PathStringsAdd | heic_utils.py:37-46 | Scanning one more entry appends its path string exactly when it is a candidate. |
| Discovery.PathStringsMembership | heic_utils.py:37-46 | An enumeration of the selected path strings contains an entry's string exactly when that entry is selected. |
| Discovery.ListHeicToConvert | heic_utils.py:31-48 | A non-directory gives `[]`. Otherwise the result is sorted and is a duplicate-free enumeration of the candidates' path strings. A file is listed exactly when it is a regular file with a `.heic`/`.heif` suffix (any case) and no `.jpg` or `.jpeg` sibling exists. |
| Registry.HeifRegistry.EnsureRegistered | heic_utils.py:167-179 | Once registered, it does nothing. With the plugin installed it registers. Without the plugin it raises the "pillow-heif missing" RuntimeError and leaves the flag down. |
| Conversion.ConvertStep | heic_utils.py:109-115 | Success holds iff the name is non-empty, the source exists, it decodes and the write succeeds. A failure changes nothing. On success the target is `with_suffix(".jpg")`, overwritten with the search's encoding, and the quality and size are those of the search: quality in [40, 95], and size at most 2,000,000 unless quality is 40. |
| Conversion.ConvertSingle | heic_utils.py:109-115 | The outcome and the new state are those of `ConvertStep`. |
| Batch.DispositionsAppend | heic_utils.py:79-90 | Processing the next source keeps every disposition attached to its own source. |
| Batch.ProcessFile | heic_utils.py:80-90 | A failed backup reports its error and changes nothing. A failed conversion keeps only the backup. Every result satisfies the quality bound. The source survives exactly when it existed and was not converted-and-removed. |
| Batch.ProcessFileOutcome | heic_utils.py:80-90 | A file succeeds exactly when its backup passes, its name is non-empty, it exists, it decodes and the write succeeds. Its result is then the source, its `.jpg` target, and the search's quality and size. A failed conversion after a passed backup reports the conversion's message. "Converted but not removed" arises exactly when removal was asked for, the conversion succeeded and the unlink failed, with the unlink's message. |
| Batch.RunFiles | heic_utils.py:79-97 | The loop yields one disposition per input. Disposition i belongs to input i, and every conversion it reports satisfies the quality bound. |
| Batch.BatchAccounting | heic_utils.py:79-90 | Results plus inputs that failed add up to N. The errors number the failed inputs plus the inputs converted but not removed. |
| Batch.ResultsOfOne | heic_utils.py:83 | A file adds at most one result, exactly when it did not fail, and that result is its conversion. |
| Batch.ErrorsOfOne | heic_utils.py:88-90 | A file adds at most one error, exactly when it did not fully succeed. The error names the file and carries the failure's message, or the "not removed" prefix followed by the unlink's message. |
| Batch.ResultsOfAppend | heic_utils.py:83 | The result list of a concatenation is the concatenation of the result lists. |
| Batch.ErrorsOfAppend | heic_utils.py:88-90 | The error list of a concatenation is the concatenation of the error lists. |
| Batch.ResultsInInputOrder | heic_utils.py:83 | Input i's result follows the results of all earlier inputs. |
| Batch.ErrorsInInputOrder | heic_utils.py:88-90 | Input i's error follows the errors of all earlier inputs and names that input. |
| Batch.ResultsAreOk | heic_utils.py:83 | Every result in the converted list has quality in [40, 95], and it fits unless at quality 40. |
| Batch.RunFilesAccounting | heic_utils.py:79-99 | The batch accounting holds for the loop. Without `remove_source`, no "converted but not removed" error occurs. |
| Batch.NothingNotRemoved | heic_utils.py:84-88 | Without `remove_source`, no input is ever converted-but-not-removed. |
| Batch.ProgressTrace | heic_utils.py:91-97 | One progress call per finished file. |
| Batch.ProgressTraceCalls | heic_utils.py:91-97 | Call i reports `(i + 1, N)` whether or not an earlier call raised, so the calls are (1,N)…(N,N). |
| Batch.ProgressTraceSnoc | heic_utils.py:92-95 | Finishing one more file appends exactly one call. |
| Batch.RunFilesSnoc | heic_utils.py:79-90 | Processing one more input extends the loop's state by that input's step. |
| Batch.ProcessOne | heic_utils.py:80-90 | The new volume and the disposition are those of `ProcessFile`. The lists grow by that file's result and errors. |
| Batch.ConvertAll | heic_utils.py:73-99 | The final volume, results and errors are those of `RunFiles`. With a callback, progress is `ProgressTrace`, and none is reported without one. |
| Batch.ConvertHeicBatch | heic_utils.py:51-99 | No paths: returns `([], [])` without registering, creating a folder or calling back. Missing plugin: the RuntimeError, nothing changed. A failed `mkdir` propagates. Otherwise it runs the loop of `RunFiles` in the created backup folder and returns its results, errors and progress. |

## Left out

- Pixel data, decoding and JPEG encoding are not modelled. The encoder is a function parameter, assumed
  deterministic (`_encode_jpeg` with subsampling 4:2:0 and `optimize=True`). What `Image.open(...).convert("RGB")`
  yields, or the message it raises, is a parameter too. An exception from the encoder itself during the search
  counts as that decoding failure.
- Filesystem faults (the errors `copy2`, `write_bytes`, `unlink` and `mkdir` would raise) are parameters. So is
  whether the progress callback raises. Permissions, races between processes and metadata copied by `copy2`
  (timestamps) are not modelled.
- FileStore.WriteStep: modelled as atomic. `write_bytes` truncates the target before writing, so a failure part-way
  can leave an empty or partial JPEG behind; the model leaves the volume unchanged on any write fault.
- FileStore.BackupStep: modelled as atomic. `copy2` can fail after creating the destination (a partial copy, or
  `copystat` failing); such a leftover would make the `exists()` check skip every later backup of that name.
  The model leaves the volume unchanged on any copy fault. Two error texts also differ from Python's. A source
  that is a directory gets the "No such file" message, where `copy2` raises "Is a directory". For a source with
  an empty name, `backup_dir / ''` is the backup folder itself, so Python skips the copy and the file then fails
  in `with_suffix`; the model treats the slot as a separate path, so it copies or fails here. Either way the
  file ends up in the error list.
- FileStore.RemoveStep: tests for a file, while `exists()` also holds for a directory, on which `unlink` would
  raise. The batch only removes a source after converting it, which required it to be a file, so the case does
  not arise there.
- Conversion.ConvertStep: opening a source that is a directory reports the same "No such file" message as a
  missing file, rather than Python's IsADirectoryError text.
- Paths.PathString: `str(path)` is `dir + "/" + name` with no normalisation. So an empty working directory,
  `..`, repeated separators and absolute-versus-relative distinctions are not modelled. Lists of inputs are
  given as already-split `Path` values.
- Paths.Lower: lower-cases ASCII letters only; Python's full Unicode case mapping is not modelled (the
  extensions compared are ASCII).
- Ordering.LexLe: compares code points, as Python does for `str`; locale-aware ordering is not involved.
- Module import of pillow-heif and `register_heif_opener` are reduced to a boolean `pluginInstalled`.
  The chained `ImportError` (`from exc`) is not modelled.
- Exceptions other than those listed (for example `KeyboardInterrupt`, which the `except Exception` clauses
  do not catch) are not modelled.
- The default `backup_folder_name="kopia heic"` is the constant `Batch.DefaultBackupFolderName`; the model's
  callers pass the folder name explicitly.
- The default `progress_callback=None` is the flag `hasCallback = false`. The arguments passed to the callback
  are recorded, but its other effects are not.
