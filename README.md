# FileManager log rotation, modelled in Dafny

FileManager is a log-rotation utility. It scans a directory and looks at
each regular file. A file whose modification time is strictly more than
`days * 86400` seconds before the moment of the scan is compressed to
`<name>.gz`, and the original is removed. It counts what it did in a
`ProcessingStats` record, and `main` turns that record into an exit status.

This project models the core of `file_manager.py`:

- `ProcessingStats`: its five counters, their defaults and the error list.
- `compress_file`: the one-file transaction. It stats the file, streams it
  through the codec into the artifact, rejects an empty artifact, removes
  the original, and on any exception removes whatever sits at the artifact
  path.
- `manage_files`: checks the root, lists it with the glob (direct children or
  the whole subtree), ignores non-files and names with suffix `.gz`, applies
  the age test and folds each outcome into the statistics.
- The exit-status rule of `main`.

The operating system is a `FileSystem` class whose `entries` map paths to
regular files (contents and mtime) or directories. Its methods are the calls
the program makes: `stat`, `open`/read, `gzip.open`/write, `unlink` and
`glob`. Each call the operating system may refuse takes a flag saying whether
it does. Which calls fail, for which file, is an input (`Faults`, gathered
per path in a plan). The clock is an input, `now`, which a pass reads once.
The gzip codec is an abstract pair of functions; `Lossless` says it
round-trips.

Each imperative operation is proved against a specification function:

- `CompressFile` against `Compress`;
- the loop body `ProcessFile` against `VisitFile` and `Tally`;
- `ManageFiles` against `Run`, which is `Scan` over the listing.

The lemmas then state the following about those functions:

- The counters balance.
- A file is handed to compress_file exactly when it is strictly older than
  the threshold; its verdict, saving and new filesystem are compress_file's.
- A dry run changes nothing.
- A failed transaction keeps the original.
- The outcome of each file is decided by the filesystem as it was before the
  pass, so the glob's order does not matter. Each counter therefore counts
  exactly the listed files with that outcome.
- Nothing outside the glob's reach is touched.
- A newly written file is a `.gz` file, which the next pass ignores.
- The exit status is 1 exactly when the root was unusable or a file failed.

Two behaviours of the code are kept as written and proved as such:

- A successful call overwrites an existing `<name>.gz`.
- A failed call deletes a pre-existing `<name>.gz` it did not write, even
  when the file itself is missing.

Two facts about the counters follow the code as written:

- `bytes_saved` is a plain `int` and can be negative: each success adds
  `original_size - compressed_size` (line 93), and a file whose artifact is
  larger contributes a negative amount (`Stats.ProcessingStats` keeps it an
  `int`).
- A dry run reports success even for a missing file, because line 70
  returns before any filesystem call.

## Model

| member | source | states |
|---|---|---|
| Paths.LastDot | file_manager.py:68 | The index is -1 or a '.', and no '.' follows it (the `rfind('.')` behind pathlib's suffix). |
| Paths.Suffix | file_manager.py:68 | The suffix is non-empty iff the last dot is neither the first nor the last character; a non-empty suffix starts with that dot, ends the name and holds no other dot. |
| Paths.CompressedName | file_manager.py:68 | `with_suffix(suffix + ".gz")` is the name with ".gz" appended, whatever the existing extension. |
| Paths.CompressedPath | file_manager.py:68 | The artifact path stays in the same directory, with ".gz" appended to the final name. |
| Paths.LastDotUnique | file_manager.py:68 | The dot with no dot after it is the one `rfind` returns. |
| Paths.GzSuffixIff | file_manager.py:153 | The suffix is ".gz" iff the name ends in ".gz" with at least one character before the dot. |
| Paths.GzAppendedSuffix | file_manager.py:68 | Appending ".gz" to any name gives suffix ".gz". |
| Paths.CompressedPathIsGz | file_manager.py:68 | Every artifact path is recognised as already compressed by the test on line 153. |
| Paths.CompressedPathInjective | file_manager.py:68 | Distinct files never share an artifact path. |
| Paths.Text | file_manager.py:137 | The rendering of a path used in messages starts with "/" and ends with the path's final name, so each message names its file. |
| Storage.FileSystem.Stat | file_manager.py:75 | `stat()` returns the node iff the path exists and the call is not refused. |
| Storage.FileSystem.ReadAll | file_manager.py:78 | `open(p, "rb")` yields the file's bytes iff `p` is a regular file and the call is not refused. |
| Storage.FileSystem.OpenForWrite | file_manager.py:79 | `gzip.open(c, "wb")` creates or truncates `c` iff it is not refused and `c` is not a directory; otherwise nothing changes. |
| Storage.FileSystem.Append | file_manager.py:80 | The copy appends exactly the given bytes to the artifact; nothing else changes. |
| Storage.FileSystem.Unlink | file_manager.py:88 | `unlink()` removes exactly `p` iff it is a regular file and the call is not refused; otherwise nothing changes. |
| Storage.FileSystem.Glob | file_manager.py:146-148 | The listing holds every path matching the pattern exactly once and nothing else (direct children for "*", the whole subtree for "**/*"). |
| Stats.Initial | file_manager.py:21-26 | A new ProcessingStats has all five counters 0 and no errors. |
| Stats.ExitCode | file_manager.py:252-256 | The status is 0 or 1, and 1 iff the error list is non-empty. |
| Compressor.Abort | file_manager.py:101-109 | The handler reports (False, 0), changes nothing but the artifact path, and removes a regular file there unless that is refused. |
| Compressor.Partial | file_manager.py:74-89 | What a failed transaction leaves behind touches only the artifact path, and never creates or removes a directory there. |
| Compressor.Compress | file_manager.py:58-109 | A dry run returns (True, 0) and touches nothing. Success iff dry run or the file is compressible. Only the file and its artifact path change, no directory is removed, and the original is gone after a real success and untouched after a failure. |
| Compressor.CompressSucceeds | file_manager.py:75-99 | A real success leaves a non-empty artifact holding the codec's output, which decompresses to the original under a lossless codec, and reports original size minus artifact size. |
| Compressor.CompressFails | file_manager.py:101-109 | A real failure saves 0, keeps the original as it was, and leaves something at the artifact path only when removal was refused or it is a directory. |
| Compressor.CompressFile | file_manager.py:58-109 | The call-by-call transaction on the filesystem returns and leaves exactly what `Compress` gives, for every combination of refused calls. |
| Compressor.CleanupDeletesForeignArtifact | file_manager.py:101-109 | A call on a missing file deletes a pre-existing `<name>.gz` and reports failure. |
| Compressor.SuccessOverwritesArtifact | file_manager.py:79-92 | A success replaces an existing `<name>.gz` with the new artifact. |
| Walker.VisitFile | file_manager.py:149-177 | A path is ignored iff it is not a regular file or has suffix ".gz". It goes to compress_file iff its mtime was read and its age is strictly above the threshold, and is skipped iff that age is not above it. A file handed to compress_file takes its success, its saving and its resulting filesystem from `Compress`; a failed stat carries the exception's message. A dry run changes nothing and saves 0. Only the file and its artifact path change, and no directory is removed. |
| Walker.Tally | file_manager.py:156-177 | A counted path increments `files_scanned` and exactly one outcome counter: skipped for a recent file, compressed for a success, failed for a failure. `bytes_saved` grows by the reported amount. A failed compression appends "Failed to compress: <path>", a failed stat appends "Error processing <path>: <reason>", and earlier errors are kept. |
| Walker.Scan | file_manager.py:148-177 | A dry-run loop leaves the filesystem and `bytes_saved` unchanged. |
| Walker.ScanFrame | file_manager.py:148-177 | The loop changes nothing outside its footprint, removes no directory, and everything it changes is named ".gz". |
| Walker.ScanStep | file_manager.py:148-177 | One more iteration is one more visit folded into the statistics. |
| Walker.Run | file_manager.py:129-179 | A missing root or a non-directory root gives zero counters, exactly one error with the matching message, and an untouched filesystem. A dry run changes nothing and saves 0. |
| Walker.ProcessFile | file_manager.py:149-177 | One iteration on the filesystem, with the threshold computed once by the caller, returns and leaves exactly what `VisitFile` and `Tally` give. |
| Walker.ManageFiles | file_manager.py:112-179 | The pass on the filesystem lists the root with the glob, reads the clock once, and returns and leaves exactly what `Run` gives over that listing. |
| PassProperties.ScanBalanced | file_manager.py:156-176 | A balanced start stays balanced: scanned = compressed + skipped + failed, and there is one error per failure. |
| PassProperties.RunBalanced | file_manager.py:129-179 | Every pass over a directory ends balanced. |
| PassProperties.ExitCodeOfRun | file_manager.py:135-143 | The exit status after a pass is 1 iff the root is not a directory or some file failed. |
| PassProperties.VisitIsLocal | file_manager.py:149-169 | A verdict depends only on the file and its artifact path. |
| PassProperties.OutsideFootprint | file_manager.py:68 | A path not listed earlier, and its artifact path, lie outside the earlier iterations' footprint. |
| PassProperties.ArtifactIsGz | file_manager.py:68 | A name without suffix ".gz" is never an artifact path. |
| PassProperties.DistinctArtifacts | file_manager.py:68 | Two distinct non-artifact files have disjoint (file, artifact) pairs. |
| PassProperties.ScanReadsSnapshot | file_manager.py:148-177 | On a duplicate-free listing, the statistics equal those computed from the filesystem as it was before the loop, so the glob order does not change them. |
| PassProperties.ReplayCounts | file_manager.py:156-176 | Each counter grows by the number of listed paths with that outcome. |
| PassProperties.RunCounts | file_manager.py:129-179 | On a directory, each counter equals the number of globbed paths that have that outcome in the filesystem before the pass. |
| PassProperties.ArtifactIgnored | file_manager.py:153-154 | A visit to an artifact path ignores it and changes nothing, so a later pass never recompresses it. |
| PassProperties.ArtifactInReach | file_manager.py:68 | A file's artifact path lies in the glob's reach iff the file does. |
| PassProperties.FootprintInReach | file_manager.py:146-148 | Everything the loop may touch lies in the glob's reach. |
| PassProperties.RunStaysInReach | file_manager.py:145-179 | A pass changes nothing outside the glob's reach (a non-recursive pass leaves subdirectories alone), removes no directory, and everything new or changed is named ".gz". |
| Scenarios.AppLogIsPlain | test_file_manager.py:144-152 | "app.log" is not a ".gz" name, and its artifact is "app.log.gz". |
| Scenarios.GlobListsAppLog | file_manager.py:145-148 | The glob over `logs`, recursive or not, lists exactly `[app.log]`, so the scenarios' listing is the one manage_files gets. |
| Scenarios.SingleVisit | file_manager.py:145-179 | A pass over a directory whose listing is one path is one visit of that path. |
| Scenarios.OldFileIsCompressed | test_file_manager.py:144-152 | With days=5, an older file is counted once as compressed and is replaced by its ".gz" artifact. |
| Scenarios.RecentFileIsSkipped | test_file_manager.py:154-161 | With days=5, a newer file is counted once as skipped and stays. |
| Scenarios.DryRunCountsButKeeps | test_file_manager.py:202-208 | A dry run counts an old file as compressed and leaves it in place. |
| Scenarios.DryVisit | file_manager.py:162-166 | In a dry run, the visit of an old file reports success with 0 saved and changes nothing. |
| Scenarios.MissingRootFails | test_file_manager.py:183-189 | A missing directory scans nothing, records exactly "Directory does not exist: /logs", and gives exit status 1. |
| Scenarios.AgeBoundary | file_manager.py:160-171 | A file exactly `days` old is skipped; one a second older goes to compress_file. |

## Left out

- Logging, `setup_logging`, `parse_args`, `ProcessingStats.__str__` and the CLI tests are not modelled. They only format text or wire arguments to `manage_files`.
- Compressor.CompressFile: the exists check on lines 83-84 cannot fail in a sequential model, so it has no branch. Only the empty-artifact check raises after the write.
- Compressor.CompressFile: the stat of the artifact on line 86 is never refused in the model. A refusal there would go to the same handler as the refusals that are modelled.
- Compressor.CompressFile: an exception raised by the logging call after the original is unlinked (line 95) is not modelled. In the source it would report failure and delete the only remaining copy.
- Compressor.CompressFile: the modification time of the written artifact is a parameter, `stamp`. A pass passes the time it sampled.
- The gzip format and `shutil.copyfileobj`'s chunked streaming are not modelled. The codec is an abstract function, and an interrupted copy leaves arbitrary bytes, given as a fault, at the artifact path.
- Times are exact reals. Floating-point rounding of `time.time()` and `st_mtime` is not modelled.
- Symbolic links, special files and permissions other than the injected refusals are not modelled. A path is a regular file, a directory, or absent.
- Storage.FileSystem.Glob: the glob's listing is taken before the loop, as a snapshot. Python's lazy generator may or may not see artifacts created during the loop. Those artifacts are ".gz" names, which the loop ignores either way (PassProperties.ArtifactIgnored).
- Walker.Run: the root message renders the root as the model's path text (`/logs`), not as the string the user typed. The per-file messages likewise render the path, not Python's `str(Path)`.
- Walker.VisitFile: an exception message from `stat()` is an input string (`StatFailure(reason)`). Exceptions from `is_file()` are not modelled.
- Compressor.Compress: a path without components (the filesystem root) is excluded with `requires |path| > 0`. `manage_files` only passes globbed paths, which always have a final name.
- PassProperties.RunCounts: states the four file counters. `bytes_saved` and the error texts are stated per file, by `Walker.Tally`, `Walker.VisitFile` and `Compressor.CompressSucceeds`, not as totals over the listing.
- Walker.Scan: the balance of the counters is stated in the lemma `PassProperties.ScanBalanced`, not as a postcondition of the function.
