# dfind: duplicate-file detection, modelled in Dafny

dfind is a command-line tool that reports duplicate files under a directory. It works in four steps:

1. It enumerates the files, optionally keeps only some image extensions, and groups the files by length.
2. Inside every group with at least two members, it compares files pairwise. Each comparison first checks boundary bytes (the first and the last 16 KiB, or the whole file when it is smaller), then compares the MD5 digests of the two streams.
3. Every file that matches an earlier file is collected into a shared bag.
4. It prints the bag, and the number of duplicates when run with `-v`.

This project models that core and proves what it computes:

- `io.dfy` (module `SystemIO`) models the runtime pieces the finder uses:
  - file records;
  - read-only streams with a position;
  - pooled buffers and the spans over them;
  - `ComputeHash`;
  - the concurrent bag.
- `boundary.dfy` (module `Boundary`) defines `BoundaryEqual`, which says what the boundary check decides, and proves what it looks at.
- `grouping.dfy` (module `Grouping`) models the extension filter and the group-by-length query of `GetFiles`.
- `detection.dfy` (module `Detection`) states loop-free which files are duplicates. A file is a duplicate when an earlier file in enumeration order matches it. The module also holds the round-by-round vocabulary that the loops of `HandleGroup` are proved with.
- `duplicate_finder.dfy` (module `DFind`) holds the class `DuplicateFinder`: `GetFiles`, `HandleGroup`, `CompareHash`, `Compare`, `CompareStartEndBytes` and `Process`, written imperatively, each proved against the functions above.
- `flags.dfy` (module `Flags`) models `Flags.Parse` as a method on the finder and `ApplyFlag` as its specification.
- `program.dfy` (module `Program`) models `Main` as `Run`.

The file system, `Path.Exists` and the MD5 function are parameters:
- `enumerate` is the directory walk;
- `pathExists` is `Path.Exists`;
- `digest` is the hash over a byte sequence.

A `FileInfo` is identified by reference in the source. The model identifies files by value and requires the enumeration to list no file twice.

The headline results:
- `Process` reports exactly the files that have an earlier matching file in the selected enumeration. It reports none twice. Every pair it compares has equal length.
- `Compare(A, B)` is exactly `BoundaryEqual(A.content, B.content)`.
- `BoundaryEqual` looks only at bytes in the first or the last 16384. Two files that differ only in between are reported as duplicates (`MiddleByteChangeAccepted`).

Four points where the code does something its structure suggests it was not meant to do, or something easy to misread. The model follows the code in each:
- The size test in `CompareStartEndBytes` is strict (`A.Length < bufsize`). A file of exactly 16384 bytes therefore takes the two-read path; its end chunk starts at offset 0. The outcome is still whole-content equality (`WithinOneChunkWholeContent`).
- The second `SequenceEqual` reuses the spans built for the first chunks. A span is a view over its array, so after the buffers are cleared and refilled it shows the last chunks. The end chunk IS compared: the first ensures of `CompareStartEndBytes` says its result is `BoundaryEqual`, and `BoundaryEqualIffBoundaryBytesAgree` shows that a difference in the last 16384 bytes makes it false.
- `Compare` calls MD5 after a successful boundary check, evidently to confirm the whole content. `ComputeHash(Stream)` reads from the current position, and once the boundary check has passed both streams are at their end. Both digests are therefore taken over the empty sequence, and `CompareHash` always returns true at that point. The digest stage never rejects a pair, so files of one length that agree on the first and last 16384 bytes are reported as duplicates whatever lies between.
- A file already in the bag is never used as a source A (the outer `Where` at `DuplicateFinder.cs:82`). The inner loop compares A with every file not yet used as a source, earlier duplicates included. Such an earlier duplicate can never match an original A (`OriginalMatchesNothingFlagged`), so no file is added twice.

## Model

| member | source | states |
|---|---|---|
| SystemIO.FileStream.Read | DuplicateFinder.cs:155-156 | copies min(count, remaining) bytes from the position into the buffer at `offset`, advances the position by that many, and leaves the rest of the buffer as it was |
| SystemIO.ComputeHash | DuplicateFinder.cs:100-102 | the hash is the digest of the bytes from the stream's position to its end; the stream is left at its end |
| SystemIO.Rent | DuplicateFinder.cs:151-152 | a fresh buffer at least as long as requested |
| SystemIO.Clear | DuplicateFinder.cs:177-178 | every element of the buffer becomes zero |
| SystemIO.FileBag.Add | DuplicateFinder.cs:90 | the bag gains exactly the added file |
| SystemIO.FileBag.constructor | DuplicateFinder.cs:204 | the bag starts empty |
| SystemIO.FileBag.Contains | DuplicateFinder.cs:82 | true exactly when the file occurs in the bag |
| SystemIO.FileStream.OpenRead | DuplicateFinder.cs:113-114 | a stream over the file's content, positioned at its start |
| SystemIO.Span.View | DuplicateFinder.cs:158-159 | the span shows `length` elements of its array from `start`, read from the array as it is now, so a refilled buffer shows through |
| SystemIO.SequenceEqual | DuplicateFinder.cs:161 | true exactly when the two spans have the same length and agree element by element |
| Boundary.BoundaryEqualIffBoundaryBytesAgree | DuplicateFinder.cs:137-190 | the boundary check accepts two equal-length files exactly when they agree on every byte in the first or last 16384 (every byte, for files below one chunk) |
| Boundary.BoundaryDifferenceDetected | DuplicateFinder.cs:155-189 | a difference in any boundary byte makes the check fail |
| Boundary.MiddleBytesIgnored | DuplicateFinder.cs:174-190 | changing bytes strictly between the two chunks never changes the outcome |
| Boundary.MiddleByteChangeAccepted | DuplicateFinder.cs:174-190 | from length 2 * 16384 + 1 on, two different files (one byte changed between the chunks) pass the check |
| Boundary.WithinOneChunkWholeContent | DuplicateFinder.cs:143-172 | up to and including one chunk (zero-length files included) the check is whole-content equality |
| Grouping.WithExtensionIn | DuplicateFinder.cs:62-63 | keeps exactly the files whose extension is in the pattern list, and keeps a repeat-free list repeat-free |
| Grouping.WithExtensionInDistributes | DuplicateFinder.cs:62-63 | the extension filter keeps enumeration order and repeats: filtering a concatenation concatenates the filtered parts |
| Grouping.WithLength | DuplicateFinder.cs:64 | keeps exactly the files of the given length, and keeps a repeat-free list repeat-free |
| Grouping.WithLengthDistributes | DuplicateFinder.cs:64 | the length filter keeps enumeration order and repeats in the same way |
| Grouping.GroupByLength | DuplicateFinder.cs:62-71 | keys are unique and are exactly the lengths that occur; the lookup of any length yields the files of that length in enumeration order; no group is empty |
| Grouping.GroupIsAllFilesOfItsLength | DuplicateFinder.cs:64-65 | each group's members are all the files of its key's length, in order |
| Grouping.SizeGroupsPartition | DuplicateFinder.cs:60-72 | groups are non-empty with unique keys, every member has the key's length, comes from the enumeration and passes the filter; a file lands in some group exactly when the pattern list is empty or holds its extension |
| Detection.IdenticalContentMatches | DuplicateFinder.cs:110-127 | two files with identical content always compare as duplicates, whatever their names |
| Detection.DuplicateHasOriginal | DuplicateFinder.cs:82-93 | every duplicate has an original: a different, matching file that is itself not a duplicate |
| Detection.FirstIsNeverDuplicate | DuplicateFinder.cs:82-93 | the first file of a group is never a duplicate |
| Detection.GroupAgreesWithWhole | DuplicateFinder.cs:205-211 | whether a file is a duplicate within its size group is the same as within the whole enumeration |
| Detection.FlaggedBeforeStep | DuplicateFinder.cs:82-93 | one more outer round flags exactly what the new source matches after it |
| Detection.DuplicateSourceAddsNothing | DuplicateFinder.cs:82 | a source that is itself a duplicate would flag nothing new, so skipping it loses nothing |
| Detection.OriginalMatchesNothingFlagged | DuplicateFinder.cs:84-91 | an original source matches no file already flagged and no earlier duplicate, so nothing is added twice |
| Detection.FlaggedRound | DuplicateFinder.cs:82-93 | a round with an original source leaves the bag holding exactly the files flagged after that round |
| Detection.FlaggedSkip | DuplicateFinder.cs:82 | a skipped round leaves the flagged files as they were |
| Detection.FlaggedAllRounds | DuplicateFinder.cs:82-94 | after all rounds the flagged files are exactly the group's duplicates |
| Detection.SourcesRound | DuplicateFinder.cs:93 | after a round with an original source, the sources used so far are exactly the originals among the files seen so far |
| Detection.SourcesSkip | DuplicateFinder.cs:82 | a skipped round adds no source |
| DFind.DuplicateFinder.constructor | DuplicateFinder.cs:31-38 | location set, no pattern, top-directory search, not verbose, no groups |
| DFind.DuplicateFinder.WithPattern | DuplicateFinder.cs:40-47 | as the plain constructor, with the given pattern list |
| DFind.DuplicateFinder.GetFiles | DuplicateFinder.cs:49-73 | the size groups become the group-by-length of the enumeration under the extension filter |
| DFind.DuplicateFinder.HandleGroup | DuplicateFinder.cs:75-96 | adds to the bag exactly the group's duplicates, each once; never the first member; every added file was compared with a matching source; no pair compares a file with itself; no source is in the bag |
| DFind.DuplicateFinder.CompareWithRest | DuplicateFinder.cs:84-92 | for an original source, adds exactly the later files that match it and are not yet flagged; compares only the source with other members |
| DFind.DuplicateFinder.CompareHash | DuplicateFinder.cs:98-109 | true exactly when the digests of the two streams' remaining bytes are equal; both streams are left at their end |
| DFind.DuplicateFinder.Compare | DuplicateFinder.cs:110-127 | the result is exactly the boundary check's; the digest stage runs exactly when the boundary check passes |
| DFind.DuplicateFinder.CompareStartEndBytes | DuplicateFinder.cs:135-198 | the result is the boundary check; on a first-chunk mismatch both streams stay right after the first chunk; otherwise both end at their length |
| DFind.DuplicateFinder.Process | DuplicateFinder.cs:200-223 | the report holds exactly the duplicates of the selected enumeration, none twice, with their count when verbose; every compared pair is two different files of one length from the selection |
| Flags.ToLower | Program.cs:16 | same length; no upper-case ASCII letter remains; each upper-case letter becomes the letter 32 code points on; every other character is kept |
| Flags.ToLowerIdempotent | Program.cs:16 | lower-casing an already lower-cased string changes nothing |
| Flags.ApplyFlag | Program.cs:14-34 | the pattern gains the flag's extension; recursion becomes AllDirectories exactly for "-r"; verbose turns on exactly for "-v" |
| Flags.Parse | Program.cs:14-34 | the finder's settings become ApplyFlag of the old ones; the size groups are untouched |
| Flags.ApplyFlagChangesOneSettingUpward | Program.cs:16-33 | a flag changes at most one setting: recursion on, one of .jpg/.png/.gif appended, or verbose on; anything else changes nothing |
| Flags.ApplyFlagIgnoresCase | Program.cs:16 | a flag and its lower-cased form have the same effect |
| Flags.NonFlagChangesNothing | Program.cs:16-33 | an argument not starting with '-' changes no setting |
| Flags.ApplyAllSummary | Program.cs:56-60 | after all flags: the pattern is the image flags' extensions in argument order, repeats kept; recursion is on exactly when some argument is "-r"; verbose exactly when some is "-v" |
| Program.FlagArgs | Program.cs:56 | keeps exactly the arguments starting with '-', the last one included when it does |
| Program.FlagArgsDistributes | Program.cs:56 | the selection keeps argument order and repeats: selecting from a concatenation concatenates the selections |
| Program.FlagArgsAppliesLikeAllArgs | Program.cs:56-60 | parsing only the '-' arguments gives the same settings as parsing them all |
| Program.Run | Program.cs:39-63 | no arguments: exit 1 with the path message; a missing last argument: exit 1 with the location message; otherwise the settings are the flags applied in order and the report is Process's for the last argument |

## Left out

- Directory enumeration is not modelled. This covers `DirectoryInfo.GetFiles`, the enumeration options (skipping hidden, system and temporary files, ignoring inaccessible entries) and the order the file system returns. The walk is the `enumerate` parameter, assumed to list no file twice.
- `dInfo.GetFiles(...)` runs eagerly inside `GetFiles`. Only the `where` and `group by` on its result are deferred until `Process` iterates `FileSizeGroups`. The model evaluates the whole query in `GetFiles`. The files are an array by then, so the two agree.
- `Parallel.ForEach` with up to ten workers, and the thread-safety of `ConcurrentBag`, are not modelled. The groups are handled one after another. The groups share no file, and each group's `HandleGroup` reads the bag only for its own members, so the set of reported files does not depend on the interleaving. The bag's iteration order is unordered in the source; the model keeps insertion order and states no property that depends on it.
- The MD5 algorithm is the `digest` parameter. The digest-length test in `CompareHash` is kept as written.
- `ArrayPool` renting and returning are modelled as fresh arrays of the requested length. The `finally` that returns the buffers is not modelled.
- SystemIO.FileStream.Read: does not model short reads except at the end of the file, because the source never checks the count returned and regular files are read in full.
- Console output is not modelled: the quoted full names and the "found N duplicates" line are left out. `Report` carries what they would show. The error messages and the exit code are carried by the `Exit` outcome instead of being written to standard error.
- `Path.Exists` is the `pathExists` parameter. The constructors' `Debug.Assert(Path.Exists(...))` is dropped: the constructors take no file-system view, and `Run` builds a finder only after checking the path. In `CompareStartEndBytes` the equal-length `Debug.Assert` becomes a precondition. The check after the second read always holds and becomes an `assert`.
- DFind.DuplicateFinder.Process: files are taken as immutable, readable records. An exception from `File.OpenRead`, `Read` or `ComputeHash` (a file deleted, locked or unreadable after enumeration) is not modelled. In the source it leaves `Parallel.ForEach` as an AggregateException and ends the run before anything is printed; the model always returns a report.
- Program.Run: the location is assumed to be a directory. A last argument naming an existing regular file passes `Path.Exists`, after which `DirectoryInfo.GetFiles` throws. The model promises `Completed` in that case.
- Flags.ToLower: only ASCII letters are lower-cased. Culture-specific mappings (for instance the Turkish dotless i, which would make "-GIF" miss) are not modelled.
