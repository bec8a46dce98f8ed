# file-deduplicator, modelled in Dafny

`file-deduplicator` is a command-line tool. It walks a directory tree and
collects every regular file larger than 1 KiB. It fingerprints each file
with XXH3 in parallel and groups the paths by fingerprint. Then it reports
every group holding more than one path, and can optionally delete files
the user selects. A file of at most 1 MiB is hashed whole, streamed in
16 KiB chunks. A larger file is hashed over its first 64 KiB, its last
64 KiB and its size as eight little-endian bytes. That sampling is a
deliberate trade-off that can report false positives.

This project models that core and proves properties of it:

- `io.dfy` (module `Io`): I/O error kinds, `Result`, `Option` and paths.
- `bytes.dfy` (module `Bytes`): bytes, `u64` and little-endian encoding.
- `walker.dfy` (modules `Walker`, `WalkerFacts`): the explicit-stack
  directory walk, and what it collects, stated against the tree.
- `fingerprinter.dfy` (module `Fingerprinter`): `hash_file`. It has an
  open-file `Reader` class and a streaming `Hasher` class. The chunked
  loop and the head/tail/size sampling are imperative methods, proved
  against the reference function `HasherInput`.
- `aggregator.dfy` (module `Aggregator`): the parallel `fold` and
  `reduce` that build the `HashMap` from fingerprint to paths. It proves
  that neither the batching nor the merge order changes the groups.
- `deduplicator.dfy` (module `Deduplicator`): `scan_directory` end to
  end, and the `paths.len() > 1` duplicate filter of the `scan` command.

The filesystem is passed in as a value. The walker sees a finite tree of
`Node`s that records what each filesystem call reports. The fingerprinter
sees `disk: Path -> StoredFile`, the state of each file when it is hashed.
XXH3 is a function parameter `h` about which nothing is assumed.

Every error the walk propagates with `?` aborts it: `read_dir` of a
directory (src/main.rs:111), an entry the iterator fails to yield (`entry?`,
line 112) and `fs::metadata` of a regular file (line 116). `Walker.Walk`
returns an error in all three cases. `is_dir` and `is_file` (lines 113, 115)
swallow their own metadata failures and answer `false`, so such an entry (a
dangling link, say) is skipped silently: it is a `Special` node.

## Model

| member | source | states |
|---|---|---|
| Bytes.LE8 | src/main.rs:98 | `to_le_bytes` of a `u64` gives exactly eight bytes, and they decode little-endian back to the value |
| Bytes.FromLE8 | src/main.rs:98 | every eight-byte sequence is the encoding of the `u64` it decodes to, so the encoding is onto |
| Bytes.LE8Injective | src/main.rs:98 | distinct sizes give distinct eight-byte encodings |
| Bytes.FromLEToLE | src/main.rs:98 | decoding the `n`-byte little-endian encoding of a value below 256^n gives the value back |
| Bytes.ToLEFromLE | src/main.rs:98 | re-encoding a decoded byte sequence to its own length gives back the same bytes |
| Fingerprinter.FileFingerprint | src/main.rs:73-102 | a fingerprint exists exactly when the hasher input can be read; it is eight bytes, and they decode to the digest of that input |
| Fingerprinter.Reader.Open | src/main.rs:76 | an opened file reads the stored content and starts at offset 0 |
| Fingerprinter.Reader.Read | src/main.rs:82 | at end of file it returns 0; otherwise it copies a non-empty, in-bounds prefix of the remaining content and advances by that much; it fails only when that prefix, which lies within the buffer's length of the old offset, covers an unreadable byte |
| Fingerprinter.Reader.ReadExact | src/main.rs:90 | it fills the whole buffer with the bytes at the current offset and advances, or fails with the read error or `UnexpectedEof` when too few bytes remain |
| Fingerprinter.Reader.SeekFromEnd | src/main.rs:93 | a seek to before the start fails and leaves the offset alone; any other seek, including one past the end, moves to length + offset |
| Fingerprinter.Hasher.constructor | src/main.rs:77 | a new hasher has been fed nothing |
| Fingerprinter.Hasher.Update | src/main.rs:86 | the hasher has been fed the old bytes followed by the new ones |
| Fingerprinter.HashSample | src/main.rs:88-99 | for a file above 1 MiB the hasher is fed exactly `HasherInput` (head, tail, size), or the branch fails with exactly its error |
| Fingerprinter.HashFile | src/main.rs:73-102 | `hash_file` returns exactly `FileFingerprint` for every file, including the missing, unopenable, truncated and unreadable ones; the chunk loop keeps the bytes fed equal to the content read so far |
| Fingerprinter.SmallFileHashesWholeContent | src/main.rs:79-87 | an intact file of at most 1 MiB is hashed over its entire content |
| Fingerprinter.TailSeekInBounds | src/main.rs:93 | for sizes that fit in an `i64`, the tail seek lands `min(64 KiB, size)` before the end; above 1 MiB it lands 64 KiB before the end and after the head |
| Fingerprinter.TailSeekNeverBeforeStart | src/main.rs:93 | at every `u64` size, with the `i64` cast and negation wrapping, the tail seek never lands before the start of a file of that length |
| Fingerprinter.LargeFileHashesHeadTailSize | src/main.rs:88-99 | an intact file above 1 MiB is hashed over its first 64 KiB, then its last 64 KiB, then its size as eight little-endian bytes |
| Fingerprinter.IntactFileFingerprints | src/main.rs:73-102 | every intact file fingerprints successfully |
| Fingerprinter.EqualSmallFilesCollide | src/main.rs:79-87 | two intact small files with equal bytes get equal fingerprints |
| Fingerprinter.SameHeadTailSizeCollide | src/main.rs:88-99 | two intact large files of equal size whose first and last 64 KiB agree get equal fingerprints, whatever their interiors |
| Fingerprinter.DifferentSizesDifferentInputs | src/main.rs:98 | two intact large files of different sizes never give the hasher equal inputs |
| Walker.PushPending | src/main.rs:114 | pushing a directory adds its collectable paths to what is pending, adds its size to the measure, and makes the stack walkable only if that directory is |
| Walker.VisitEntry | src/main.rs:112-120 | one entry moves its collectable paths from pending to collected without loss or duplication; it fails only on a bad entry or a regular file whose metadata cannot be read |
| Walker.ListEntries | src/main.rs:111-121 | one listing moves every collectable path of the directory's entries onto the paths or the stack; it fails only when one of its entries is a bad entry or a regular file whose metadata cannot be read |
| Walker.Walk | src/main.rs:106-122 | the walk terminates; it fails exactly when `read_dir` of a directory it reaches, an entry of a listing, or the size lookup of a regular file fails, and otherwise collects each qualifying file path exactly as often as the tree holds it |
| WalkerFacts.CollectedBelow | src/main.rs:112 | every collected path extends the root path, and below a directory it goes through one of its entry names |
| WalkerFacts.CollectedFromBelow | src/main.rs:112 | every path collected from a listing extends the directory path with one of the listed names |
| WalkerFacts.CollectedExactly | src/main.rs:113-119 | a path is collected if and only if it names a regular file larger than 1024 bytes in the tree |
| WalkerFacts.CollectedFromExactly | src/main.rs:113-119 | the same for the entries of one directory listing |
| WalkerFacts.PathDeterminesNode | src/main.rs:112 | with unique names per directory, a relative path names at most one node |
| WalkerFacts.EntryDeterminesNode | src/main.rs:112 | the same within one directory listing |
| WalkerFacts.FirstNameListed | src/main.rs:112 | a node found in a listing is reached through one of the listed names |
| WalkerFacts.DirectoriesNotCollected | src/main.rs:113-114 | with unique names per directory, the path of a directory, unreadable or special node is never among the collected paths |
| WalkerFacts.CollectedOnce | src/main.rs:106-122 | with unique names per directory, no path is collected twice |
| WalkerFacts.CollectedFromOnce | src/main.rs:111-121 | the same for one directory listing |
| WalkerFacts.SizeBoundary | src/main.rs:117 | a 1024-byte file is skipped and a 1025-byte file is collected |
| Aggregator.PathsWithAppend | src/main.rs:150 | the paths filed under a key by two runs of pairs are those of the first run followed by those of the second |
| Aggregator.FoldGroups | src/main.rs:147-153 | the folded map has exactly the fingerprints of its input pairs as keys, and each key holds the paths paired with it, in input order |
| Aggregator.PathsWithAbsent | src/main.rs:150 | a fingerprint that no pair carries collects no paths |
| Aggregator.FoldGet | src/main.rs:147-153 | looking up any key of the fold, present or not, gives the paths paired with it |
| Aggregator.FoldGroupsNonEmpty | src/main.rs:150 | no group of the fold is empty |
| Aggregator.FoldSplit | src/main.rs:147-162 | folding two consecutive batches and merging the results equals folding them as one |
| Aggregator.FoldSplitAt | src/main.rs:157-159 | for every key, merging the folds of two consecutive batches gives the paths of both batches under that key, in order |
| Aggregator.MergeIdentity | src/main.rs:155 | the empty map is a left and right identity of the reduce step |
| Aggregator.MergeGet | src/main.rs:157-159 | after a merge, each key holds its paths from the left map followed by those from the right map |
| Aggregator.MergeKeys | src/main.rs:157-159 | the merged keys are the union of both key sets |
| Aggregator.MergeAssociative | src/main.rs:154-161 | the reduce step is associative |
| Aggregator.MergeAssociativeAt | src/main.rs:157-159 | associativity, stated for one key |
| Aggregator.MergeCommutative | src/main.rs:154-161 | swapping the operands of the reduce step changes only the order of paths inside a group |
| Aggregator.PathsWithCount | src/main.rs:150 | each path occurs under a key exactly as often as the pair (key, path) occurs in the input |
| Aggregator.EvalKeys | src/main.rs:147-162 | for any tree of batches and merges, the result's keys are the fingerprints of all its pairs |
| Aggregator.EvalCount | src/main.rs:147-162 | for any tree of batches and merges, each key holds each path as often as the pair occurs in the batches |
| Aggregator.HashesAppend | src/main.rs:150 | the fingerprints of two runs of pairs are the union of each run's fingerprints |
| Aggregator.HashesOfPermutation | src/main.rs:150 | reordering the pairs does not change the set of fingerprints |
| Aggregator.AnyPlanSameGroups | src/main.rs:132-162 | whatever batches rayon makes and in whatever order it merges them, the result has the same keys and groups as a sequential fold, up to order inside each group |
| Aggregator.ConcatFold | src/main.rs:147-153 | listing the fold's groups in any key order lists the paths paired with each key |
| Aggregator.ConcatWithSnoc | src/main.rs:150 | one more pair adds its path once to the listing if its key is listed, and otherwise adds nothing |
| Aggregator.ConcatWithAll | src/main.rs:147-153 | a listing over distinct keys that cover every pair holds exactly the input paths |
| Aggregator.NoLossNoDuplication | src/main.rs:147-162 | all the groups together, in any order of their keys, hold exactly the input paths: none lost, none duplicated |
| Aggregator.EachPathInItsOwnGroup | src/main.rs:150 | when every path is hashed once, each path stands exactly once in its own fingerprint's group and in no other |
| Aggregator.FoldBatch | src/main.rs:147-153 | the fold closure run over one batch builds exactly `Fold` of the batch |
| Aggregator.MergeInto | src/main.rs:154-161 | the reduce closure, visiting the entries in any order, builds exactly the merge |
| Aggregator.Aggregate | src/main.rs:147-162 | folding each of a sequence of batches and reducing in order gives the fold of all the pairs |
| Deduplicator.HashedCount | src/main.rs:134-146 | a (fingerprint, path) pair appears as often as the path was given if its file hashes to that fingerprint, and never otherwise |
| Deduplicator.HashedSnoc | src/main.rs:134-146 | one more path adds itself to a fingerprint's pairs exactly when its file hashes to that fingerprint |
| Deduplicator.HashAll | src/main.rs:133-146 | the `filter_map` over the paths yields exactly `Hashed` |
| Deduplicator.SameWalkSameGroups | src/main.rs:132-162 | the grouping depends only on the multiset of walked paths, not on their order |
| Deduplicator.ScanDirectory | src/main.rs:105-166 | a scan fails exactly when the walk does; otherwise it returns `Groups`, the grouping of the tree's hashable files, up to order inside groups, for any choice of batches |
| Deduplicator.GroupMembers | src/main.rs:132-162 | a path is in the group of a fingerprint exactly when it was walked and its file hashes to that fingerprint |
| Deduplicator.ScanGroupMembers | src/main.rs:105-166 | a path is in the group of a fingerprint exactly when it names a regular file over 1024 bytes in the tree and that file hashes to the fingerprint |
| Deduplicator.ScanGroupsHaveNoRepeats | src/main.rs:105-166 | with unique names per directory, no path appears twice in a group or in two groups |
| Deduplicator.Duplicates | src/main.rs:178-181 | the filter keeps exactly the groups with more than one path, with their paths unchanged |
| Deduplicator.OneMatch | src/main.rs:134-150 | a fingerprint collects a path exactly when some walked file hashes to it |
| Deduplicator.TwoMatches | src/main.rs:134-150 | a fingerprint collects two or more paths exactly when two walked files hash to it |
| Deduplicator.DuplicatesExactly | src/main.rs:178-181 | a fingerprint is reported as a duplicate set exactly when two walked files hash to it |
| Deduplicator.DuplicatesEmpty | src/main.rs:183-186 | "No duplicates found." is printed exactly when every group holds a single path |
| Deduplicator.DuplicatesRespectBag | src/main.rs:178-181 | the filter does not depend on the order of paths inside a group |
| Deduplicator.FindDuplicates | src/main.rs:177-186 | the `scan` command fails exactly when the walk does; otherwise it yields the duplicate sets of `Groups`, and none exactly when every group is a singleton |
| Deduplicator.SampledLookalikesReported | src/main.rs:88-98 | two walked large files that agree on size, first 64 KiB and last 64 KiB are reported in one duplicate set |

## Left out

- Real filesystem I/O is not modelled. The walker gets a finite tree, and hashing gets the state of each file at hash time as a parameter.
- XXH3 is a parameter `h`. No collision resistance is assumed, so every property is about the bytes fed to the hasher.
- The digest state of `Xxh3` is abstracted as the sequence of bytes fed to it, so `Fingerprinter.Hasher.Digest` is `h` of that sequence.
- Rayon's thread pool, work stealing and four-thread configuration are left out. Parallelism is modelled by the batching and merge order being left open: `Deduplicator.ScanDirectory` picks the batches nondeterministically, and `Aggregator.AnyPlanSameGroups` covers any tree of merges.
- `Walker.Walk`: symbolic links are not modelled. `is_dir` and `is_file` follow links, so a link cycle is re-walked until path resolution fails. Along the way the same files are collected under many alias paths and then reported as duplicates of one another. A finite tree of nodes cannot express this.
- `Walker.Walk`: it promises the collected paths as a multiset, not their order, which depends on `read_dir`.
- The iteration order of `HashMap` is not modelled. Indexes are maps, and results are compared up to the order of paths inside each group (`Aggregator.Bag`).
- The progress bar, the `println!` error reports and listings, and command-line parsing with `clap` are left out. They do not affect the result.
- Interactive deletion (the `dialoguer` prompt and `fs::remove_file`) is not part of this model. It is I/O driven by user input.
- The `AppError` wrapper and its `Display` implementation are left out. Errors are modelled by their I/O kind only.
- `Fingerprinter.TailSeek`: the `size as i64` reinterpretation and the negation are modelled as a release build wraps them.
- Fingerprinter.TailSeekInBounds: its closed form for the tail offset is stated only for sizes below 2^63, which every real file has. `Fingerprinter.TailSeekNeverBeforeStart` covers every `u64` size. The other lemmas about intact files (`LargeFileHashesHeadTailSize`, `IntactFileFingerprints`, `SameHeadTailSizeCollide`, `DifferentSizesDifferentInputs`) carry the same bound.
- `Fingerprinter.Reader.Read`: the model does not say how much one read returns. Any non-empty amount up to the buffer length is allowed.
