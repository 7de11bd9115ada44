# slpkg unpacker: a Dafny model

`slpkg` extracts a scene-layer package (`.slpk`, a zip archive) into a directory
next to it. Entries whose final extension is `gz` are decompressed into files
without that extension. This project models two pieces of the extractor and
proves their properties:

- **The work partitioner** (`split_indices_into_ranges`). It splits the entry
  indices `[0, n)` into at most `r` contiguous half-open ranges of
  `ceil(n / r)` indices each, except that the last range is cut off at `n` and
  may be shorter. The source builds the list with a loop that pushes
  onto a vector. Here that is `SplitIndices.SplitIndicesIntoRanges`, a method
  with a `for` loop. It is proved equal to the closed form `SplitIndices.Split`,
  and the partition properties are lemmas about `Split`.
- **The unpack driver** (`unpack` and its helpers in `src/unpack.rs`).
  - The path derivations are pure functions over paths modelled as component
    sequences, following Rust's `std::path` rules (module `Paths`). They give
    the unpack folder, each entry's target directory, and each entry's output
    name.
  - `unpack` itself is a method with a loop (`Unpack.Unpack`). It opens the
    archive, prepares the folder, then extracts entries in index order and
    stops at the first error.
  - Filesystem, zip and gzip calls are not modelled. A `World` value fixes the
    outcome of each call. Every operation returns the log of calls it makes
    (`Effect`s) and its outcome, so the order of calls can be stated and proved.

Modules: `Wrappers` (`Option`, `Outcome`), `SplitIndices`
(`src/unpack/split_indices.rs`), `Paths` (the `std::path` behaviour that
`src/unpack.rs` relies on), and `Unpack` (`src/unpack.rs`).

The code shown never calls the partitioner: `src/unpack.rs` has no
`mod split_indices;`, and its loop is sequential. No parallel coordinator is
modelled. `Unpack.PartitionMatchesLoop` links the two pieces for a run in which
every entry is extracted successfully: visiting the partition's ranges in order
then reads the same indices, in the same order, as the sequential loop.

`src/main.rs:37` calls `unpack(src_file, verbose)`, but `src/unpack.rs:94`
declares `unpack` with a single path parameter. The model follows
`src/unpack.rs`.

## Model

| member | source | states |
|---|---|---|
| `SplitIndices.CeilDiv` | src/unpack/split_indices.rs:2 | the result is the ceiling of a / b: q * b >= a, and (q - 1) * b < a when q > 0 |
| `SplitIndices.ChunkSize` | src/unpack/split_indices.rs:2 | the chunk times the number of ranges covers all entries; it is at least 1 when there are entries; it is exactly 1 when 0 < entries <= ranges |
| `SplitIndices.StartBelowCount` | src/unpack/split_indices.rs:6-7 | the candidate start i * c lies below n exactly when i < ceil(n / c), so the guard keeps a prefix of the candidates |
| `SplitIndices.CountAtMostRanges` | src/unpack/split_indices.rs:3-7 | no more ranges are kept than the number of ranges asked for |
| `SplitIndices.SplitIndicesIntoRanges` | src/unpack/split_indices.rs:1-14 | the loop's vector equals the closed form `Split(numEntries, numRanges)`, for every input including numRanges = 0 |
| `SplitIndices.SplitBounds` | src/unpack/split_indices.rs:5-10 | the result is empty exactly when n = 0 or r = 0; every range satisfies start < end <= n |
| `SplitIndices.SplitCount` | src/unpack/split_indices.rs:3-6 | at most r ranges; range k starts at k * ChunkSize(n, r), so starts strictly increase |
| `SplitIndices.SplitContiguous` | src/unpack/split_indices.rs:5-9 | for n, r > 0: the first range starts at 0, each range ends where the next starts, and the last ends at n |
| `SplitIndices.SplitBalanced` | src/unpack/split_indices.rs:2-8 | every range but the last has exactly ChunkSize(n, r) indices; the last has between 1 and that many |
| `SplitIndices.SplitOrdered` | src/unpack/split_indices.rs:6-9 | an earlier range ends no later than any later range starts |
| `SplitIndices.SplitFind` | src/unpack/split_indices.rs:6-9 | index x < n lies in range x / ChunkSize(n, r) |
| `SplitIndices.SplitCovers` | src/unpack/split_indices.rs:5-11 | an index lies in some range exactly when it is below n |
| `SplitIndices.SplitDisjoint` | src/unpack/split_indices.rs:5-11 | no index lies in two ranges |
| `SplitIndices.SplitFlatten` | src/unpack/split_indices.rs:5-11 | visiting the ranges in order visits 0, 1, ..., n-1, each exactly once |
| `SplitIndices.SplitUnitRanges` | src/unpack/split_indices.rs:27-43 | when 0 < n <= r the result is the n unit ranges (k, k+1) |
| `SplitIndices.SplitSingleRange` | src/unpack/split_indices.rs:21-23 | test `single_range`: (100, 1) gives [(0, 100)] |
| `SplitIndices.SplitMoreRangesThanIndices` | src/unpack/split_indices.rs:27-43 | test `more_ranges_than_indices`: (10, 16) gives the ten unit ranges |
| `SplitIndices.SplitTypicalCase` | src/unpack/split_indices.rs:47-69 | test `typical_case`: (123460, 16) gives sixteen ranges on multiples of 7717, the last (115755, 123460) |
| `Paths.LastDot` | src/unpack.rs:65 | the position found holds a '.' and no '.' follows it; no position means the name has no '.' |
| `Paths.StemExtSplit` | src/unpack.rs:65-67 | a name with an extension is stem + "." + extension, with a non-empty stem and a dot-free extension; a name without one is its own stem and has no '.' except possibly its first character |
| `Paths.StemExtJoin` | src/unpack.rs:65-67 | conversely, a non-empty stem, a '.' and a dot-free extension give back that stem and extension |
| `Paths.FileNameParent` | src/unpack.rs:54-80 | a path with a file name is its parent followed by that name, so the target directory plus the file name rebuilds the entry |
| `Paths.SetFileNameSpec` | src/unpack.rs:23 | after `set_file_name(name)` the file name is name; the parent is the old parent when there was a file name to replace, and the old path itself when there was none |
| `Paths.StemExtension` | src/unpack.rs:65-80 | no file name means no stem and no extension; with an extension, the file name is stem + "." + extension; without one, the stem is the whole file name |
| `Paths.GzSuffix` | src/unpack.rs:65 | the final extension is exactly "gz" iff the name ends in ".gz" after at least one character; the stem is then the name without that suffix |
| `Unpack.UnpackFolder` | src/unpack.rs:22-23 | the unpack folder has the same parent as the source file and ends in the source file's stem, which is its file name unless the stem is "." or ".." |
| `Unpack.UnpackFolderIsSource` | src/unpack.rs:22-28 | the unpack folder equals the source path exactly when the source file name has no extension (the case the TODO leaves open) |
| `Unpack.PrepareFolder` | src/unpack.rs:33-44 | a directory at the folder is removed recursively and a regular file is removed; if that removal fails, it is the only call and its error is returned; otherwise the last call creates the folder and its outcome is returned; success iff every call made succeeds |
| `Unpack.TargetDirectory` | src/unpack.rs:54-58 | the unpack folder joined with the entry's parent: adding the entry's final component gives folder + entry; with no parent it is the folder itself |
| `Unpack.EntryTarget` | src/unpack.rs:65-80 | decompression happens iff the final extension is exactly "gz"; the output's parent is the target directory, and its last component is the file stem when decompressing and the file name otherwise |
| `Unpack.GzEntryTarget` | src/unpack.rs:65-67 | an entry dirs/base.gz (non-empty base) is decompressed to folder/dirs/base |
| `Unpack.PlainEntryTarget` | src/unpack.rs:78-80 | an entry whose name does not end in ".gz" after a non-empty prefix is copied to folder/entry unchanged |
| `Unpack.ExampleGzEntry` | src/unpack.rs:65-67 | b/c.json.gz becomes b/c.json |
| `Unpack.ExampleDoubleGzEntry` | src/unpack.rs:65-67 | t.gz.gz becomes t.gz: only the last ".gz" is dropped |
| `Unpack.ExamplePlainEntries` | src/unpack.rs:78-80 | a.txt, d.GZ and .gz are copied under their own names |
| `Unpack.ExtractEntry` | src/unpack.rs:47-100 | the first call reads the entry; an unreadable entry stops there with the read's error; otherwise the second call creates the target directory, and if that fails it stops with that error; only when it succeeds is the output file written at its target, as the third and last call, whose outcome is returned; extraction succeeds iff every call succeeds |
| `Unpack.FirstFailure` | src/unpack.rs:98-101 | every entry before the result succeeds, and the entry at the result (if any) fails |
| `Unpack.ExtractNext` | src/unpack.rs:98-101 | one loop step: extracting the next entry appends its calls to the log; if it fails, it is the last entry attempted and its error is the result; if the last entry succeeds, every entry was attempted and the result is success |
| `Unpack.ExtractEntries` | src/unpack.rs:98-101 | the loop's log is the calls of entries 0 .. Attempted-1 one after another, and its result is the error of the first failing entry, or success when none fails |
| `Unpack.Unpack` | src/unpack.rs:94-104 | for every run that reaches no panicking `unwrap`, the method's calls and outcome are those of `Run`: open the archive; on failure stop with that error; otherwise prepare the folder; on failure stop with that error; otherwise extract entries in order up to and including the first failing one |
| `Unpack.RunOutcome` | src/unpack.rs:94-104 | a run's first call opens the archive; if that fails, it is the only call and its error is returned, so no folder is touched; if preparing the folder fails, the removal's or the creation's error is returned; a run succeeds exactly when opening, preparing the folder and extracting every entry all succeed |
| `Unpack.RunReads` | src/unpack.rs:95-101 | no entry is read when opening or preparing the folder fails; otherwise the run reads entries 0, 1, ... up to and including the first failing one, in order |
| `Unpack.ReadsOfEntry` | src/unpack.rs:99-100 | extracting one entry reads that entry and no other |
| `Unpack.ReadsOfEntriesLog` | src/unpack.rs:98-101 | extracting entries 0..k-1 reads exactly 0, 1, ..., k-1 in increasing order |
| `Unpack.VisitOrder` | src/unpack.rs:98-101 | a run reads entries 0, 1, ... up to the first failure, each once, and never reads a later entry |
| `Unpack.EarlierEntriesWritten` | src/unpack.rs:61-101 | every entry before the first failure is readable and has had its output file written at its target by the time the loop has passed it |
| `Unpack.PartitionMatchesLoop` | src/unpack.rs:98 | for a run in which every entry succeeds, visiting the partition's ranges in order reads the same indices, in the same order, as the sequential loop |

## Left out

- `SplitIndices.ChunkSize`: the source computes `ceil(n as f64 / r as f64)`. The model uses exact integer ceiling division. The two agree only while `n` stays below 2^53, where every `usize` converts to `f64` exactly. That is an assumption of the model.
- `SplitIndices.SplitIndicesIntoRanges`: when `num_ranges` is 0, the source's float division gives NaN or infinity. The loop then runs zero times and the result is empty, so the model sets the chunk to 0, which is never read. Floats are not modelled.
- `usize` overflow of `i * chunk` and `start + chunk` is not modelled. Naturals are unbounded. For i < r the products obey i·chunk < r·chunk < n + r, and each kept start is below n.
- Archive reading (`ZipArchive::new`, `by_index`, `ZipFile::sanitized_name`) is external code. Its outcomes are inputs in `World`. Each sanitized name is taken as a relative sequence of components. Those components may be any names, including "." and "..": the model does not rely on the sanitizer keeping only normal components. The model makes no claim about path-traversal or absolute-path safety: the sanitizer is not part of this model, and `src/unpack.rs:51-53` notes that absolute names escape the folder.
- Gzip decoding, `File::create` and `std::io::copy` are external I/O. For each entry, one abstract outcome (`write`) stands for all three.
- Filesystem calls are abstract steps whose outcomes come from `World`: `exists`, `is_dir`, `is_file`, `remove_dir_all`, `remove_file`, `create_dir` and `create_dir_all`. Their real effect on a directory tree is not modelled.
- Unpack.Unpack: a run that would panic at an `unwrap` is excluded by the precondition `NoPanic`, since a panic is neither an error result nor a log. The `unwrap` at `src/unpack.rs:22` is reached only after the archive opens, so only then must the source path have a file name. The `unwrap` at `src/unpack.rs:80` is reached only for entries the loop attempts after the folder is ready. For those, a readable entry must have a non-empty name, and it must have a file name once its target directory is created. The `unwrap` at `src/unpack.rs:67` cannot fail once the extension is `gz`. `Run`, `RunOutcome` and `RunReads` share the same precondition.
- Paths follow Rust's `file_name`: a last component of "." or ".." gives no file name, and `set_file_name` then pushes without popping. Components are taken as `Path::components` yields them, so the collapsing of "." and of repeated separators is not modelled.
- Paths are not normalised. A stem of "." or "..", as from a source file named `..slpk` or `...`, stays a literal component. The filesystem would read it as the directory itself or its parent.
- Names are Unicode strings, so the failure of `OsStr::to_str` on non-UTF-8 names is not modelled.
- `println!` logging is left out.
- `src/main.rs` (command-line parsing and error printing) is not part of this model.
- No parallel coordinator or thread pool exists in the code shown, so none is modelled.
