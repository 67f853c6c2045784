# checksum — a Dafny model

A model of `checksum`, a command-line tool that hashes files, checks coreutils-style checksum manifests (`md5sum`/`sha*sum` check format), asserts a file's hash and compares files or whole directory trees. The model covers:

- the manifest loader and validator (`src/hk.rs`);
- the algorithm names and dispatch (`src/alg.rs`);
- the two hex encoders (`src/hash.rs`, `src/fmt.rs`);
- the tree comparison (`src/compare.rs`, `src/iter.rs`);
- the helpers and actions of `src/main.rs`;
- command selection (`src/cli.rs`).

The operating system and the digest crates are inputs to the model:
- A filesystem is a map from paths to contents or IO errors. A path the map does not hold does not exist.
- A directory walk is the sequence of entries it yields.
- `canonicalize`, `is_dir` and `is_file` are functions passed in.
- The digests (MD5, SHA-1, SHA-256, SHA-512, BLAKE3) are uninterpreted functions from bytes to bytes.
- The `imprint` fingerprint is an uninterpreted function from a path to a fingerprint or an IO error (`Compare.Build`), since `Imprint::new` reads the path itself.
- UTF-8 decoding of the manifest is a function passed in.
- Printed output is returned as a sequence of lines or reports.
- `process::exit(1)` is the result `Ok(false)`.

Modules, one per source file:

| module | file |
|---|---|
| `Common` | the shared `Error` type |
| `Ascii` | ASCII case folding |
| `Fs` | filesystem and `std::path` queries |
| `Hash` | `src/hash.rs` |
| `LowerHex` | `src/fmt.rs` |
| `Alg` | `src/alg.rs` |
| `Iter` | `src/iter.rs` |
| `EntryPattern` | the manifest line regex of `src/hk.rs` |
| `Hk` | the rest of `src/hk.rs` |
| `Compare` | `src/compare.rs` |
| `Cli` | `src/cli.rs` |
| `Program` | `src/main.rs` |

The `checksum` sources modelled here come from different revisions of the repository:
- `main.rs` reads an `Args` type and calls `.uniform()`;
- `cli.rs` defines `Opts` and its own `Algorithm` enum;
- `iter.rs` defines `all_items_match`;
- `src/error.rs` has only `IllegalComparison` and `Io`, although `HashFile`, `UnknownAlgorithm` and `InvalidOperation(Child)` are raised elsewhere.

The model reconciles them as follows:
- A single `Common.Error` holds every variant that is raised.
- `uniform` is `Iter.AllItemsMatch`.
- `cli.rs`'s algorithm enum is `Alg.Algorithm`.
- `cli.rs`'s `Entry::File`/`Entry::Dir` are `ComparisonKind.File`/`Dir`.

The regex `^(\S+)\s+\*?(.+)$` is modelled as a hand-written parser, `EntryPattern.Parse`. It is proved equal to a declarative account of leftmost-first matching:
- among all splits of the line that fit the pattern, the regex reports the first one greedy backtracking tries (`Chosen`);
- `\s` is the Unicode White_Space property, as in the `regex` crate.

## Model

| member | source | states |
|---|---|---|
| EntryPattern.Parse | src/hk.rs:58-63 | `EntryParser::parse`: fails only with `HashFile`, and a parsed entry has a non-empty hash and name; `ParseIsLeftmostFirst` proves it is the regex's match |
| EntryPattern.ParseIsLeftmostFirst | src/hk.rs:58-72 | A line fails to parse (with `HashFile`) exactly when no split fits `^(\S+)\s+\*?(.+)$`; otherwise the captures are those of the split leftmost-first backtracking chooses |
| EntryPattern.ParseSplitIsChosen | src/hk.rs:69 | The parser finds no split iff none fits, and the split it finds is fitting and tried before every other fitting split |
| EntryPattern.ParseSplitFits | src/hk.rs:69 | The split the parser settles on fits the pattern |
| EntryPattern.FitsShape | src/hk.rs:69 | In every fitting split `\S+` takes the maximal non-whitespace run and `\s+` at most the whitespace run after it |
| EntryPattern.NonSpaceRun | src/hk.rs:69 | The run starting at `i` is non-whitespace and maximal |
| EntryPattern.SpaceRun | src/hk.rs:69 | The run starting at `i` is whitespace and maximal |
| EntryPattern.ParsedShape | src/hk.rs:69 | A parsed line is the hash (maximal non-empty non-whitespace prefix), a non-empty whitespace gap, an optional `*`, and a non-empty name |
| EntryPattern.EmptyOrIndentedFails | src/hk.rs:59 | An empty or whitespace-led line does not match |
| EntryPattern.NoSeparatorFails | src/hk.rs:59 | A line without whitespace does not match |
| EntryPattern.BacktrackingExamples | src/hk.rs:69 | `h *` yields name `*`; `h` and two spaces yields name ` ` |
| EntryPattern.StarAndSpacesExample | src/hk.rs:69 | `ab *x y` gives hash `ab` and name `x y`: the star is dropped and inner spaces stay in the name |
| EntryPattern.TabGapExample | src/hk.rs:69 | `ab\t\tx` gives hash `ab` and name `x`: a run of tabs is one gap |
| EntryPattern.BinaryModeLine | src/hk.rs:69 | `<hash> *<name>` gives back hash and name |
| EntryPattern.TextModeLine | src/hk.rs:69 | `<hash>  <name>` gives back hash and name when the name does not start with whitespace or `*` |
| Hk.LinesHaveNoLineFeed | src/hk.rs:24 | No line produced by `str::lines` contains a line feed |
| Hk.UnlinesLines | src/hk.rs:24 | Without carriage returns, the lines joined with line feeds give back the text, plus a final line feed if it lacked one |
| Hk.NonComments | src/hk.rs:24 | Kept lines are non-comments taken from the input |
| Hk.NonCommentsKeepsOthers | src/hk.rs:24 | Every line not starting with `#` is kept, empty lines included |
| Hk.NonCommentsAppend | src/hk.rs:24 | The filter keeps file order |
| Hk.ReadAlgFromPath | src/hk.rs:74-78 | The manifest's extension, or `HashFile` when it has none |
| Hk.ParseTasks | src/hk.rs:31-37 | Ok iff every entry parses, then one task per entry in order with path `dir + [name]`; else `HashFile` |
| Hk.FromPath | src/hk.rs:20-40 | `from_path` computes `Load`: algorithm from the extension, then the text, then the tasks of every non-comment line (built by `CollectTasks`) |
| Hk.Load | src/hk.rs:20-40 | The specification of `from_path`; `LoadErrors` and `LoadSucceeds` state its error order and its result |
| Hk.Lines | src/hk.rs:24 | `str::lines`: `LinesHaveNoLineFeed` and `UnlinesLines` state that it splits at line feeds and, for texts without carriage returns, loses nothing else; `LinesFirstLine`, `LinesCrLf` and `LinesLastLine` state the carriage-return cases |
| Hk.LinesFirstLine | src/hk.rs:24 | The first line ends at the first line feed, which is dropped with a carriage return just before it, and the rest is split the same way |
| Hk.LinesCrLf | src/hk.rs:24 | A `\r\n` ending is dropped whole |
| Hk.LinesLastLine | src/hk.rs:24 | A last line without a line feed is kept whole, a final `\r` included |
| Hk.CarriageReturnExamples | src/hk.rs:24 | `x\r\ny` gives `x`, `y`; a lone `\r` inside a line, or ending the text, stays |
| Hk.CollectTasks | src/hk.rs:31-37 | The loop over the non-comment lines gives `ParseTasks`: the first line that does not parse aborts with `HashFile`, otherwise one task per line, in order, each naming the file beside the manifest |
| Hk.ManifestNameSelectsAlgorithm | src/hk.rs:74-78 | A manifest whose name ends in `.<ext>` after a non-empty stem loads under the algorithm `<ext>` names |
| Hk.Md5ManifestName | src/hk.rs:74-78 | `sums.md5` loads under MD5 |
| Hk.Sha256ManifestName | src/hk.rs:74-78 | `sums.SHA256` loads under SHA-256 |
| Hk.LoadErrors | src/hk.rs:20-23 | No extension gives `HashFile`; an unknown one gives `UnknownAlgorithm(ext)` before the file is read; an unreadable file gives `Io`; a bad line gives `HashFile` |
| Hk.LoadSucceeds | src/hk.rs:27-39 | A loaded manifest has the extension's algorithm and exactly one task per non-comment line, in order, each with the parsed hash and name and path = parent + name |
| Hk.BlankLineFailsLoad | src/hk.rs:24-32 | An empty or whitespace-led line fails the whole load |
| Hk.Validate | src/hk.rs:95-109 | NotFound gives `Missing`, other IO errors pass through, an ASCII-case-insensitive match gives `HashOk`, else `Mismatch(actual)` |
| Hk.ValidateAgainstDigest | src/hk.rs:104-108 | A recorded hash equal in any case to the hex of digest `d` gives `HashOk` iff `d` is the file's digest, else `Mismatch` with the actual hex |
| Hk.StatusWord | src/hk.rs:142-158 | `OK`, `FAIL`, `MISSING` for the three outcomes, and no other way round |
| Hk.ShowValidationDistinguishes | src/hk.rs:142-158 | Two equal printed lines have the same outcome kind and the same name |
| Hk.ShowValidation | src/hk.rs:142-158 | The `Display` of a validation: status word, a space, the name; `StatusWord` and `ShowValidationDistinguishes` state that it tells outcomes and names apart |
| Hk.ValidationOf | src/hk.rs:126-133 | The item `next` yields for one task: its IO error, or the task with its `Validate` result |
| Hk.Outcomes | src/hk.rs:123-135 | The items the iterator yields: one per task, in order, each the task's `ValidationOf` |
| Hk.Validator.constructor | src/hk.rs:44-49 | `verify` starts the cursor at the first task, with the manifest's algorithm |
| Hk.Validator.Next | src/hk.rs:123-135 | One item per task in order, each the task's validation, an IO error only for that task; then `None` without moving |
| Hk.UnchangedFilesAllOk | src/hk.rs:95-109 | If every file still has its recorded digest, every outcome is `HashOk` |
| Hk.EmptyFileLine | src/hk.rs:69 | `d41d8cd98f00b204e9800998ecf8427e *empty.txt` parses to that hash and `empty.txt` |
| Hk.EmptyFileScenario | src/hk.rs:95-109 | That entry, beside an empty `empty.txt`, validates under MD5 as `HashOk` |
| Alg.Display | src/alg.rs:29-39 | The display names; `ParseDisplay` and `DisplayInjective` prove them distinct and read back by `parse` |
| Alg.Parse | src/alg.rs:44-53 | An unknown token is reported with the original, not upper-cased, text |
| Alg.ParseIsCaseInsensitive | src/alg.rs:44-51 | A token parses to a variant iff it equals its display name ignoring ASCII case |
| Alg.ParseDisplay | src/alg.rs:29-53 | `parse(display(a)) == Ok(a)` |
| Alg.DisplayInjective | src/alg.rs:31-37 | Display names are pairwise distinct |
| Alg.ParseIgnoresCase | src/alg.rs:45 | Tokens equal ignoring case parse alike |
| Alg.DefaultAlgorithm | src/alg.rs:6-14 | The default is the variant displayed `Sha1` |
| Alg.Hash | src/alg.rs:18-26 | Each variant's hash is the lower-case hex of its own digest of the file, or the read error |
| Alg.HashWidth | src/alg.rs:18-26 | With correctly sized digests the hex has 64, 32, 40, 64 or 128 characters |
| Hash.HexOf | src/hash.rs:22-29 | The text of `fmt_hex`; the lemmas below state its length, alphabet, layout and inverse |
| Hash.FmtHex | src/hash.rs:22-29 | The loop's buffer is `HexOf(bytes)`: length `2*n`, alphabet `0-9a-f` |
| Hash.HexOfLength | src/hash.rs:24-28 | Length is exactly twice the byte count |
| Hash.HexOfAlphabet | src/hash.rs:26 | Only lower-case hex digits occur |
| Hash.HexOfAt | src/hash.rs:25-27 | Characters `2i` and `2i+1` are the zero-padded high and low nibble of byte `i` |
| Hash.HexOfAppend | src/hash.rs:24-28 | Encoding distributes over concatenation |
| Hash.HexOfEmpty | src/hash.rs:24-28 | No bytes, no text |
| Hash.HexDecodeOfHexOf | src/hash.rs:22-29 | Decoding undoes the encoding |
| Hash.HexOfHexDecode | src/hash.rs:22-29 | Whatever decodes re-encodes to its lower-case folding |
| Hash.HexOfInjective | src/hash.rs:22-29 | Different digests never print alike |
| Hash.HexDecodeIgnoresCase | src/hash.rs:22-29 | Decoding sees only the lower-case folding |
| Hash.HexMatchIffDecodes | src/hash.rs:22-29 | A text matches a digest's hex ignoring case iff it decodes to that digest |
| Hash.HashToDigest | src/hash.rs:9-16 | The digest of the file's bytes, or the open/read error unchanged |
| Hash.HashToString | src/hash.rs:18-20 | The hex of the digest, of twice its length and lower case; errors unchanged |
| LowerHex.LowerHexOf | src/fmt.rs:5-12 | The text of the `LowerHex` impl; the lemmas below relate it to `fmt_hex` |
| LowerHex.Formatter.WriteStr | src/fmt.rs:8 | Appends to what was written |
| LowerHex.Fmt | src/fmt.rs:5-12 | The loop writes `LowerHexOf(bytes)` after what was there |
| LowerHex.LowerHexOfAppend | src/fmt.rs:7-10 | In-order concatenation of byte renderings |
| LowerHex.LowerHexOfEmpty | src/fmt.rs:7-11 | Empty input, empty output |
| LowerHex.LowerHexOfLength | src/fmt.rs:7-10 | Between `n` and `2n` characters |
| LowerHex.LowerHexOfAlphabet | src/fmt.rs:8 | Only lower-case hex digits |
| LowerHex.SmallByteIsOneDigit | src/fmt.rs:8 | A byte below 16 is one character, unlike `fmt_hex` |
| LowerHex.LowerHexOfAgreesWithHexOf | src/fmt.rs:7-10 | Without bytes below 16 it coincides with `fmt_hex` |
| LowerHex.NotInjective | src/fmt.rs:7-10 | `[0x01,0x00]` and `[0x10]` both render as `10` |
| Iter.AllItemsMatch | src/iter.rs:9-18 | `all_items_match`; the lemmas below state that it means all items are equal |
| Iter.AllEqualMeansEvery | src/iter.rs:17 | `all(x == head)` holds iff every item equals the head |
| Iter.AllItemsMatchMeansEveryEqualsHead | src/iter.rs:9-18 | True iff every item equals the first |
| Iter.AllItemsMatchMeansPairwiseEqual | src/iter.rs:9-18 | True iff every two items are equal |
| Iter.AllItemsMatchShort | src/iter.rs:12-17 | Empty and single-item sequences match |
| Iter.AllItemsMatchPair | src/iter.rs:9-18 | For `[a, b]` the result is `a == b` |
| Iter.AllItemsMatchAppend | src/iter.rs:17 | Appending keeps it true iff it was and the item equals the head |
| Compare.Blake3Build | src/compare.rs:21-30 | `Blake3Comparer::build`: the BLAKE3 digest of the file's bytes, or the open/read error; `IdenticalFilesMatch` states that equal bytes compare equal |
| Compare.CollectPair | src/compare.rs:75-79 | Ok with both outputs in order iff both builds succeed; otherwise an error of a failed build |
| Compare.CompareWith | src/compare.rs:71-89 | Ok iff both builds succeed, then true iff the outputs are equal; a build error becomes `Io` |
| Compare.CompareWithReflexive | src/compare.rs:14 | A buildable file equals itself |
| Compare.CompareWithSymmetric | src/compare.rs:75-81 | Swapping the paths changes at most which error is kept |
| Compare.ScheduleIndependence | src/compare.rs:75-81 | Which build finishes first never changes success or the answer |
| Compare.IdenticalFilesMatch | src/compare.rs:24-29 | Under the BLAKE3 comparer, files with equal bytes are equal |
| Compare.Step | src/compare.rs:53-66 | One iteration of the loop; `StepResult` and `StepReport` state its result and its one report |
| Compare.Contents | src/compare.rs:52-67 | The specification of `compare_contents`; `ContentsResult`, `ContentsLog` and `ErrorAborts` state its result and its reports |
| Compare.CompareContents | src/compare.rs:43-69 | The loop computes `Contents`: result and reports |
| Compare.ErrorAborts | src/compare.rs:55 | After the first error later entries change nothing |
| Compare.ContentsResult | src/compare.rs:52-68 | Err iff some entry present on both sides cannot be built; otherwise true (failure) iff some entry is missing on the right or differs |
| Compare.RightOnlyIrrelevant | src/compare.rs:54 | Only the answers of `right.get` for the left's paths matter |
| Compare.VerboseOnlyAddsMatches | src/compare.rs:57-60 | `verbose` leaves the result and the non-`match` reports unchanged |
| Compare.QuietHasNoMatches | src/compare.rs:57-60 | Not verbose: no `match` report |
| Compare.ContentsReports | src/compare.rs:53-66 | Run to the end: `missing rel` exactly for entries absent on the right; `MISMATCH abs` exactly for differing entries; `match rel` exactly for equal ones when verbose |
| Compare.ContentsLog | src/compare.rs:53-85 | Run to the end: one report per left entry, in left order (`missing`, `MISMATCH` or `match`), with the `match` reports dropped when not verbose |
| Compare.StepResult | src/compare.rs:54-65 | One step fails iff its entry is on both sides and cannot be built, with an IO error; otherwise it raises the flag iff the entry is missing or differs |
| Compare.ReportsOf | src/compare.rs:53-85 | One report per entry, in order, each that entry's `ReportFor` |
| Cli.GetAlgorithm | src/cli.rs:122-137 | `get_algorithm`; `GetAlgorithmFirstPresent` and `GetAlgorithmNoFlag` state the priority order and the default |
| Cli.IntoCommand | src/cli.rs:30-76 | `into_command`: fails only with a compare path, with `IllegalComparison`; `CompareSelection` and `HashSelection` state the choice |
| Cli.GetAlgorithmFirstPresent | src/cli.rs:122-132 | The first present flag in the order blake3, md5, sha1, sha256, sha512 wins, with its own checksum |
| Cli.GetAlgorithmNoFlag | src/cli.rs:133-136 | No flag: `(Sha1, None)`, the default algorithm |
| Cli.CompareSelection | src/cli.rs:34-60 | With a compare path: Ok iff both are directories or both files; directories give `CompareTrees` with `force` and `hidden`; files give `CompareFiles` (the source's `Command::Compare`); else `IllegalComparison(File)` if the left is a file, else `(Dir)` |
| Cli.HashingIgnoredWhenComparing | src/cli.rs:34-63 | Hashing flags are not consulted when comparing |
| Cli.HashSelection | src/cli.rs:63-75 | Without a compare path: never fails, ignores the filesystem, `Assert` iff a checksum is given, else `Print` |
| Cli.FlagExample | src/cli.rs:122-132 | `--md5` alone prints MD5; `--blake3 ab` overrides it |
| Program.Ancestors | src/main.rs:191-192 | The path, then every shorter prefix, down to the root |
| Program.AncestorIffPrefix | src/main.rs:191-192 | Ancestors are exactly the prefixes, the path included |
| Program.EnsureDistinct | src/main.rs:187-198 | `ensure_distinct`: fails only with an IO error or `InvalidOperation(Child)`; `EnsureDistinctIff` states when |
| Program.EnsureDistinctIff | src/main.rs:187-198 | `InvalidOperation(Child)` iff one canonical path is a prefix of the other (equal included); canonicalize errors first, left first |
| Program.GetRelativePath | src/main.rs:218-220 | `Some(rel)` iff base is a component-wise prefix, and then `base + rel == p` |
| Program.RelativePathUnique | src/main.rs:218-220 | The relative path is the unique `rel` with `base + rel == p` |
| Program.Keep | src/main.rs:205-215 | The `read_files` filter; `FilterExamples` and `ReadFilesMembers` state that it keeps readable regular files whose own name does not start with `.` |
| Program.ReadFiles | src/main.rs:200-216 | `read_files`: lists at most one path per walk entry; `ReadFilesMembers` and `ReadFilesAppend` state which and in what order |
| Program.ReadFilesMembers | src/main.rs:200-216 | A path is listed iff some walk entry is readable, a regular file, and its last component does not start with `.` |
| Program.ReadFilesAppend | src/main.rs:200-216 | Walk order is kept |
| Program.FilterExamples | src/main.rs:205-215 | Only the last component is tested; directories, symbolic links and unreadable metadata are dropped |
| Program.LeftEntries | src/main.rs:161-163 | Every left entry pairs a listed file with the relative path for which `base + rel` is the file |
| Program.LeftEntriesAppend | src/main.rs:161-163 | The left entries follow the order of the listed files |
| Program.LeftEntriesOnePerFile | src/main.rs:161-163 | With every file under the root: exactly one entry per file, in order, with its relative path |
| Program.LeftEntriesComplete | src/main.rs:161-163 | Every listed file under the root appears |
| Program.Index | src/main.rs:165-169 | The right-hand map; `IndexContents` states its keys and values |
| Program.IndexContents | src/main.rs:165-169 | The index holds exactly the relative paths of files under the root, each mapped to root + rel |
| Program.BuildIndex | src/main.rs:165-169 | The `collect` loop builds `Index` |
| Program.DirsOutcome | src/main.rs:158-185 | The specification of `compare_dirs`; `NestedTreesRefused`, `FullComparisonSucceedsIff` and `ExtraRightFileIgnored` state its promises |
| Program.CompareDirs | src/main.rs:158-185 | Computes `DirsOutcome`: distinctness first, BLAKE3 iff forced, success iff no failure |
| Program.NestedTreesRefused | src/main.rs:158-159 | Nested trees are refused before any comparison, with no report |
| Program.FullComparisonSucceedsIff | src/main.rs:171-182 | Forced comparison succeeds iff no left entry is missing on the right or differs in BLAKE3 digest |
| Program.ExtraRightFileIgnored | src/main.rs:165-175 | A right file whose relative path the left lacks changes nothing |
| Program.AssertHash | src/main.rs:69-72 | The `--assert` action: fails only with an IO error; `AssertHashIff` states when it holds |
| Program.CompareHashStr | src/main.rs:112-123 | `compare_hash_str`, an uncased comparison; `Ascii.EqIgnoreAsciiCaseIsFolding` states it compares the lower-case foldings |
| Program.AssertHashIff | src/main.rs:69-72 | The assertion holds iff the target is readable and the given hash, in any case, decodes to its digest |
| Program.CompareFiles | src/main.rs:125-142 | Ok iff both files are readable, then true iff their BLAKE3 digests are equal |
| Program.CompareFilesIsCompareWith | src/main.rs:125-142 | It is the BLAKE3 comparer's `compare_with` |
| Program.PrintLine | src/main.rs:84-90 | One printed line of `print_hash`; `PrintHash` and `PrintLineReadsBack` state its two shapes and that it reads back as a manifest line |
| Program.PrintHash | src/main.rs:79-93 | One line per file up to the first error: bare hash if exactly one file, else hash, two spaces, path; the error ends it |
| Program.PrintLineReadsBack | src/main.rs:88 | A printed `hash  path` line parses back through the manifest pattern |
| Program.ApplyChecksums | src/main.rs:101-110 | Load errors are returned; otherwise one printed validation per item up to the first IO error, which is returned |
| Program.Dispatch | src/main.rs:40-77 | `run`'s choice of action; the three lemmas below state its priority order |
| Program.SubcommandWins | src/main.rs:46-48 | A subcommand overrides every other argument |
| Program.CompareBeforeAssert | src/main.rs:56-63 | A compare path overrides assertion and mode; file target gives file comparison, otherwise trees |
| Program.AssertBeforePrint | src/main.rs:69-76 | Otherwise the target's kind is unused; assert iff a hash is given, under the mode |
| Fs.ReadToString | src/hk.rs:23 | Text iff the file is readable and decodes; undecodable gives `InvalidData` |
| Fs.Extension | src/hk.rs:75 | The text after the last dot when that dot is not the name's first character; none without a dot, for a name whose only dot leads, and for `.`/`..` |
| Fs.ExtensionExamples | src/hk.rs:75 | `sums.md5` gives `md5`, `a.b.SHA256` gives `SHA256`, `.md5` and `..` give none |
| Fs.Parent | src/hk.rs:35 | All components but the last |

## Left out

- Filesystem access, walking, streaming IO, `canonicalize`, `is_file`/`is_dir`: inputs (a map, a walk sequence, functions).
- The digest algorithms (functions of the bytes) and the `imprint` fingerprint (a function of the path): uninterpreted. `Alg.HashWidth` assumes the standard output sizes.
- rayon's parallel builds: two builds collected in order. A `Schedule` input picks which error is kept when both fail.
- Colouring, `eprintln!` and exit codes: output is a returned log. `process::exit(1)` is `Ok(false)`.
- `Args::parse`, `Args::validate` and `args.target()` are not part of this model. `Args` is taken as already validated.
- The clap derive attributes and the `resource` argument group are not modelled.
- The `CHECKSUM_DEFAULT_ALG` key is never read.
- The `hidden` option: `read_files` never consults it, so the dotfile filter is unconditional. `Cli.CompareSelection` only carries the flag.
- Fs.Join: joins one name as one component. An absolute name replacing the base, and names holding `/`, are not modelled.
- Fs.ShowPath: joins components with `/`, with no platform-specific display.
- Command-line path strings in `Program` are taken as already split into components.
- Paths are normalised sequences of UTF-8 components. `Fs.FileName` gives none for a last component `.`, which `components()` would have normalised away. The lossy decoding (`to_string_lossy`) of a file name or extension that is not UTF-8 is not modelled.
- LowerHex.Fmt: a formatter write never fails, so the `?` error path is absent.
- `src/error.rs` messages are not modelled; `Common.Error` replaces the type.
- Hk.Validator.Next: the lifetime-bound borrow of the task is a copy of it.
