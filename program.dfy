/** The commands of src/main.rs: which action `run` picks, the helpers of
    the tree comparison (ancestor check, relative paths, the file filter,
    the right-hand index), and the actions that hash, assert, compare and
    apply a manifest. Command-line paths are taken as already split into
    components. */
module Program {
  import opened Common
  import opened Fs
  import Ascii
  import Hex = Hash
  import Alg
  import Iter
  import EP = EntryPattern
  import Hk
  import Cmp = Compare

  // ---------------------------------------------------------------------
  // ensure_distinct

  /** `a` is a component-wise prefix of `p`. */
  predicate IsPrefix(a: Path, p: Path)
  {
    |a| <= |p| && p[..|a|] == a
  }

  /** `Path::ancestors`: the path itself, then each parent, up to the root. */
  function Ancestors(p: Path): (r: seq<Path>)
    ensures |r| == |p| + 1
    ensures forall i :: 0 <= i < |r| ==> r[i] == p[..|p| - i]
  {
    if p == [] then [[]] else [p] + Ancestors(p[..|p| - 1])
  }

  /** The ancestors of a path are exactly its prefixes, the path included. */
  lemma AncestorIffPrefix(a: Path, p: Path)
    ensures a in Ancestors(p) <==> IsPrefix(a, p)
  {
    if IsPrefix(a, p) {
      assert Ancestors(p)[|p| - |a|] == a;
    }
  }

  /** `ensure_distinct`: canonicalize both sides (left first), then refuse
      when either is an ancestor of the other. */
  function EnsureDistinct(canonicalize: Path -> IoResult<Path>, left: Path, right: Path): (r: Result<(), Error>)
    ensures r.Err? ==> r.error.Io? || r.error == InvalidOperation(Child)
  {
    match canonicalize(left)
    case Err(e) => Err(Io(e))
    case Ok(l) =>
      match canonicalize(right)
      case Err(e) => Err(Io(e))
      case Ok(r) =>
        if r in Ancestors(l) || l in Ancestors(r) then Err(InvalidOperation(Child)) else Ok(())
  }

  /** The trees are refused exactly when one canonical path is a prefix of
      the other, equal paths included; a failed canonicalization is
      reported first, the left one before the right. */
  lemma EnsureDistinctIff(canonicalize: Path -> IoResult<Path>, left: Path, right: Path)
    ensures canonicalize(left).Err? ==> EnsureDistinct(canonicalize, left, right) == Err(Io(canonicalize(left).error))
    ensures canonicalize(left).Ok? && canonicalize(right).Err? ==>
      EnsureDistinct(canonicalize, left, right) == Err(Io(canonicalize(right).error))
    ensures canonicalize(left).Ok? && canonicalize(right).Ok? ==>
      var l, r := canonicalize(left).value, canonicalize(right).value;
      (EnsureDistinct(canonicalize, left, right) == Err(InvalidOperation(Child)) <==> IsPrefix(l, r) || IsPrefix(r, l))
      && (EnsureDistinct(canonicalize, left, right).Ok? <==> !IsPrefix(l, r) && !IsPrefix(r, l))
  {
    if canonicalize(left).Ok? && canonicalize(right).Ok? {
      var l, r := canonicalize(left).value, canonicalize(right).value;
      AncestorIffPrefix(r, l);
      AncestorIffPrefix(l, r);
    }
  }

  // ---------------------------------------------------------------------
  // get_relative_path and read_files

  /** `get_relative_path`, i.e. `Path::strip_prefix`: compare components
      from the front; what remains once `base` is used up is the relative
      path. */
  function GetRelativePath(base: Path, p: Path): (r: Option<Path>)
    ensures r.Some? <==> IsPrefix(base, p)
    ensures r.Some? ==> base + r.value == p
  {
    if base == [] then Some(p)
    else if p == [] || p[0] != base[0] then None
    else
      match GetRelativePath(base[1..], p[1..])
      case None => None
      case Some(rel) =>
        assert base + rel == [base[0]] + (base[1..] + rel);
        Some(rel)
  }

  /** Relative paths are unique: `base + rel == p` fixes `rel`. */
  lemma RelativePathUnique(base: Path, p: Path, rel: Path)
    requires base + rel == p
    ensures GetRelativePath(base, p) == Some(rel)
  {
    assert p[..|base|] == base;
    assert p[|base|..] == rel;
    var r := GetRelativePath(base, p).value;
    assert (base + r)[|base|..] == r;
  }

  /** A dotfile: its name starts with `.`. */
  predicate IsHiddenName(name: string)
  {
    |name| > 0 && name[0] == '.'
  }

  /** The `read_files` filter: the walk reached the entry, its metadata is
      readable and says regular file, and its own name does not start with
      `.`; the directories it lies in are not looked at. */
  predicate Keep(e: WalkEntry)
  {
    && e.Walked?
    && e.metadata == Ok(RegularFile)
    && FileName(e.path).Some?
    && !IsHiddenName(FileName(e.path).value)
  }

  /** `read_files`: the kept entries' paths, in walk order. */
  function ReadFiles(walk: seq<WalkEntry>): (files: seq<Path>)
    ensures |files| <= |walk|
  {
    if walk == [] then []
    else (if Keep(walk[0]) then [walk[0].path] else []) + ReadFiles(walk[1..])
  }

  /** A path is listed exactly when some walk entry for it is kept. */
  lemma {:induction false} ReadFilesMembers(walk: seq<WalkEntry>, p: Path)
    ensures p in ReadFiles(walk) <==> exists k :: 0 <= k < |walk| && Keep(walk[k]) && walk[k].path == p
  {
    if walk != [] {
      ReadFilesMembers(walk[1..], p);
      assert forall k :: 1 <= k < |walk| ==> walk[k] == walk[1..][k - 1];
      if p in ReadFiles(walk[1..]) {
        var k :| 0 <= k < |walk[1..]| && Keep(walk[1..][k]) && walk[1..][k].path == p;
        assert walk[k + 1] == walk[1..][k];
      }
    }
  }

  /** Walk order is kept: the listing of a longer walk extends the listing
      of its first part. */
  lemma {:induction false} ReadFilesAppend(a: seq<WalkEntry>, b: seq<WalkEntry>)
    ensures ReadFiles(a + b) == ReadFiles(a) + ReadFiles(b)
  {
    if a == [] {
      assert a + b == b;
    } else {
      var head := if Keep(a[0]) then [a[0].path] else [];
      assert (a + b)[0] == a[0] && (a + b)[1..] == a[1..] + b;
      assert ReadFiles(a + b) == head + ReadFiles(a[1..] + b);
      ReadFilesAppend(a[1..], b);
      assert ReadFiles(a) == head + ReadFiles(a[1..]);
    }
  }

  /** Only the last component is tested: a file inside `.git` is listed, a
      file named `.env` is not, and neither is a directory or a symbolic
      link. */
  lemma FilterExamples()
    ensures Keep(Walked(["t", ".git", "config"], Ok(RegularFile)))
    ensures !Keep(Walked(["t", ".env"], Ok(RegularFile)))
    ensures !Keep(Walked(["t", "src"], Ok(Directory)))
    ensures !Keep(Walked(["t", "link"], Ok(Symlink)))
    ensures !Keep(Walked(["t", "f"], Err(PermissionDenied)))
  {
  }

  /** The left tree: its files paired with their paths relative to `base`. */
  function LeftEntries(base: Path, files: seq<Path>): (entries: seq<Cmp.Entry>)
    ensures forall k :: 0 <= k < |entries| ==> base + entries[k].0 == entries[k].1 && entries[k].1 in files
  {
    if files == [] then []
    else
      (match GetRelativePath(base, files[0])
       case None => []
       case Some(rel) => [(rel, files[0])])
      + LeftEntries(base, files[1..])
  }

  /** The left entries follow the order of the listed files. */
  lemma {:induction false} LeftEntriesAppend(base: Path, a: seq<Path>, b: seq<Path>)
    ensures LeftEntries(base, a + b) == LeftEntries(base, a) + LeftEntries(base, b)
  {
    if a == [] {
      assert a + b == b;
    } else {
      assert (a + b)[0] == a[0] && (a + b)[1..] == a[1..] + b;
      LeftEntriesAppend(base, a[1..], b);
    }
  }

  /** When every listed file lies under `base`, there is one left entry per
      file, in the same order, with its relative path. */
  lemma {:induction false} LeftEntriesOnePerFile(base: Path, files: seq<Path>)
    requires forall k :: 0 <= k < |files| ==> IsPrefix(base, files[k])
    ensures |LeftEntries(base, files)| == |files|
    ensures forall k :: 0 <= k < |files| ==>
      LeftEntries(base, files)[k] == (GetRelativePath(base, files[k]).value, files[k])
  {
    if files != [] {
      assert IsPrefix(base, files[0]);
      LeftEntriesOnePerFile(base, files[1..]);
      assert forall k :: 1 <= k < |files| ==> files[1..][k - 1] == files[k];
    }
  }

  /** Every file under `base` appears on the left with its relative path. */
  lemma {:induction false} LeftEntriesComplete(base: Path, files: seq<Path>, k: nat)
    requires k < |files| && IsPrefix(base, files[k])
    ensures (GetRelativePath(base, files[k]).value, files[k]) in LeftEntries(base, files)
  {
    if k > 0 {
      LeftEntriesComplete(base, files[1..], k - 1);
    }
  }

  /** The right-hand index `collect` builds: relative path to absolute path;
      a later file with the same relative path replaces an earlier one. */
  function Index(base: Path, files: seq<Path>): map<Path, Path>
  {
    if files == [] then map[]
    else
      var prev := Index(base, files[..|files| - 1]);
      match GetRelativePath(base, files[|files| - 1])
      case None => prev
      case Some(rel) => prev[rel := files[|files| - 1]]
  }

  /** The index holds exactly the relative paths of the files under
      `base`, and maps each back to `base` joined with it. */
  lemma {:induction false} IndexContents(base: Path, files: seq<Path>, rel: Path)
    ensures rel in Index(base, files) <==> exists k :: 0 <= k < |files| && GetRelativePath(base, files[k]) == Some(rel)
    ensures rel in Index(base, files) ==> Index(base, files)[rel] == base + rel
  {
    if files != [] {
      var init := files[..|files| - 1];
      IndexContents(base, init, rel);
      assert forall k :: 0 <= k < |init| ==> init[k] == files[k];
      if GetRelativePath(base, files[|files| - 1]) == Some(rel) {
        assert base + rel == files[|files| - 1];
      }
    }
  }

  /** The `collect` into a `HashMap`: insert each file under its relative
      path, in walk order. */
  method BuildIndex(base: Path, files: seq<Path>) returns (index: map<Path, Path>)
    ensures index == Index(base, files)
  {
    index := map[];
    for i := 0 to |files|
      invariant index == Index(base, files[..i])
    {
      assert files[..i + 1][..i] == files[..i];
      var rel := GetRelativePath(base, files[i]);
      if rel.Some? {
        index := index[rel.value := files[i]];
      }
    }
    assert files[..|files|] == files;
  }

  // ---------------------------------------------------------------------
  // compare_dirs

  /** What `compare_dirs` does: refuse nested trees before walking
      anything, compare with the full comparer when forced and with the
      quick one otherwise, and succeed (print `True`) exactly when no
      failure was found; `Ok(false)` stands for the exit with status 1. */
  function DirsOutcome<T(==)>(canonicalize: Path -> IoResult<Path>, left: Path, right: Path,
                              leftWalk: seq<WalkEntry>, rightWalk: seq<WalkEntry>, full: bool, verbose: bool,
                              fs: FileSystem, suite: Alg.DigestSuite, imprint: Cmp.Build<T>,
                              sched: Cmp.Schedule): Cmp.Outcome
  {
    match EnsureDistinct(canonicalize, left, right)
    case Err(e) => Cmp.Outcome(Err(e), [])
    case Ok(_) =>
      var entries := LeftEntries(left, ReadFiles(leftWalk));
      var index := Index(right, ReadFiles(rightWalk));
      var c := if full then Cmp.Contents(Cmp.Blake3Build(fs, suite), entries, index, verbose, sched)
               else Cmp.Contents(imprint, entries, index, verbose, sched);
      match c.result
      case Err(e) => c
      case Ok(hasFailure) => Cmp.Outcome(Ok(!hasFailure), c.log)
  }

  /** `compare_dirs`. */
  method CompareDirs<T(==)>(canonicalize: Path -> IoResult<Path>, left: Path, right: Path,
                            leftWalk: seq<WalkEntry>, rightWalk: seq<WalkEntry>, full: bool, verbose: bool,
                            fs: FileSystem, suite: Alg.DigestSuite, imprint: Cmp.Build<T>, sched: Cmp.Schedule)
    returns (r: Result<bool, Error>, log: seq<Cmp.Report>)
    ensures Cmp.Outcome(r, log)
      == DirsOutcome(canonicalize, left, right, leftWalk, rightWalk, full, verbose, fs, suite, imprint, sched)
  {
    var distinct := EnsureDistinct(canonicalize, left, right);
    if distinct.Err? {
      return Err(distinct.error), [];
    }
    var entries := LeftEntries(left, ReadFiles(leftWalk));
    var index := BuildIndex(right, ReadFiles(rightWalk));
    var hasFailure;
    if full {
      hasFailure, log := Cmp.CompareContents(Cmp.Blake3Build(fs, suite), entries, index, verbose, sched);
    } else {
      hasFailure, log := Cmp.CompareContents(imprint, entries, index, verbose, sched);
    }
    if hasFailure.Err? {
      return Err(hasFailure.error), log;
    }
    return Ok(!hasFailure.value), log;
  }

  /** Nested trees are refused before any file is compared. */
  lemma NestedTreesRefused<T>(canonicalize: Path -> IoResult<Path>, left: Path, right: Path,
                              leftWalk: seq<WalkEntry>, rightWalk: seq<WalkEntry>, full: bool, verbose: bool,
                              fs: FileSystem, suite: Alg.DigestSuite, imprint: Cmp.Build<T>, sched: Cmp.Schedule)
    requires canonicalize(left).Ok? && canonicalize(right).Ok?
    requires IsPrefix(canonicalize(left).value, canonicalize(right).value)
      || IsPrefix(canonicalize(right).value, canonicalize(left).value)
    ensures DirsOutcome(canonicalize, left, right, leftWalk, rightWalk, full, verbose, fs, suite, imprint, sched)
      == Cmp.Outcome(Err(InvalidOperation(Child)), [])
  {
    EnsureDistinctIff(canonicalize, left, right);
  }

  /** With the full comparer, the trees compare as equal exactly when
      every left file under the left root has a right counterpart at the
      same relative path with the same BLAKE3 digest. */
  lemma FullComparisonSucceedsIff(canonicalize: Path -> IoResult<Path>, left: Path, right: Path,
                                  leftWalk: seq<WalkEntry>, rightWalk: seq<WalkEntry>, verbose: bool,
                                  fs: FileSystem, suite: Alg.DigestSuite, sched: Cmp.Schedule)
    requires EnsureDistinct(canonicalize, left, right).Ok?
    requires DirsOutcome(canonicalize, left, right, leftWalk, rightWalk, true, verbose, fs, suite,
                         Cmp.Blake3Build(fs, suite), sched).result.Ok?
    ensures var entries := LeftEntries(left, ReadFiles(leftWalk));
      var index := Index(right, ReadFiles(rightWalk));
      DirsOutcome(canonicalize, left, right, leftWalk, rightWalk, true, verbose, fs, suite,
                  Cmp.Blake3Build(fs, suite), sched).result.value
      <==> forall k :: 0 <= k < |entries| ==> !Cmp.Fails(Cmp.Blake3Build(fs, suite), index, entries[k])
  {
    var entries := LeftEntries(left, ReadFiles(leftWalk));
    var index := Index(right, ReadFiles(rightWalk));
    Cmp.ContentsResult(Cmp.Blake3Build(fs, suite), entries, index, verbose, sched);
  }

  /** A right-hand file whose relative path no left file has is never
      examined, so adding one changes nothing. */
  lemma ExtraRightFileIgnored<T>(right: Path, rightFiles: seq<Path>, extra: Path, entries: seq<Cmp.Entry>,
                                 build: Cmp.Build<T>, verbose: bool, sched: Cmp.Schedule)
    requires IsPrefix(right, extra)
    requires forall k :: 0 <= k < |entries| ==> entries[k].0 != GetRelativePath(right, extra).value
    ensures Cmp.Contents(build, entries, Index(right, rightFiles + [extra]), verbose, sched)
      == Cmp.Contents(build, entries, Index(right, rightFiles), verbose, sched)
  {
    assert (rightFiles + [extra])[..|rightFiles|] == rightFiles;
    Cmp.RightOnlyIrrelevant(build, entries, Index(right, rightFiles + [extra]), Index(right, rightFiles), verbose, sched);
  }

  // ---------------------------------------------------------------------
  // compare_hash_str, compare_files, print_hash

  /** `compare_hash_str`: `True` exactly when equal ignoring ASCII case. */
  predicate CompareHashStr(left: string, right: string)
  {
    Ascii.EqIgnoreAsciiCase(left, right)
  }

  /** The `--assert` action: hash the target (an IO error ends it), then
      compare with the given hash; `Ok(false)` stands for printing `False`
      and exiting with status 1. */
  function AssertHash(fs: FileSystem, suite: Alg.DigestSuite, mode: Alg.Algorithm, target: Path, hash: string)
    : (r: Result<bool, Error>)
    ensures r.Err? ==> r.error.Io?
  {
    match Alg.Hash(mode, suite, fs, target)
    case Err(e) => Err(Io(e))
    case Ok(actual) => Ok(CompareHashStr(actual, hash))
  }

  /** An assertion holds exactly when the given hash, in any mix of cases,
      is the hex of the target's digest. */
  lemma AssertHashIff(fs: FileSystem, suite: Alg.DigestSuite, mode: Alg.Algorithm, target: Path, hash: string)
    ensures AssertHash(fs, suite, mode, target, hash).Ok? <==> ReadFile(fs, target).Ok?
    ensures AssertHash(fs, suite, mode, target, hash) == Ok(true)
      <==> ReadFile(fs, target).Ok?
           && Hex.HexDecode(hash) == Some(Alg.DigestFor(mode, suite)(ReadFile(fs, target).value))
  {
    if ReadFile(fs, target).Ok? {
      Hex.HexMatchIffDecodes(Alg.DigestFor(mode, suite)(ReadFile(fs, target).value), hash);
    }
  }

  /** `compare_files`: BLAKE3 both files (whatever the chosen mode) and
      check the digests are uniform; `Ok(false)` stands for `False` and the
      exit with status 1. */
  function CompareFiles(fs: FileSystem, suite: Alg.DigestSuite, left: Path, right: Path, sched: Cmp.Schedule): (r: Result<bool, Error>)
    ensures r.Ok? <==> ReadFile(fs, left).Ok? && ReadFile(fs, right).Ok?
    ensures r.Ok? ==> (r.value <==> suite.blake3(ReadFile(fs, left).value) == suite.blake3(ReadFile(fs, right).value))
  {
    var l, rr := Hex.HashToDigest(fs, left, suite.blake3), Hex.HashToDigest(fs, right, suite.blake3);
    match Cmp.CollectPair(l, rr, sched)
    case Err(e) => Err(Io(e))
    case Ok(digests) =>
      Iter.AllItemsMatchPair(l.value, rr.value);
      Ok(Iter.AllItemsMatch(digests))
  }

  /** Comparing two files is the full tree comparer's `compare_with`,
      without its `MISMATCH` line. */
  lemma CompareFilesIsCompareWith(fs: FileSystem, suite: Alg.DigestSuite, left: Path, right: Path, sched: Cmp.Schedule)
    ensures CompareFiles(fs, suite, left, right, sched) == Cmp.CompareWith(Cmp.Blake3Build(fs, suite), left, right, sched)
  {
  }

  /** One line of `print_hash`: the bare hash when the walk found one file,
      else the hash, two spaces and the path. */
  function PrintLine(count: nat, hash: string, file: Path): string
  {
    if count == 1 then hash else hash + "  " + ShowPath(file)
  }

  /** The hash of every listed file, in order. */
  function HashesOf(mode: Alg.Algorithm, suite: Alg.DigestSuite, fs: FileSystem, files: seq<Path>): (hs: seq<IoResult<string>>)
    ensures |hs| == |files|
    ensures forall j :: 0 <= j < |files| ==> hs[j] == Alg.Hash(mode, suite, fs, files[j])
  {
    seq(|files|, j requires 0 <= j < |files| => Alg.Hash(mode, suite, fs, files[j]))
  }

  /** `print_hash`: a line per listed file in walk order; the first file
      that cannot be hashed ends it with that error. */
  method PrintHash(fs: FileSystem, suite: Alg.DigestSuite, mode: Alg.Algorithm, walk: seq<WalkEntry>)
    returns (r: Result<(), Error>, lines: seq<string>)
    ensures var files := ReadFiles(walk);
      var hs := HashesOf(mode, suite, fs, files);
      var k := FirstErr(hs);
      && |lines| == k
      && (forall j :: 0 <= j < k ==> lines[j] == PrintLine(|files|, hs[j].value, files[j]))
      && (r.Ok? <==> k == |files|)
      && (r.Err? ==> r.error == Io(hs[k].error))
  {
    var files := ReadFiles(walk);
    ghost var hs := HashesOf(mode, suite, fs, files);
    lines := [];
    for i := 0 to |files|
      invariant |lines| == i
      invariant forall j :: 0 <= j < i ==> hs[j].Ok? && lines[j] == PrintLine(|files|, hs[j].value, files[j])
    {
      var hash := Alg.Hash(mode, suite, fs, files[i]);
      if hash.Err? {
        return Err(Io(hash.error)), lines;
      }
      if |files| == 1 {
        lines := lines + [hash.value];
      } else {
        lines := lines + [hash.value + "  " + ShowPath(files[i])];
      }
    }
    return Ok(()), lines;
  }

  /** With several files, each printed line reads back through the
      manifest pattern as its hash and path, provided the path text is a
      valid name there (non-empty, no line feed, not led by whitespace or
      `*`). */
  lemma PrintLineReadsBack(count: nat, mode: Alg.Algorithm, suite: Alg.DigestSuite, fs: FileSystem, file: Path)
    requires count != 1
    requires ReadFile(fs, file).Ok?
    requires |Alg.DigestFor(mode, suite)(ReadFile(fs, file).value)| > 0
    requires var name := ShowPath(file);
      1 <= |name| && EP.NoLineFeed(name, 0) && !EP.IsWhitespace(name[0]) && name[0] != '*'
    ensures var hash := Alg.Hash(mode, suite, fs, file).value;
      EP.Parse(PrintLine(count, hash, file)) == Ok(EP.Entry(hash, ShowPath(file)))
  {
    var hash := Alg.Hash(mode, suite, fs, file).value;
    Hex.HexOfLength(Alg.DigestFor(mode, suite)(ReadFile(fs, file).value));
    assert EP.IsToken(hash);
    EP.TextModeLine(hash, ShowPath(file));
  }

  // ---------------------------------------------------------------------
  // apply_checksums

  /** The printed lines and the result of running through `items` up to
      the first error: one line per item before it, that error at the end. */
  predicate PrintedUntilError(items: seq<IoResult<Hk.Validation>>, r: Result<(), Error>, lines: seq<string>)
  {
    var k := FirstErr(items);
    && |lines| == k
    && (forall j :: 0 <= j < k ==> lines[j] == Hk.ShowValidation(items[j].value))
    && (r.Ok? <==> k == |items|)
    && (r.Err? ==> r.error == Io(items[k].error))
  }

  lemma LinesGrow(items: seq<IoResult<Hk.Validation>>, lines: seq<string>, at: nat, v: Hk.Validation)
    requires at < |items| && |lines| == at && items[at] == Ok(v)
    requires forall j :: 0 <= j < at ==> items[j].Ok? && lines[j] == Hk.ShowValidation(items[j].value)
    ensures forall j :: 0 <= j < at + 1 ==>
      items[j].Ok? && (lines + [Hk.ShowValidation(v)])[j] == Hk.ShowValidation(items[j].value)
  {
  }

  /** `apply_checksums`: load the manifest, then print each validation the
      validator yields; the first IO error ends it. */
  method ApplyChecksums(fs: FileSystem, utf8: seq<byte> -> Option<string>, suite: Alg.DigestSuite, manifest: Path)
    returns (r: Result<(), Error>, lines: seq<string>)
    ensures Hk.Load(fs, utf8, manifest).Err? ==> r == Err(Hk.Load(fs, utf8, manifest).error) && lines == []
    ensures Hk.Load(fs, utf8, manifest).Ok? ==>
      PrintedUntilError(Hk.Outcomes(Hk.Load(fs, utf8, manifest).value, suite, fs), r, lines)
  {
    var hashes := Hk.FromPath(fs, utf8, manifest);
    if hashes.Err? {
      return Err(hashes.error), [];
    }
    ghost var items := Hk.Outcomes(hashes.value, suite, fs);
    var validator := new Hk.Validator(hashes.value);
    lines := [];
    while true
      invariant validator.Valid()
      invariant validator.source == hashes.value.files && validator.algorithm == hashes.value.algorithm
      invariant |lines| == validator.position
      invariant forall j :: 0 <= j < validator.position ==> items[j].Ok? && lines[j] == Hk.ShowValidation(items[j].value)
      decreases |validator.source| - validator.position
    {
      ghost var at := validator.position;
      var item := validator.Next(suite, fs);
      if item.None? {
        FirstErrIs(items, at);
        r := Ok(());
        assert PrintedUntilError(items, r, lines);
        return;
      }
      assert item.value == items[at];
      if item.value.Err? {
        FirstErrIs(items, at);
        r := Err(Io(item.value.error));
        assert PrintedUntilError(items, r, lines);
        return;
      }
      LinesGrow(items, lines, at, item.value.value);
      lines := lines + [Hk.ShowValidation(item.value.value)];
    }
  }

  // ---------------------------------------------------------------------
  // run

  /** The arguments `run` reads. */
  datatype Args = Args(
    command: Option<Path>,
    target: Path,
    compare: Option<Path>,
    assertion: Option<string>,
    mode: Alg.Algorithm,
    forceFullCompare: bool,
    verbose: bool)

  /** The action `run` hands over to. */
  datatype Action =
    | ApplyManifest(manifest: Path)
    | CompareFilePair(left: Path, right: Path)
    | CompareTrees(left: Path, right: Path, full: bool, verbose: bool)
    | AssertTarget(target: Path, hash: string, mode: Alg.Algorithm)
    | PrintTarget(target: Path, mode: Alg.Algorithm)

  /** `run`: a subcommand first, then a comparison (of files when the
      target is a file, else of trees), then an assertion, else printing. */
  function Dispatch(args: Args, targetIsFile: bool): Action
  {
    if args.command.Some? then ApplyManifest(args.command.value)
    else if args.compare.Some? then
      if targetIsFile then CompareFilePair(args.target, args.compare.value)
      else CompareTrees(args.target, args.compare.value, args.forceFullCompare, args.verbose)
    else if args.assertion.Some? then AssertTarget(args.target, args.assertion.value, args.mode)
    else PrintTarget(args.target, args.mode)
  }

  /** A subcommand overrides every other argument. */
  lemma SubcommandWins(args: Args, other: Args, targetIsFile: bool, otherIsFile: bool)
    requires args.command.Some? && other.command == args.command
    ensures Dispatch(args, targetIsFile) == Dispatch(other, otherIsFile) == ApplyManifest(args.command.value)
  {
  }

  /** A compare path overrides an assertion and the mode: comparing files
      always uses BLAKE3, and the action depends only on the target's kind. */
  lemma CompareBeforeAssert(args: Args, hash: Option<string>, mode: Alg.Algorithm, targetIsFile: bool)
    requires args.command.None? && args.compare.Some?
    ensures Dispatch(args, targetIsFile) == Dispatch(args.(assertion := hash, mode := mode), targetIsFile)
    ensures Dispatch(args, targetIsFile).CompareFilePair? <==> targetIsFile
    ensures Dispatch(args, targetIsFile).CompareTrees? <==> !targetIsFile
  {
  }

  /** Without a subcommand or a compare path the target's kind is never
      consulted, and an asserted hash is checked under the chosen mode. */
  lemma AssertBeforePrint(args: Args, targetIsFile: bool, otherIsFile: bool)
    requires args.command.None? && args.compare.None?
    ensures Dispatch(args, targetIsFile) == Dispatch(args, otherIsFile)
    ensures Dispatch(args, targetIsFile).AssertTarget? <==> args.assertion.Some?
    ensures Dispatch(args, targetIsFile).mode == args.mode
  {
  }
}
