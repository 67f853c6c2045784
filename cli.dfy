/** Command selection (src/cli.rs): from the parsed options and what the
    filesystem says about the two paths, the command to run. Whether a path
    is a directory or a file is an input. */
module Cli {
  import opened Common
  import Alg

  /** The five hashing flags; each may be absent, present bare, or present
      with a checksum to compare against. */
  datatype Hashing = Hashing(
    blake3: Option<Option<string>>,
    md5: Option<Option<string>>,
    sha1: Option<Option<string>>,
    sha256: Option<Option<string>>,
    sha512: Option<Option<string>>)

  /** `Hashing::get_algorithm`: the first flag present wins, with its
      checksum; with none, SHA-1 and no checksum. */
  function GetAlgorithm(h: Hashing): (Alg.Algorithm, Option<string>)
  {
    if h.blake3.Some? then (Alg.Blake3, h.blake3.value)
    else if h.md5.Some? then (Alg.Md5, h.md5.value)
    else if h.sha1.Some? then (Alg.Sha1, h.sha1.value)
    else if h.sha256.Some? then (Alg.Sha256, h.sha256.value)
    else if h.sha512.Some? then (Alg.Sha512, h.sha512.value)
    else (Alg.Sha1, None)
  }

  /** The flags in their order of priority, each with its algorithm. */
  function Flags(h: Hashing): (flags: seq<(Alg.Algorithm, Option<Option<string>>)>)
    ensures |flags| == 5
  {
    [(Alg.Blake3, h.blake3), (Alg.Md5, h.md5), (Alg.Sha1, h.sha1), (Alg.Sha256, h.sha256), (Alg.Sha512, h.sha512)]
  }

  /** The chosen algorithm is that of the first present flag in the order
      blake3, md5, sha1, sha256, sha512, and the checksum is the one given
      with that flag. */
  lemma GetAlgorithmFirstPresent(h: Hashing, k: nat)
    requires k < 5 && Flags(h)[k].1.Some?
    requires forall j :: 0 <= j < k ==> Flags(h)[j].1.None?
    ensures GetAlgorithm(h) == (Flags(h)[k].0, Flags(h)[k].1.value)
  {
    var f := Flags(h);
    if k > 0 { assert f[0].1.None?; }
    if k > 1 { assert f[1].1.None?; }
    if k > 2 { assert f[2].1.None?; }
    if k > 3 { assert f[3].1.None?; }
  }

  /** With no flag present the default algorithm is used, without a checksum. */
  lemma GetAlgorithmNoFlag(h: Hashing)
    requires forall j :: 0 <= j < 5 ==> Flags(h)[j].1.None?
    ensures GetAlgorithm(h) == (Alg.DefaultAlgorithm(), None)
  {
    var f := Flags(h);
    assert f[0].1.None? && f[1].1.None? && f[2].1.None? && f[3].1.None? && f[4].1.None?;
  }

  /** The parsed command line. */
  datatype Opts = Opts(path: string, compare: Option<string>, hashing: Hashing, force: bool, hidden: bool)

  datatype Command =
    | Print(path: string, algorithm: Alg.Algorithm)
    | Assert(path: string, checksum: string, algorithm: Alg.Algorithm)
    | CompareFiles(left: string, right: string)
    | CompareTrees(left: string, right: string, force: bool, includeHiddenFiles: bool)

  /** `Opts::into_command`: with a compare path the two paths must be of
      the same kind (directories are tested first); otherwise the hashing
      flags decide between an assertion and printing. */
  function IntoCommand(opts: Opts, isDir: string -> bool, isFile: string -> bool): (r: Result<Command, Error>)
    ensures r.Err? ==> opts.compare.Some? && r.error.IllegalComparison?
  {
    match opts.compare
    case Some(compare) =>
      if isDir(opts.path) && isDir(compare) then
        Ok(CompareTrees(opts.path, compare, opts.force, opts.hidden))
      else if isFile(opts.path) && isFile(compare) then
        Ok(CompareFiles(opts.path, compare))
      else
        Err(IllegalComparison(if isFile(opts.path) then File else Dir))
    case None =>
      var (algorithm, checksum) := GetAlgorithm(opts.hashing);
      if checksum.Some? then Ok(Assert(opts.path, checksum.value, algorithm))
      else Ok(Print(opts.path, algorithm))
  }

  /** With a compare path the command is a comparison exactly when both
      paths are of the same kind; two directories give a tree comparison
      carrying `force` and `hidden`, and a mismatch is reported by the
      kind of the left path. */
  lemma CompareSelection(opts: Opts, isDir: string -> bool, isFile: string -> bool)
    requires opts.compare.Some?
    ensures var l, r := opts.path, opts.compare.value;
      IntoCommand(opts, isDir, isFile).Ok? <==> (isDir(l) && isDir(r)) || (isFile(l) && isFile(r))
    ensures var l, r := opts.path, opts.compare.value;
      IntoCommand(opts, isDir, isFile).Ok? ==>
        if isDir(l) && isDir(r) then IntoCommand(opts, isDir, isFile).value.CompareTrees?
          && IntoCommand(opts, isDir, isFile).value.force == opts.force
          && IntoCommand(opts, isDir, isFile).value.includeHiddenFiles == opts.hidden
        else IntoCommand(opts, isDir, isFile).value == CompareFiles(l, r)
    ensures IntoCommand(opts, isDir, isFile).Err? ==>
      IntoCommand(opts, isDir, isFile).error == IllegalComparison(if isFile(opts.path) then File else Dir)
  {
  }

  /** The hashing flags are consulted only when there is no compare path. */
  lemma HashingIgnoredWhenComparing(opts: Opts, hashing: Hashing, isDir: string -> bool, isFile: string -> bool)
    requires opts.compare.Some?
    ensures IntoCommand(opts, isDir, isFile) == IntoCommand(opts.(hashing := hashing), isDir, isFile)
  {
  }

  /** Without a compare path the command never fails and never looks at the
      filesystem: a checksum makes it an assertion, else it prints, in both
      cases with the chosen algorithm. */
  lemma HashSelection(opts: Opts, isDir: string -> bool, isFile: string -> bool, isDir': string -> bool,
                      isFile': string -> bool)
    requires opts.compare.None?
    ensures IntoCommand(opts, isDir, isFile) == IntoCommand(opts, isDir', isFile')
    ensures var (algorithm, checksum) := GetAlgorithm(opts.hashing);
      IntoCommand(opts, isDir, isFile)
        == if checksum.Some? then Ok(Assert(opts.path, checksum.value, algorithm)) else Ok(Print(opts.path, algorithm))
  {
  }

  /** A bare `--md5` flag, with an earlier-priority flag absent, prints the
      MD5 hash; adding `--blake3` overrides it. */
  lemma FlagExample(path: string)
    ensures var h := Hashing(None, Some(None), None, None, None);
      IntoCommand(Opts(path, None, h, false, false), _ => false, _ => false) == Ok(Print(path, Alg.Md5))
    ensures var h := Hashing(Some(Some("ab")), Some(None), None, None, None);
      IntoCommand(Opts(path, None, h, false, false), _ => false, _ => false) == Ok(Assert(path, "ab", Alg.Blake3))
  {
  }
}
