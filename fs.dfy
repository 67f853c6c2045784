/** The filesystem as the tool sees it: paths, file contents, the entries a
    directory walk yields, and the component-wise path queries of `std::path`. */
module Fs {
  import opened Common

  /** A path as the sequence of its components. The components of a
      canonical path are those below the filesystem root, so the root itself
      is the empty sequence. */
  type Path = seq<string>

  /** The contents of every readable file; a path that is absent does not
      exist, and a path mapped to an error cannot be opened or read. */
  type FileSystem = map<Path, IoResult<seq<byte>>>

  /** `File::open` followed by reading to the end. */
  function ReadFile(fs: FileSystem, p: Path): (r: IoResult<seq<byte>>)
    ensures p !in fs ==> r == Err(NotFound)
    ensures p in fs ==> r == fs[p]
  {
    if p in fs then fs[p] else Err(NotFound)
  }

  /** `fs::read_to_string`: the bytes must decode as text (`utf8` is the
      decoder), otherwise the read fails with `InvalidData`. */
  function ReadToString(fs: FileSystem, utf8: seq<byte> -> Option<string>, p: Path): (r: IoResult<string>)
    ensures r.Ok? <==> ReadFile(fs, p).Ok? && utf8(ReadFile(fs, p).value).Some?
    ensures r.Ok? ==> r.value == utf8(ReadFile(fs, p).value).value
    ensures ReadFile(fs, p).Err? ==> r == Err(ReadFile(fs, p).error)
    ensures ReadFile(fs, p).Ok? && utf8(ReadFile(fs, p).value).None? ==> r == Err(InvalidData)
  {
    match ReadFile(fs, p)
    case Err(e) => Err(e)
    case Ok(bytes) =>
      match utf8(bytes)
      case None => Err(InvalidData)
      case Some(text) => Ok(text)
  }

  /** `Path::file_name`: the last component, unless it is `.` or `..` or
      the path has no component at all. */
  function FileName(p: Path): (r: Option<string>)
    ensures r.Some? <==> |p| > 0 && p[|p| - 1] != "." && p[|p| - 1] != ".."
    ensures r.Some? ==> r.value == p[|p| - 1]
  {
    if |p| > 0 && p[|p| - 1] != "." && p[|p| - 1] != ".." then Some(p[|p| - 1]) else None
  }

  /** Index of the last `.` in `s`, if there is one. */
  function LastDot(s: string): (r: Option<nat>)
    ensures r.Some? ==> r.value < |s| && s[r.value] == '.'
    ensures r.Some? ==> forall j :: r.value < j < |s| ==> s[j] != '.'
    ensures r.None? ==> forall j :: 0 <= j < |s| ==> s[j] != '.'
  {
    if s == [] then None
    else if s[|s| - 1] == '.' then Some(|s| - 1)
    else LastDot(s[..|s| - 1])
  }

  /** The last dot is the one after which no dot follows. */
  lemma {:induction false} LastDotIs(s: string, i: nat)
    requires i < |s| && s[i] == '.'
    requires forall j :: i < j < |s| ==> s[j] != '.'
    ensures LastDot(s) == Some(i)
    decreases |s|
  {
    if i < |s| - 1 {
      LastDotIs(s[..|s| - 1], i);
    }
  }

  /** `Path::extension`: the part of the file name after its last `.`,
      provided that `.` is not the first character of the name. */
  function Extension(p: Path): (r: Option<string>)
    ensures r.Some? ==> FileName(p).Some?
    ensures r.Some? ==> exists stem :: |stem| > 0 && FileName(p).value == stem + "." + r.value
    ensures r.Some? ==> forall j :: 0 <= j < |r.value| ==> r.value[j] != '.'
    ensures FileName(p).Some? && (forall j :: 0 <= j < |FileName(p).value| ==> FileName(p).value[j] != '.')
      ==> r.None?
    ensures FileName(p).Some? && LastDot(FileName(p).value).Some? && LastDot(FileName(p).value).value > 0
      ==> r == Some(FileName(p).value[LastDot(FileName(p).value).value + 1..])
    ensures FileName(p).Some? && LastDot(FileName(p).value) == Some(0) ==> r.None?
  {
    match FileName(p)
    case None => None
    case Some(name) =>
      match LastDot(name)
      case None => None
      case Some(i) =>
        if i == 0 then None
        else
          var ext := name[i + 1..];
          assert name == name[..i] + "." + ext;
          Some(ext)
  }

  /** A manifest's name gives its extension; a dotfile without another dot,
      and `..`, give none. */
  lemma ExtensionExamples()
    ensures Extension(["d", "sums.md5"]) == Some("md5")
    ensures Extension(["d", "a.b.SHA256"]) == Some("SHA256")
    ensures Extension(["d", ".md5"]) == None
    ensures Extension(["d", ".."]) == None
  {
    var n1, n2, n3 := "sums.md5", "a.b.SHA256", ".md5";
    assert LastDot(n1) == Some(4) by {
      assert n1[|n1| - 1] != '.' && n1[..|n1| - 1] == "sums.md";
      assert LastDot("sums.md") == Some(4) by {
        assert "sums.md"[..6] == "sums.m";
        assert "sums.m"[..5] == "sums.";
      }
    }
    assert n1[5..] == "md5";
    assert LastDot(n3) == Some(0) by {
      assert n3[..3] == ".md" && ".md"[..2] == ".m" && ".m"[..1] == ".";
    }
    assert LastDot(n2) == Some(3) by {
      assert n2[..9] == "a.b.SHA25" && "a.b.SHA25"[..8] == "a.b.SHA2";
      assert "a.b.SHA2"[..7] == "a.b.SHA" && "a.b.SHA"[..6] == "a.b.SH";
      assert "a.b.SH"[..5] == "a.b.S" && "a.b.S"[..4] == "a.b.";
    }
    assert n2[4..] == "SHA256";
  }

  /** `Path::parent`: every component but the last. */
  function Parent(p: Path): (r: Option<Path>)
    ensures r.Some? <==> |p| > 0
    ensures r.Some? ==> r.value + [p[|p| - 1]] == p
  {
    if |p| == 0 then None else Some(p[..|p| - 1])
  }

  /** `Path::join` of a single relative name. */
  function Join(dir: Path, name: string): (r: Path)
    ensures |r| == |dir| + 1 && r[..|dir|] == dir && r[|dir|] == name
  {
    dir + [name]
  }

  /** The file types `walkdir` reports (it does not follow symbolic links). */
  datatype FileType = RegularFile | Directory | Symlink

  /** One item of a directory walk: either the walk failed at this point, or
      it reached `path`, whose metadata may or may not be readable. */
  datatype WalkEntry = WalkFailed(error: IoError) | Walked(path: Path, metadata: IoResult<FileType>)

  /** `Path::display`: the components separated by `/`. */
  function ShowPath(p: Path): string
  {
    if p == [] then "" else if |p| == 1 then p[0] else ShowPath(p[..|p| - 1]) + "/" + p[|p| - 1]
  }
}
