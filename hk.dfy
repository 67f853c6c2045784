/** Checksum manifests (src/hk.rs): loading a manifest in the `md5sum` /
    `sha*sum` check format, and validating each entry against the file it
    names. */
module Hk {
  import opened Common
  import opened Fs
  import Ascii
  import Hex = Hash
  import Alg
  import EP = EntryPattern

  // ---------------------------------------------------------------------
  // Lines of the manifest text

  /** Index of the first occurrence of `c`. */
  function IndexOf(s: string, c: char): (r: Option<nat>)
    ensures r.Some? ==> r.value < |s| && s[r.value] == c
    ensures r.Some? ==> forall j :: 0 <= j < r.value ==> s[j] != c
    ensures r.None? ==> forall j :: 0 <= j < |s| ==> s[j] != c
  {
    if s == [] then None
    else if s[0] == c then Some(0)
    else match IndexOf(s[1..], c)
      case None => None
      case Some(i) => Some(i + 1)
  }

  /** A line ended by `\r\n` loses the `\r` as well. */
  function StripCr(line: string): string
  {
    if |line| > 0 && line[|line| - 1] == '\r' then line[..|line| - 1] else line
  }

  /** `str::lines`: split after each `\n`, drop the terminator (`\n` or
      `\r\n`); a final line needs no terminator, and no empty line follows a
      final `\n`. */
  function Lines(text: string): seq<string>
    decreases |text|
  {
    if text == [] then []
    else match IndexOf(text, '\n')
      case None => [text]
      case Some(i) => [StripCr(text[..i])] + Lines(text[i + 1..])
  }

  /** Each line followed by a line feed. */
  function Unlines(lines: seq<string>): string
  {
    if lines == [] then "" else lines[0] + "\n" + Unlines(lines[1..])
  }

  /** No line holds a line feed. */
  lemma {:induction false} LinesHaveNoLineFeed(text: string)
    ensures forall k :: 0 <= k < |Lines(text)| ==> EP.NoLineFeed(Lines(text)[k], 0)
    decreases |text|
  {
    if text != [] {
      match IndexOf(text, '\n')
      case None =>
      case Some(i) =>
        LinesHaveNoLineFeed(text[i + 1..]);
        var rest := Lines(text[i + 1..]);
        assert Lines(text) == [StripCr(text[..i])] + rest;
        assert forall k :: 1 <= k < |Lines(text)| ==> Lines(text)[k] == rest[k - 1];
    }
  }

  /** A line ended by a line feed loses the line feed, and a carriage
      return just before it; nothing else of the line is touched. */
  lemma LinesFirstLine(a: string, b: string)
    requires forall j :: 0 <= j < |a| ==> a[j] != '\n'
    ensures Lines(a + "\n" + b) == [StripCr(a)] + Lines(b)
  {
    var text := a + "\n" + b;
    IndexOfAfterFree(a, b);
    assert text[..|a|] == a && text[|a| + 1..] == b;
  }

  /** The first line feed of `a + "\n" + b` is the one after `a`. */
  lemma IndexOfAfterFree(a: string, b: string)
    requires forall j :: 0 <= j < |a| ==> a[j] != '\n'
    ensures IndexOf(a + "\n" + b, '\n') == Some(|a|)
  {
    var text := a + "\n" + b;
    var r := IndexOf(text, '\n');
    assert text[|a|] == '\n';
    assert r.Some? && r.value <= |a|;
  }

  /** A `\r\n` ending is dropped whole. */
  lemma LinesCrLf(a: string, b: string)
    requires forall j :: 0 <= j < |a| ==> a[j] != '\n'
    ensures Lines(a + "\r\n" + b) == [a] + Lines(b)
  {
    var a' := a + "\r";
    assert a + "\r\n" + b == a' + "\n" + b;
    LinesFirstLine(a', b);
    assert StripCr(a') == a;
  }

  /** A last line without a line feed is kept whole, a final carriage
      return included. */
  lemma LinesLastLine(a: string)
    requires a != []
    requires forall j :: 0 <= j < |a| ==> a[j] != '\n'
    ensures Lines(a) == [a]
  {
  }

  /** Carriage returns: `\r\n` ends a line, a lone `\r` inside a line or
      at the end of the text stays. */
  lemma CarriageReturnExamples()
    ensures Lines("x\r\ny") == ["x", "y"]
    ensures Lines("x\ry\n") == ["x\ry"]
    ensures Lines("x\r") == ["x\r"]
  {
    LinesCrLf("x", "y");
    assert "x" + "\r\n" + "y" == "x\r\ny";
    LinesLastLine("y");
    LinesFirstLine("x\ry", "");
    assert "x\ry" + "\n" + "" == "x\ry\n";
    LinesLastLine("x\r");
  }

  /** Without carriage returns, joining the lines back gives the text, with
      a final line feed added when the text lacked one. */
  lemma {:induction false} UnlinesLines(text: string)
    requires forall j :: 0 <= j < |text| ==> text[j] != '\r'
    ensures Unlines(Lines(text)) == text
      || (|text| > 0 && text[|text| - 1] != '\n' && Unlines(Lines(text)) == text + "\n")
    decreases |text|
  {
    if text != [] {
      match IndexOf(text, '\n')
      case None =>
        UnlinesLastLine(text);
      case Some(i) =>
        var line, rest := text[..i], text[i + 1..];
        assert forall j :: 0 <= j < |rest| ==> rest[j] == text[i + 1 + j];
        UnlinesLines(rest);
        UnlinesFirstLine(text, i);
        JoinLine(line, rest, Unlines(Lines(rest)));
    }
  }

  /** A text without a line feed is one line, given its line feed back. */
  lemma UnlinesLastLine(text: string)
    requires text != [] && IndexOf(text, '\n').None?
    ensures text[|text| - 1] != '\n' && Unlines(Lines(text)) == text + "\n"
  {
    assert Lines(text) == [text];
    assert Unlines([text]) == text + "\n" + Unlines([]);
  }

  /** Putting a line in front keeps "equal, or equal up to a final line feed". */
  lemma JoinLine(line: string, rest: string, joined: string)
    requires joined == rest || (|rest| > 0 && rest[|rest| - 1] != '\n' && joined == rest + "\n")
    ensures var text := line + "\n" + rest;
      line + "\n" + joined == text
      || (|text| > 0 && text[|text| - 1] != '\n' && line + "\n" + joined == text + "\n")
  {
    if joined != rest {
      var text := line + "\n" + rest;
      assert line + "\n" + joined == text + "\n";
      assert text[|text| - 1] == rest[|rest| - 1];
    }
  }

  /** Joining back the first line and the rest at the first line feed. */
  lemma UnlinesFirstLine(text: string, i: nat)
    requires IndexOf(text, '\n') == Some(i)
    requires forall j :: 0 <= j < |text| ==> text[j] != '\r'
    ensures Unlines(Lines(text)) == text[..i] + "\n" + Unlines(Lines(text[i + 1..]))
    ensures text == text[..i] + "\n" + text[i + 1..]
  {
    var line, tail := text[..i], Lines(text[i + 1..]);
    SplitAround(text, i);
    if i > 0 {
      assert line[|line| - 1] == text[i - 1];
    }
    assert StripCr(line) == line;
    LinesAtLineFeed(text, i);
    UnlinesCons(line, tail);
  }

  /** A text is what precedes position `i`, its character there, and what follows. */
  lemma SplitAround(text: string, i: nat)
    requires i < |text|
    ensures text == text[..i] + [text[i]] + text[i + 1..]
  {
    assert text == text[..i] + text[i..];
    assert text[i..] == [text[i]] + text[i + 1..];
  }

  /** One unfolding of `Lines` at the first line feed. */
  lemma LinesAtLineFeed(text: string, i: nat)
    requires IndexOf(text, '\n') == Some(i)
    ensures Lines(text) == [StripCr(text[..i])] + Lines(text[i + 1..])
  {
  }

  /** One unfolding of `Unlines`. */
  lemma UnlinesCons(line: string, tail: seq<string>)
    ensures Unlines([line] + tail) == line + "\n" + Unlines(tail)
  {
    assert ([line] + tail)[1..] == tail;
  }

  /** Comment lines start with `#`. */
  predicate IsComment(line: string)
  {
    |line| > 0 && line[0] == '#'
  }

  /** The lines that are not comments, in order. */
  function NonComments(lines: seq<string>): (r: seq<string>)
    ensures |r| <= |lines|
    ensures forall k :: 0 <= k < |r| ==> !IsComment(r[k]) && r[k] in lines
  {
    if lines == [] then []
    else if IsComment(lines[0]) then NonComments(lines[1..])
    else [lines[0]] + NonComments(lines[1..])
  }

  /** Every line that is not a comment is kept. */
  lemma {:induction false} NonCommentsKeepsOthers(lines: seq<string>, k: nat)
    requires k < |lines| && !IsComment(lines[k])
    ensures lines[k] in NonComments(lines)
  {
    if k > 0 {
      NonCommentsKeepsOthers(lines[1..], k - 1);
    }
  }

  /** Filtering distributes over concatenation, so file order is kept. */
  lemma {:induction false} NonCommentsAppend(a: seq<string>, b: seq<string>)
    ensures NonComments(a + b) == NonComments(a) + NonComments(b)
  {
    if a != [] {
      assert (a + b)[1..] == a[1..] + b;
      NonCommentsAppend(a[1..], b);
    } else {
      assert a + b == b;
    }
  }

  /** The lines of the manifest that must parse. */
  function Entries(text: string): seq<string>
  {
    NonComments(Lines(text))
  }

  // ---------------------------------------------------------------------
  // Loading

  /** One entry to check: where the file is, its name as written, and the
      hash the manifest records. */
  datatype ValidateTask = ValidateTask(path: Path, name: string, hash: string)

  /** A loaded manifest. */
  datatype Hashes = Hashes(algorithm: Alg.Algorithm, files: seq<ValidateTask>)

  /** `read_alg_from_path`: the manifest's extension. */
  function ReadAlgFromPath(p: Path): (r: Result<string, Error>)
    ensures r.Ok? <==> Extension(p).Some?
    ensures r.Ok? ==> r.value == Extension(p).value
    ensures r.Err? ==> r.error == HashFile
  {
    match Extension(p)
    case None => Err(HashFile)
    case Some(ext) => Ok(ext)
  }

  /** The task for one parsed line, resolved against the manifest's directory. */
  function TaskFor(dir: Path, e: EP.Entry): ValidateTask
  {
    ValidateTask(Join(dir, e.name), e.name, e.hash)
  }

  predicate AllParse(entries: seq<string>)
  {
    forall k :: 0 <= k < |entries| ==> EP.Parse(entries[k]).Ok?
  }

  /** The tasks of all entries, one per entry, in order; one line that
      fails to parse fails them all. */
  function ParseTasks(entries: seq<string>, dir: Path): (r: Result<seq<ValidateTask>, Error>)
    ensures r.Ok? <==> AllParse(entries)
    ensures r.Err? ==> r.error == HashFile
    ensures r.Ok? ==> |r.value| == |entries|
    ensures r.Ok? ==> forall k :: 0 <= k < |entries| ==> r.value[k] == TaskFor(dir, EP.Parse(entries[k]).value)
  {
    if AllParse(entries) then
      Ok(seq(|entries|, k requires 0 <= k < |entries| => TaskFor(dir, EP.Parse(entries[k]).value)))
    else Err(HashFile)
  }

  /** What `Hashes::from_path` computes: the algorithm from the extension
      first, then the text, then every non-comment line. */
  function Load(fs: FileSystem, utf8: seq<byte> -> Option<string>, p: Path): Result<Hashes, Error>
  {
    match ReadAlgFromPath(p)
    case Err(e) => Err(e)
    case Ok(ext) =>
      match Alg.Parse(ext)
      case Err(e) => Err(e)
      case Ok(algorithm) =>
        match ReadToString(fs, utf8, p)
        case Err(e) => Err(Io(e))
        case Ok(text) =>
          match ParseTasks(Entries(text), Parent(p).value)
          case Err(e) => Err(e)
          case Ok(files) => Ok(Hashes(algorithm, files))
  }

  /** The loop of `Hashes::from_path`: parse each entry in turn, pushing
      its task; the first line that does not parse ends it. */
  method CollectTasks(entries: seq<string>, dir: Path) returns (r: Result<seq<ValidateTask>, Error>)
    ensures r == ParseTasks(entries, dir)
  {
    var files: seq<ValidateTask> := [];
    for i := 0 to |entries|
      invariant |files| == i
      invariant forall k :: 0 <= k < i ==> EP.Parse(entries[k]).Ok?
      invariant forall k :: 0 <= k < i ==> files[k] == TaskFor(dir, EP.Parse(entries[k]).value)
    {
      var parsed := EP.Parse(entries[i]);
      if parsed.Err? {
        EP.ParseIsLeftmostFirst(entries[i]);
        assert !AllParse(entries);
        return Err(parsed.error);
      }
      files := files + [TaskFor(dir, parsed.value)];
    }
    var tasks := ParseTasks(entries, dir);
    assert AllParse(entries);
    assert forall k :: 0 <= k < |files| ==> tasks.value[k] == files[k];
    assert tasks.value == files;
    return Ok(files);
  }

  /** `Hashes::from_path`: the algorithm from the extension, then the text,
      then the tasks of the non-comment lines. */
  method FromPath(fs: FileSystem, utf8: seq<byte> -> Option<string>, p: Path) returns (r: Result<Hashes, Error>)
    ensures r == Load(fs, utf8, p)
  {
    var ext := ReadAlgFromPath(p);
    if ext.Err? {
      return Err(ext.error);
    }
    var algorithm := Alg.Parse(ext.value);
    if algorithm.Err? {
      return Err(algorithm.error);
    }
    var text := ReadToString(fs, utf8, p);
    if text.Err? {
      return Err(Io(text.error));
    }
    var files := CollectTasks(Entries(text.value), Parent(p).value);
    if files.Err? {
      return Err(files.error);
    }
    return Ok(Hashes(algorithm.value, files.value));
  }

  /** The error cases of loading, in the order they are checked: the
      algorithm is settled before the file is read. */
  lemma LoadErrors(fs: FileSystem, utf8: seq<byte> -> Option<string>, p: Path)
    ensures Extension(p).None? ==> Load(fs, utf8, p) == Err(HashFile)
    ensures Extension(p).Some? && Alg.Parse(Extension(p).value).Err?
      ==> Load(fs, utf8, p) == Err(UnknownAlgorithm(Extension(p).value))
    ensures Extension(p).Some? && Alg.Parse(Extension(p).value).Ok? && ReadToString(fs, utf8, p).Err?
      ==> Load(fs, utf8, p) == Err(Io(ReadToString(fs, utf8, p).error))
    ensures Extension(p).Some? && Alg.Parse(Extension(p).value).Ok? && ReadToString(fs, utf8, p).Ok?
      && !AllParse(Entries(ReadToString(fs, utf8, p).value))
      ==> Load(fs, utf8, p) == Err(HashFile)
  {
  }

  /** A successful load has the extension's algorithm and exactly one task
      per non-comment line, in file order, each resolved against the
      manifest's directory. */
  lemma LoadSucceeds(fs: FileSystem, utf8: seq<byte> -> Option<string>, p: Path)
    requires Load(fs, utf8, p).Ok?
    ensures Extension(p).Some? && Alg.Parse(Extension(p).value).Ok? && ReadToString(fs, utf8, p).Ok?
    ensures Load(fs, utf8, p).value.algorithm == Alg.Parse(Extension(p).value).value
    ensures var entries := Entries(ReadToString(fs, utf8, p).value);
      var files := Load(fs, utf8, p).value.files;
      && AllParse(entries)
      && |files| == |entries|
      && forall k :: 0 <= k < |entries| ==>
           files[k].hash == EP.Parse(entries[k]).value.hash
           && files[k].name == EP.Parse(entries[k]).value.name
           && files[k].path == p[..|p| - 1] + [files[k].name]
  {
  }

  /** A manifest loads under the algorithm its extension names. */
  lemma ManifestNameSelectsAlgorithm(fs: FileSystem, utf8: seq<byte> -> Option<string>, dir: Path,
                                     name: string, ext: string, i: nat, a: Alg.Algorithm)
    requires name != "." && name != ".."
    requires 0 < i < |name| && name[i] == '.' && name[i + 1..] == ext
    requires forall j :: i < j < |name| ==> name[j] != '.'
    requires Alg.Parse(ext) == Ok(a)
    ensures Load(fs, utf8, dir + [name]).Ok? ==> Load(fs, utf8, dir + [name]).value.algorithm == a
  {
    ExtensionOfName(dir, name, ext, i);
    if Load(fs, utf8, dir + [name]).Ok? {
      LoadSucceeds(fs, utf8, dir + [name]);
    }
  }

  /** `sums.md5` loads under MD5. */
  lemma Md5ManifestName(fs: FileSystem, utf8: seq<byte> -> Option<string>, dir: Path)
    ensures Load(fs, utf8, dir + ["sums.md5"]).Ok? ==> Load(fs, utf8, dir + ["sums.md5"]).value.algorithm == Alg.Md5
  {
    assert Ascii.ToAsciiUpper("md5") == "MD5";
    ManifestNameSelectsAlgorithm(fs, utf8, dir, "sums.md5", "md5", 4, Alg.Md5);
  }

  /** `sums.SHA256` loads under SHA-256. */
  lemma Sha256ManifestName(fs: FileSystem, utf8: seq<byte> -> Option<string>, dir: Path)
    ensures Load(fs, utf8, dir + ["sums.SHA256"]).Ok? ==>
      Load(fs, utf8, dir + ["sums.SHA256"]).value.algorithm == Alg.Sha256
  {
    assert Ascii.ToAsciiUpper("SHA256") == "SHA256";
    ManifestNameSelectsAlgorithm(fs, utf8, dir, "sums.SHA256", "SHA256", 4, Alg.Sha256);
  }

  /** The extension of a file in any directory, from the last dot of its name. */
  lemma ExtensionOfName(dir: Path, name: string, ext: string, i: nat)
    requires name != "." && name != ".."
    requires 0 < i < |name| && name[i] == '.' && name[i + 1..] == ext
    requires forall j :: i < j < |name| ==> name[j] != '.'
    ensures Extension(dir + [name]) == Some(ext)
  {
    var p := dir + [name];
    assert p[|p| - 1] == name;
    LastDotIs(name, i);
  }

  /** An empty line, or one led by whitespace, fails the whole load. */
  lemma BlankLineFailsLoad(fs: FileSystem, utf8: seq<byte> -> Option<string>, p: Path, k: nat)
    requires ReadToString(fs, utf8, p).Ok?
    requires var lines := Lines(ReadToString(fs, utf8, p).value);
      k < |lines| && (lines[k] == [] || EP.IsWhitespace(lines[k][0]))
    ensures Load(fs, utf8, p).Err?
  {
    var lines := Lines(ReadToString(fs, utf8, p).value);
    NonCommentsKeepsOthers(lines, k);
    EP.EmptyOrIndentedFails(lines[k]);
  }

  // ---------------------------------------------------------------------
  // Validation

  datatype HashResult = HashOk | Mismatch(actual: string) | Missing

  /** `ValidateTask::validate`: a missing file is `Missing`, any other IO
      error is passed on, else the hashes are compared ignoring ASCII case. */
  function Validate(task: ValidateTask, algorithm: Alg.Algorithm, suite: Alg.DigestSuite, fs: FileSystem): (r: IoResult<HashResult>)
    ensures ReadFile(fs, task.path) == Err(NotFound) ==> r == Ok(Missing)
    ensures ReadFile(fs, task.path).Err? && ReadFile(fs, task.path).error != NotFound
      ==> r == Err(ReadFile(fs, task.path).error)
    ensures ReadFile(fs, task.path).Ok? ==>
      var actual := Hex.HexOf(Alg.DigestFor(algorithm, suite)(ReadFile(fs, task.path).value));
      r == (if Ascii.EqIgnoreAsciiCase(task.hash, actual) then Ok(HashOk) else Ok(Mismatch(actual)))
  {
    match Alg.Hash(algorithm, suite, fs, task.path)
    case Err(e) => if e == NotFound then Ok(Missing) else Err(e)
    case Ok(actual) =>
      if Ascii.EqIgnoreAsciiCase(task.hash, actual) then Ok(HashOk) else Ok(Mismatch(actual))
  }

  /** A recorded hash that equals the file's digest in hex, in any mix of
      cases, validates as `HashOk`; one recording a different digest gives
      `Mismatch` carrying the actual hex. */
  lemma ValidateAgainstDigest(task: ValidateTask, algorithm: Alg.Algorithm, suite: Alg.DigestSuite, fs: FileSystem, recorded: seq<byte>)
    requires ReadFile(fs, task.path).Ok?
    requires Ascii.EqIgnoreAsciiCase(task.hash, Hex.HexOf(recorded))
    ensures var actual := Alg.DigestFor(algorithm, suite)(ReadFile(fs, task.path).value);
      Validate(task, algorithm, suite, fs)
        == (if recorded == actual then Ok(HashOk) else Ok(Mismatch(Hex.HexOf(actual))))
  {
    var actual := Alg.DigestFor(algorithm, suite)(ReadFile(fs, task.path).value);
    Hex.HexOfAlphabet(recorded);
    Hex.HexOfAlphabet(actual);
    Ascii.EqIgnoreAsciiCaseEquivalence(task.hash, Hex.HexOf(recorded), Hex.HexOf(actual));
    Ascii.EqIgnoreAsciiCaseEquivalence(Hex.HexOf(recorded), task.hash, Hex.HexOf(actual));
    Ascii.MatchesLowercase(Hex.HexOf(actual), Hex.HexOf(recorded));
    Ascii.EqIgnoreAsciiCaseIsFolding(Hex.HexOf(recorded), Hex.HexOf(recorded));
    assert Ascii.ToAsciiLower(Hex.HexOf(recorded)) == Hex.HexOf(recorded) by {
      Ascii.MatchesLowercase(Hex.HexOf(recorded), Hex.HexOf(recorded));
    }
    if Ascii.EqIgnoreAsciiCase(task.hash, Hex.HexOf(actual)) {
      Hex.HexOfInjective(recorded, actual);
    }
  }

  /** One item the validator yields: the task and its outcome. */
  datatype Validation = Validation(file: ValidateTask, result: HashResult)

  /** The status word `impl Display for Validation` prints (colouring left out). */
  function StatusWord(result: HashResult): (w: string)
    ensures result.HashOk? <==> w == "OK"
    ensures result.Mismatch? <==> w == "FAIL"
    ensures result.Missing? <==> w == "MISSING"
  {
    match result
    case HashOk => "OK"
    case Mismatch(_) => "FAIL"
    case Missing => "MISSING"
  }

  /** `impl Display for Validation`: the status word, a space, the name as
      the manifest wrote it; a mismatch does not print the actual hash. */
  function ShowValidation(v: Validation): string
  {
    StatusWord(v.result) + " " + v.file.name
  }

  /** The printed line tells the three outcomes apart, and gives back the name. */
  lemma ShowValidationDistinguishes(v: Validation, w: Validation)
    requires ShowValidation(v) == ShowValidation(w)
    ensures v.result.HashOk? <==> w.result.HashOk?
    ensures v.result.Mismatch? <==> w.result.Mismatch?
    ensures v.file.name == w.file.name
  {
    var a, b := StatusWord(v.result), StatusWord(w.result);
    assert ShowValidation(v)[..|a|] == a && ShowValidation(v)[|a|] == ' ';
    assert ShowValidation(w)[..|b|] == b && ShowValidation(w)[|b|] == ' ';
    if |a| == |b| {
      assert ShowValidation(v)[|a| + 1..] == v.file.name;
      assert ShowValidation(w)[|b| + 1..] == w.file.name;
    }
  }

  /** What the validator yields for one task. */
  function ValidationOf(task: ValidateTask, algorithm: Alg.Algorithm, suite: Alg.DigestSuite, fs: FileSystem): IoResult<Validation>
  {
    match Validate(task, algorithm, suite, fs)
    case Err(e) => Err(e)
    case Ok(result) => Ok(Validation(task, result))
  }

  /** `Validator`: the iterator `Hashes::verify` returns, a cursor over the
      tasks. */
  class Validator {
    const algorithm: Alg.Algorithm
    const source: seq<ValidateTask>
    var position: nat

    ghost predicate Valid()
      reads this
    {
      position <= |source|
    }

    /** `Hashes::verify`. */
    constructor (hashes: Hashes)
      ensures Valid()
      ensures algorithm == hashes.algorithm && source == hashes.files && position == 0
    {
      algorithm := hashes.algorithm;
      source := hashes.files;
      position := 0;
    }

    /** `Iterator::next`: validate the next task; an IO error becomes an
        `Err` item for that task alone; `None` once every task is done. */
    method Next(suite: Alg.DigestSuite, fs: FileSystem) returns (item: Option<IoResult<Validation>>)
      requires Valid()
      modifies this
      ensures Valid()
      ensures old(position) < |source| ==> position == old(position) + 1
      ensures old(position) < |source| ==> item == Some(ValidationOf(source[old(position)], algorithm, suite, fs))
      ensures old(position) == |source| ==> position == old(position) && item == None
    {
      if position == |source| {
        return None;
      }
      var file := source[position];
      position := position + 1;
      var result := Validate(file, algorithm, suite, fs);
      if result.Err? {
        return Some(Err(result.error));
      }
      return Some(Ok(Validation(file, result.value)));
    }
  }

  /** Everything the validator yields for a loaded manifest, in order. */
  function Outcomes(hashes: Hashes, suite: Alg.DigestSuite, fs: FileSystem): (items: seq<IoResult<Validation>>)
    ensures |items| == |hashes.files|
    ensures forall k :: 0 <= k < |items| ==> items[k] == ValidationOf(hashes.files[k], hashes.algorithm, suite, fs)
  {
    seq(|hashes.files|, k requires 0 <= k < |hashes.files| => ValidationOf(hashes.files[k], hashes.algorithm, suite, fs))
  }

  /** If every listed file still has the recorded digest, every outcome is
      `HashOk`. */
  lemma UnchangedFilesAllOk(hashes: Hashes, suite: Alg.DigestSuite, fs: FileSystem)
    requires forall k :: 0 <= k < |hashes.files| ==> ReadFile(fs, hashes.files[k].path).Ok?
    requires forall k :: 0 <= k < |hashes.files| ==>
      hashes.files[k].hash == Hex.HexOf(Alg.DigestFor(hashes.algorithm, suite)(ReadFile(fs, hashes.files[k].path).value))
    ensures forall k :: 0 <= k < |hashes.files| ==> Outcomes(hashes, suite, fs)[k] == Ok(Validation(hashes.files[k], HashOk))
  {
    forall k | 0 <= k < |hashes.files|
      ensures Validate(hashes.files[k], hashes.algorithm, suite, fs) == Ok(HashOk)
    {
      Ascii.EqIgnoreAsciiCaseEquivalence(hashes.files[k].hash, hashes.files[k].hash, hashes.files[k].hash);
    }
  }

  /** The manifest line `d41d8cd98f00b204e9800998ecf8427e *empty.txt`
      names `empty.txt` with that hash. */
  lemma EmptyFileLine()
    ensures EP.Parse("d41d8cd98f00b204e9800998ecf8427e *empty.txt")
      == Ok(EP.Entry("d41d8cd98f00b204e9800998ecf8427e", "empty.txt"))
  {
    EmptyMd5IsToken();
    EP.BinaryModeLine("d41d8cd98f00b204e9800998ecf8427e", "empty.txt");
    EmptyFileLineText();
  }

  /** The line is the hash, a space, a star and the name. */
  lemma EmptyFileLineText()
    ensures "d41d8cd98f00b204e9800998ecf8427e" + " *" + "empty.txt" == "d41d8cd98f00b204e9800998ecf8427e *empty.txt"
  {
  }

  /** The MD5 of no bytes, as text, can stand as a hash. */
  lemma EmptyMd5IsToken()
    ensures EP.IsToken("d41d8cd98f00b204e9800998ecf8427e")
  {
  }

  /** Next to an empty `empty.txt`, that line validates as `HashOk` under
      MD5, given that the MD5 of no bytes prints as that hash. */
  lemma EmptyFileScenario(dir: Path, suite: Alg.DigestSuite, fs: FileSystem)
    requires Hex.HexOf(suite.md5([])) == "d41d8cd98f00b204e9800998ecf8427e"
    requires ReadFile(fs, dir + ["empty.txt"]) == Ok([])
    ensures Validate(TaskFor(dir, EP.Entry("d41d8cd98f00b204e9800998ecf8427e", "empty.txt")), Alg.Md5, suite, fs)
      == Ok(HashOk)
  {
    var h := "d41d8cd98f00b204e9800998ecf8427e";
    Ascii.EqIgnoreAsciiCaseEquivalence(h, h, h);
  }
}
