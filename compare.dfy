/** Tree comparison (src/compare.rs): each file of the left tree, keyed by
    its path relative to the tree's root, is compared with the file at the
    same relative path in the right tree. A comparer's `build` is an
    abstract function from a path to an output with equality. */
module Compare {
  import opened Common
  import opened Fs
  import Iter
  import Hex = Hash
  import Alg

  /** Which of the two parallel builds rayon finishes first; it decides only
      which error is kept when both builds fail. */
  datatype Schedule = LeftFirst | RightFirst

  /** An abstract comparer: `Comparer::build`. */
  type Build<T> = Path -> IoResult<T>

  /** `Blake3Comparer::build`: the BLAKE3 digest of the file's bytes. */
  function Blake3Build(fs: FileSystem, suite: Alg.DigestSuite): Build<seq<byte>>
  {
    p => Hex.HashToDigest(fs, p, suite.blake3)
  }

  /** The ordered collect of two builds into `io::Result<Vec<_>>`. */
  function CollectPair<T>(l: IoResult<T>, r: IoResult<T>, sched: Schedule): (res: IoResult<seq<T>>)
    ensures res.Ok? <==> l.Ok? && r.Ok?
    ensures res.Ok? ==> res.value == [l.value, r.value]
    ensures res.Err? && l.Ok? ==> res.error == r.error
    ensures res.Err? && r.Ok? ==> res.error == l.error
    ensures res.Err? ==> (l.Err? && res.error == l.error) || (r.Err? && res.error == r.error)
  {
    if l.Ok? && r.Ok? then Ok([l.value, r.value])
    else if l.Err? && (r.Ok? || sched == LeftFirst) then Err(l.error)
    else Err(r.error)
  }

  /** `compare_with`: build both sides, then check the outputs are uniform;
      a build error is passed on. */
  function CompareWith<T(==)>(build: Build<T>, left: Path, right: Path, sched: Schedule): (r: Result<bool, Error>)
    ensures r.Ok? <==> build(left).Ok? && build(right).Ok?
    ensures r.Ok? ==> (r.value <==> build(left).value == build(right).value)
    ensures r.Err? ==> r.error.Io?
    ensures r.Err? && build(left).Ok? ==> r.error == Io(build(right).error)
    ensures r.Err? && build(right).Ok? ==> r.error == Io(build(left).error)
  {
    match CollectPair(build(left), build(right), sched)
    case Err(e) => Err(Io(e))
    case Ok(outputs) =>
      Iter.AllItemsMatchPair(build(left).value, build(right).value);
      Ok(Iter.AllItemsMatch(outputs))
  }

  /** A file compared with itself is equal whenever it can be built. */
  lemma CompareWithReflexive<T>(build: Build<T>, p: Path, sched: Schedule)
    requires build(p).Ok?
    ensures CompareWith(build, p, p, sched) == Ok(true)
  {
  }

  /** The comparison is symmetric in its two paths, apart from which error
      is kept when both builds fail. */
  lemma CompareWithSymmetric<T>(build: Build<T>, l: Path, r: Path, sched: Schedule)
    ensures CompareWith(build, l, r, sched).Ok? <==> CompareWith(build, r, l, sched).Ok?
    ensures CompareWith(build, l, r, sched).Ok? ==> CompareWith(build, l, r, sched) == CompareWith(build, r, l, sched)
  {
  }

  /** The order in which the parallel builds finish never changes whether
      the comparison succeeds or what it answers. */
  lemma ScheduleIndependence<T>(build: Build<T>, l: Path, r: Path, s1: Schedule, s2: Schedule)
    ensures CompareWith(build, l, r, s1).Ok? <==> CompareWith(build, l, r, s2).Ok?
    ensures CompareWith(build, l, r, s1).Ok? ==> CompareWith(build, l, r, s1) == CompareWith(build, l, r, s2)
    ensures build(l).Err? != build(r).Err? ==> CompareWith(build, l, r, s1) == CompareWith(build, l, r, s2)
  {
  }

  /** Under the full comparer, two readable files with the same bytes are
      equal. */
  lemma IdenticalFilesMatch(fs: FileSystem, suite: Alg.DigestSuite, l: Path, r: Path, sched: Schedule)
    requires ReadFile(fs, l).Ok? && ReadFile(fs, l) == ReadFile(fs, r)
    ensures CompareWith(Blake3Build(fs, suite), l, r, sched) == Ok(true)
  {
  }

  // ---------------------------------------------------------------------
  // compare_contents

  /** The lines `compare_contents` prints: `match <relative>` (verbose only),
      `missing <relative>`, and `MISMATCH <left absolute>` from `compare_with`. */
  datatype Report = Matched(relative: Path) | Missing(relative: Path) | Mismatched(absolute: Path)

  /** A result together with the reports printed on the way to it. */
  datatype Outcome = Outcome(result: Result<bool, Error>, log: seq<Report>)

  /** A left entry: its path relative to the left root and its absolute path. */
  type Entry = (Path, Path)

  /** An entry gives a failure: its relative path is missing on the right,
      or both sides build and differ. */
  predicate Fails<T(==)>(build: Build<T>, right: map<Path, Path>, e: Entry)
  {
    e.0 !in right
    || (build(e.1).Ok? && build(right[e.0]).Ok? && build(e.1).value != build(right[e.0]).value)
  }

  /** An entry whose comparison cannot be carried out. */
  predicate Breaks<T(==)>(build: Build<T>, right: map<Path, Path>, e: Entry)
  {
    e.0 in right && (build(e.1).Err? || build(right[e.0]).Err?)
  }

  /** One iteration of the loop, given the failure flag so far. */
  function Step<T(==)>(build: Build<T>, right: map<Path, Path>, verbose: bool, sched: Schedule,
                       hasFailure: bool, e: Entry): Outcome
  {
    if e.0 in right then
      match CompareWith(build, e.1, right[e.0], sched)
      case Err(err) => Outcome(Err(err), [])
      case Ok(same) =>
        if !same then Outcome(Ok(true), [Mismatched(e.1)])
        else Outcome(Ok(hasFailure), if verbose then [Matched(e.0)] else [])
    else Outcome(Ok(true), [Missing(e.0)])
  }

  /** What the loop has produced after the entries `left`, in order: the
      first error stops it. */
  function Contents<T(==)>(build: Build<T>, left: seq<Entry>, right: map<Path, Path>, verbose: bool,
                           sched: Schedule): Outcome
  {
    if left == [] then Outcome(Ok(false), [])
    else
      var prev := Contents(build, left[..|left| - 1], right, verbose, sched);
      if prev.result.Err? then prev
      else
        var step := Step(build, right, verbose, sched, prev.result.value, left[|left| - 1]);
        Outcome(step.result, prev.log + step.log)
  }

  /** `compare_contents`: walk the left entries, look each one up on the
      right, and note whether anything failed. */
  method CompareContents<T(==)>(build: Build<T>, left: seq<Entry>, right: map<Path, Path>, verbose: bool,
                                sched: Schedule) returns (result: Result<bool, Error>, log: seq<Report>)
    ensures Outcome(result, log) == Contents(build, left, right, verbose, sched)
  {
    var hasFailure := false;
    log := [];
    for i := 0 to |left|
      invariant Contents(build, left[..i], right, verbose, sched) == Outcome(Ok(hasFailure), log)
    {
      assert left[..i + 1][..i] == left[..i];
      var (relative, absolute) := left[i];
      if relative in right {
        var same := CompareWith(build, absolute, right[relative], sched);
        if same.Err? {
          assert Contents(build, left, right, verbose, sched) == Contents(build, left[..i + 1], right, verbose, sched) by {
            ErrorAborts(build, left[..i + 1], left[i + 1..], right, verbose, sched);
            assert left[..i + 1] + left[i + 1..] == left;
          }
          return same, log;
        }
        if !same.value {
          log := log + [Mismatched(absolute)];
          hasFailure := true;
        } else if verbose {
          log := log + [Matched(relative)];
        }
      } else {
        log := log + [Missing(relative)];
        hasFailure := true;
      }
    }
    assert left[..|left|] == left;
    return Ok(hasFailure), log;
  }

  lemma ContentsSnoc<T>(build: Build<T>, init: seq<Entry>, e: Entry, right: map<Path, Path>, verbose: bool,
                            sched: Schedule)
    ensures var prev := Contents(build, init, right, verbose, sched);
      Contents(build, init + [e], right, verbose, sched)
        == if prev.result.Err? then prev
           else Outcome(Step(build, right, verbose, sched, prev.result.value, e).result,
                        prev.log + Step(build, right, verbose, sched, prev.result.value, e).log)
  {
    assert (init + [e])[..|init|] == init;
  }

  /** After the first error nothing more happens: later entries change
      neither the result nor the reports. */
  lemma {:induction false} ErrorAborts<T>(build: Build<T>, a: seq<Entry>, b: seq<Entry>, right: map<Path, Path>,
                                              verbose: bool, sched: Schedule)
    requires Contents(build, a, right, verbose, sched).result.Err?
    ensures Contents(build, a + b, right, verbose, sched) == Contents(build, a, right, verbose, sched)
  {
    if b == [] {
      assert a + b == a;
    } else {
      var init := b[..|b| - 1];
      ErrorAborts(build, a, init, right, verbose, sched);
      assert a + b == (a + init) + [b[|b| - 1]];
      ContentsSnoc(build, a + init, b[|b| - 1], right, verbose, sched);
    }
  }

  /** The loop fails with an error exactly when some entry present on both
      sides cannot be built, and otherwise reports a failure exactly when
      some entry is missing on the right or differs. */
  lemma {:induction false} ContentsResult<T>(build: Build<T>, left: seq<Entry>, right: map<Path, Path>,
                                                 verbose: bool, sched: Schedule)
    ensures Contents(build, left, right, verbose, sched).result.Ok?
      <==> forall k :: 0 <= k < |left| ==> !Breaks(build, right, left[k])
    ensures Contents(build, left, right, verbose, sched).result.Err? ==>
      Contents(build, left, right, verbose, sched).result.error.Io?
    ensures Contents(build, left, right, verbose, sched).result.Ok? ==>
      (Contents(build, left, right, verbose, sched).result.value <==>
         exists k :: 0 <= k < |left| && Fails(build, right, left[k]))
  {
    if left != [] {
      var init, e := left[..|left| - 1], left[|left| - 1];
      assert left == init + [e];
      ContentsResult(build, init, right, verbose, sched);
      ContentsSnoc(build, init, e, right, verbose, sched);
      var prev := Contents(build, init, right, verbose, sched);
      if prev.result.Ok? {
        StepResult(build, right, verbose, sched, prev.result.value, e);
      }
      assert forall k :: 0 <= k < |init| ==> init[k] == left[k];
    }
  }

  /** One step fails exactly on an entry that breaks, with an IO error, and
      otherwise raises the flag exactly on an entry that fails. */
  lemma StepResult<T>(build: Build<T>, right: map<Path, Path>, verbose: bool, sched: Schedule,
                          hasFailure: bool, e: Entry)
    ensures Step(build, right, verbose, sched, hasFailure, e).result.Ok? <==> !Breaks(build, right, e)
    ensures Step(build, right, verbose, sched, hasFailure, e).result.Err? ==>
      Step(build, right, verbose, sched, hasFailure, e).result.error.Io?
    ensures Step(build, right, verbose, sched, hasFailure, e).result.Ok? ==>
      (Step(build, right, verbose, sched, hasFailure, e).result.value <==> hasFailure || Fails(build, right, e))
  {
  }

  /** Right-hand paths that no left entry asks for never matter: only the
      right-hand map's answers for the left's relative paths are used. */
  lemma {:induction false} RightOnlyIrrelevant<T>(build: Build<T>, left: seq<Entry>, r1: map<Path, Path>,
                                                      r2: map<Path, Path>, verbose: bool, sched: Schedule)
    requires forall k :: 0 <= k < |left| ==> (left[k].0 in r1 <==> left[k].0 in r2)
    requires forall k :: 0 <= k < |left| && left[k].0 in r1 ==> r1[left[k].0] == r2[left[k].0]
    ensures Contents(build, left, r1, verbose, sched) == Contents(build, left, r2, verbose, sched)
  {
    if left != [] {
      var init := left[..|left| - 1];
      assert forall k :: 0 <= k < |init| ==> init[k] == left[k];
      RightOnlyIrrelevant(build, init, r1, r2, verbose, sched);
    }
  }

  /** The reports without the verbose `match` lines. */
  function Quiet(log: seq<Report>): (q: seq<Report>)
    ensures forall k :: 0 <= k < |q| ==> !q[k].Matched? && q[k] in log
  {
    if log == [] then []
    else (if log[0].Matched? then [] else [log[0]]) + Quiet(log[1..])
  }

  lemma {:induction false} QuietAppend(a: seq<Report>, b: seq<Report>)
    ensures Quiet(a + b) == Quiet(a) + Quiet(b)
  {
    if a == [] {
      assert a + b == b;
    } else {
      assert (a + b)[1..] == a[1..] + b;
      QuietAppend(a[1..], b);
    }
  }

  lemma StepVerbose<T>(build: Build<T>, right: map<Path, Path>, sched: Schedule, hasFailure: bool, e: Entry)
    ensures Step(build, right, true, sched, hasFailure, e).result == Step(build, right, false, sched, hasFailure, e).result
    ensures Quiet(Step(build, right, true, sched, hasFailure, e).log) == Step(build, right, false, sched, hasFailure, e).log
  {
    var log := Step(build, right, true, sched, hasFailure, e).log;
    if log != [] {
      assert log[1..] == [];
    }
  }

  /** `verbose` adds the `match` lines and changes nothing else: not the
      result and not the other reports. */
  lemma {:induction false} VerboseOnlyAddsMatches<T>(build: Build<T>, left: seq<Entry>, right: map<Path, Path>,
                                                     sched: Schedule)
    ensures Contents(build, left, right, true, sched).result == Contents(build, left, right, false, sched).result
    ensures Quiet(Contents(build, left, right, true, sched).log) == Contents(build, left, right, false, sched).log
  {
    if left != [] {
      var init, e := left[..|left| - 1], left[|left| - 1];
      assert left == init + [e];
      VerboseOnlyAddsMatches(build, init, right, sched);
      ContentsSnoc(build, init, e, right, true, sched);
      ContentsSnoc(build, init, e, right, false, sched);
      var loud := Contents(build, init, right, true, sched);
      if loud.result.Ok? {
        StepVerbose(build, right, sched, loud.result.value, e);
        QuietAppend(loud.log, Step(build, right, true, sched, loud.result.value, e).log);
      }
    }
  }

  /** Without `verbose` no `match` line is printed. */
  lemma {:induction false} QuietHasNoMatches<T>(build: Build<T>, left: seq<Entry>, right: map<Path, Path>,
                                                    sched: Schedule)
    ensures forall k :: 0 <= k < |Contents(build, left, right, false, sched).log| ==>
      !Contents(build, left, right, false, sched).log[k].Matched?
  {
    VerboseOnlyAddsMatches(build, left, right, sched);
  }

  /** What one successful step reports about its entry. */
  lemma StepReports<T>(build: Build<T>, right: map<Path, Path>, verbose: bool, sched: Schedule,
                           hasFailure: bool, e: Entry, rel: Path, abs: Path)
    requires Step(build, right, verbose, sched, hasFailure, e).result.Ok?
    ensures Missing(rel) in Step(build, right, verbose, sched, hasFailure, e).log
      <==> e.0 == rel && rel !in right
    ensures Mismatched(abs) in Step(build, right, verbose, sched, hasFailure, e).log
      <==> e.1 == abs && Fails(build, right, e) && e.0 in right
    ensures Matched(rel) in Step(build, right, verbose, sched, hasFailure, e).log
      <==> verbose && e.0 == rel && !Fails(build, right, e)
  {
  }

  /** A run to the end has a successful last step after a successful prefix. */
  lemma LastStep<T>(build: Build<T>, left: seq<Entry>, right: map<Path, Path>, verbose: bool,
                        sched: Schedule)
    requires left != []
    requires Contents(build, left, right, verbose, sched).result.Ok?
    ensures var prev := Contents(build, left[..|left| - 1], right, verbose, sched);
      prev.result.Ok?
      && Step(build, right, verbose, sched, prev.result.value, left[|left| - 1]).result.Ok?
      && Contents(build, left, right, verbose, sched).log
        == prev.log + Step(build, right, verbose, sched, prev.result.value, left[|left| - 1]).log
  {
  }

  /** When the loop runs to the end, `missing <relative>` is reported for
      exactly the left entries absent on the right. */
  lemma {:induction false} ContentsReportsMissing<T>(build: Build<T>, left: seq<Entry>, right: map<Path, Path>,
                                                         verbose: bool, sched: Schedule, rel: Path)
    requires Contents(build, left, right, verbose, sched).result.Ok?
    ensures Missing(rel) in Contents(build, left, right, verbose, sched).log
      <==> exists k :: 0 <= k < |left| && left[k].0 == rel && rel !in right
  {
    if left != [] {
      var init, e := left[..|left| - 1], left[|left| - 1];
      LastStep(build, left, right, verbose, sched);
      var prev := Contents(build, init, right, verbose, sched);
      StepReports(build, right, verbose, sched, prev.result.value, e, rel, []);
      ContentsReportsMissing(build, init, right, verbose, sched, rel);
      assert forall k :: 0 <= k < |init| ==> init[k] == left[k];
      if Missing(rel) in Step(build, right, verbose, sched, prev.result.value, e).log {
        assert left[|left| - 1].0 == rel;
      }
    }
  }

  /** When the loop runs to the end, `MISMATCH <absolute>` is reported for
      exactly the left entries present on the right whose outputs differ. */
  lemma {:induction false} ContentsReportsMismatched<T>(build: Build<T>, left: seq<Entry>, right: map<Path, Path>,
                                                            verbose: bool, sched: Schedule, abs: Path)
    requires Contents(build, left, right, verbose, sched).result.Ok?
    ensures Mismatched(abs) in Contents(build, left, right, verbose, sched).log
      <==> exists k :: 0 <= k < |left| && left[k].1 == abs && Fails(build, right, left[k]) && left[k].0 in right
  {
    if left != [] {
      var init, e := left[..|left| - 1], left[|left| - 1];
      LastStep(build, left, right, verbose, sched);
      var prev := Contents(build, init, right, verbose, sched);
      StepReports(build, right, verbose, sched, prev.result.value, e, [], abs);
      ContentsReportsMismatched(build, init, right, verbose, sched, abs);
      assert forall k :: 0 <= k < |init| ==> init[k] == left[k];
      if Mismatched(abs) in Step(build, right, verbose, sched, prev.result.value, e).log {
        assert left[|left| - 1].1 == abs;
      }
    }
  }

  /** When the loop runs to the end, `match <relative>` is reported, with
      `verbose` only, for exactly the left entries that do not fail. */
  lemma {:induction false} ContentsReportsMatched<T>(build: Build<T>, left: seq<Entry>, right: map<Path, Path>,
                                                         verbose: bool, sched: Schedule, rel: Path)
    requires Contents(build, left, right, verbose, sched).result.Ok?
    ensures Matched(rel) in Contents(build, left, right, verbose, sched).log
      <==> verbose && exists k :: 0 <= k < |left| && left[k].0 == rel && !Fails(build, right, left[k])
  {
    if left != [] {
      var init, e := left[..|left| - 1], left[|left| - 1];
      LastStep(build, left, right, verbose, sched);
      var prev := Contents(build, init, right, verbose, sched);
      StepReports(build, right, verbose, sched, prev.result.value, e, rel, []);
      ContentsReportsMatched(build, init, right, verbose, sched, rel);
      assert forall k :: 0 <= k < |init| ==> init[k] == left[k];
      if Matched(rel) in Step(build, right, verbose, sched, prev.result.value, e).log {
        assert left[|left| - 1].0 == rel;
      }
    }
  }

  /** The one report a left entry gives in a verbose run that does not fail. */
  function ReportFor<T(==)>(build: Build<T>, right: map<Path, Path>, e: Entry): (r: Report)
    ensures r.Missing? <==> e.0 !in right
    ensures r.Mismatched? <==> e.0 in right && Fails(build, right, e)
    ensures r.Matched? || r.Missing? ==> r.relative == e.0
    ensures r.Mismatched? ==> r.absolute == e.1
  {
    if e.0 !in right then Missing(e.0)
    else if Fails(build, right, e) then Mismatched(e.1)
    else Matched(e.0)
  }

  /** The reports of all the left entries, one each, in order. */
  function ReportsOf<T(==)>(build: Build<T>, right: map<Path, Path>, left: seq<Entry>): (rs: seq<Report>)
    ensures |rs| == |left|
    ensures forall k :: 0 <= k < |left| ==> rs[k] == ReportFor(build, right, left[k])
  {
    seq(|left|, k requires 0 <= k < |left| => ReportFor(build, right, left[k]))
  }

  /** A successful verbose step reports its entry once. */
  lemma StepReport<T>(build: Build<T>, right: map<Path, Path>, sched: Schedule, hasFailure: bool, e: Entry)
    requires Step(build, right, true, sched, hasFailure, e).result.Ok?
    ensures Step(build, right, true, sched, hasFailure, e).log == [ReportFor(build, right, e)]
  {
  }

  /** When the loop runs to the end, each left entry gives exactly one
      report, in the order of the left entries: `missing <relative>` when it
      is absent on the right, `MISMATCH <absolute>` when the outputs
      differ, and `match <relative>` otherwise, the last kind only when
      verbose. */
  lemma {:induction false} ContentsLog<T>(build: Build<T>, left: seq<Entry>, right: map<Path, Path>,
                                              verbose: bool, sched: Schedule)
    requires Contents(build, left, right, verbose, sched).result.Ok?
    ensures verbose ==> Contents(build, left, right, verbose, sched).log == ReportsOf(build, right, left)
    ensures !verbose ==> Contents(build, left, right, verbose, sched).log == Quiet(ReportsOf(build, right, left))
  {
    if verbose {
      VerboseLog(build, left, right, sched);
    } else {
      VerboseOnlyAddsMatches(build, left, right, sched);
      VerboseLog(build, left, right, sched);
    }
  }

  /** A verbose run that does not fail logs every entry's report, in order. */
  lemma {:induction false} VerboseLog<T>(build: Build<T>, left: seq<Entry>, right: map<Path, Path>, sched: Schedule)
    requires Contents(build, left, right, true, sched).result.Ok?
    ensures Contents(build, left, right, true, sched).log == ReportsOf(build, right, left)
  {
    if left != [] {
      var init, e := left[..|left| - 1], left[|left| - 1];
      LastStep(build, left, right, true, sched);
      var prev := Contents(build, init, right, true, sched);
      StepReport(build, right, sched, prev.result.value, e);
      VerboseLog(build, init, right, sched);
      assert ReportsOf(build, right, left) == ReportsOf(build, right, init) + [ReportFor(build, right, e)];
    }
  }

  /** When the loop runs to the end, `missing <relative>` is reported for
      exactly the left entries absent on the right, `MISMATCH <absolute>`
      for exactly those that differ, and `match <relative>` (when verbose)
      for exactly those that agree. */
  lemma ContentsReports<T>(build: Build<T>, left: seq<Entry>, right: map<Path, Path>,
                               verbose: bool, sched: Schedule, rel: Path, abs: Path)
    requires Contents(build, left, right, verbose, sched).result.Ok?
    ensures Missing(rel) in Contents(build, left, right, verbose, sched).log
      <==> exists k :: 0 <= k < |left| && left[k].0 == rel && rel !in right
    ensures Mismatched(abs) in Contents(build, left, right, verbose, sched).log
      <==> exists k :: 0 <= k < |left| && left[k].1 == abs && Fails(build, right, left[k]) && left[k].0 in right
    ensures Matched(rel) in Contents(build, left, right, verbose, sched).log
      <==> verbose && exists k :: 0 <= k < |left| && left[k].0 == rel && !Fails(build, right, left[k])
  {
    ContentsReportsMissing(build, left, right, verbose, sched, rel);
    ContentsReportsMismatched(build, left, right, verbose, sched, abs);
    ContentsReportsMatched(build, left, right, verbose, sched, rel);
  }
}
