/**
 * `move_image` and the loop of `process_images`. The destination folder is the set of file
 * names it holds; the log is the sequence of lines written to the log file and the console.
 */
module Batch {
  import opened Wrappers
  import opened ImageFilter
  import opened CreationPrefix

  /** A line the script logs, keeping the parts of it that are not wall-clock figures. */
  datatype LogEntry =
    | NoImagesFound                         // "No images found to process."
    | PrefixFailed(path: string)            // error while reading the creation time of `path`
    | AlreadyExists(name: string)           // "File already exists and will be skipped"
    | CopyFailed(path: string)              // error while copying `path`
    | Progress(done: nat, total: nat)       // "Processing image done/total" and its ETA line
    | Totals(processed: int, skipped: nat)  // the closing summary lines

  /** What a run ends with: nothing to do, or the two totals of its summary. */
  datatype Report = NothingToDo | Summary(processed: int, skipped: nat)

  /** The lines `move_image` logs for one file. */
  function MoveLog(dest: set<string>, path: string, name: string, copyFails: bool): seq<LogEntry>
  {
    if name in dest then [AlreadyExists(name)]
    else if copyFails then [CopyFailed(path)]
    else []
  }

  /** The destination names, the skip counter and the log, between two iterations of the loop. */
  datatype RunState = RunState(dest: set<string>, skipped: nat, log: seq<LogEntry>)

  /** `add_creation_date_prefix` as the loop sees it: each path's new name, given creation times. */
  function Namer(stampOf: string -> Option<Stamp>): string -> Option<string>
  {
    path => TargetName(stampOf(path), path)
  }

  /**
   * One iteration of the loop of `process_images`, on candidate `i`; `nameOf` gives the result
   * of `add_creation_date_prefix` and `copyFails` whether `shutil.copy2` raises.
   */
  function Step(st: RunState, images: seq<string>, i: nat,
                nameOf: string -> Option<string>, copyFails: string -> bool): RunState
    requires i < |images|
  {
    var path := images[i];
    match nameOf(path)
    case None => st.(log := st.log + [PrefixFailed(path)])
    case Some(name) =>
      var copied := name !in st.dest && !copyFails(path);
      RunState(if copied then st.dest + {name} else st.dest,
               if copied then st.skipped else st.skipped + 1,
               st.log + MoveLog(st.dest, path, name, copyFails(path)) + [Progress(i + 1, |images|)])
  }

  /** The state after the loop has handled the first `k` candidates. */
  function Replay(st: RunState, images: seq<string>, k: nat,
                  nameOf: string -> Option<string>, copyFails: string -> bool): RunState
    requires k <= |images|
  {
    if k == 0 then st
    else Step(Replay(st, images, k - 1, nameOf, copyFails), images, k - 1, nameOf, copyFails)
  }

  /** How many of the first `k` candidates get a new name. */
  function Named(images: seq<string>, k: nat, nameOf: string -> Option<string>): (n: nat)
    requires k <= |images|
    ensures n <= k
  {
    if k == 0 then 0
    else Named(images, k - 1, nameOf) + (if nameOf(images[k - 1]).Some? then 1 else 0)
  }

  /**
   * What a run does to the destination and the counter: names are only added, the counter
   * grows by at most the number of named candidates (a candidate without a name is never
   * counted as skipped), and every named candidate that is not skipped adds one name that was
   * not there before, so no name is inserted twice.
   */
  lemma {:induction false} ReplayAccounting(st: RunState, images: seq<string>, k: nat,
                                            nameOf: string -> Option<string>, copyFails: string -> bool)
    requires k <= |images|
    ensures var r := Replay(st, images, k, nameOf, copyFails);
      && st.dest <= r.dest
      && st.skipped <= r.skipped <= st.skipped + Named(images, k, nameOf)
      && |r.dest| == |st.dest| + Named(images, k, nameOf) - (r.skipped - st.skipped)
  {
    if k > 0 {
      ReplayAccounting(st, images, k - 1, nameOf, copyFails);
    }
  }

  /**
   * A candidate whose creation time cannot be read is neither copied nor counted as skipped:
   * a run over such candidates only logs, so the summary reports them all as processed.
   */
  lemma {:induction false} UnnamedCandidatesAreNotSkipped(st: RunState, images: seq<string>, k: nat,
                                                          nameOf: string -> Option<string>, copyFails: string -> bool)
    requires k <= |images|
    requires forall i :: 0 <= i < k ==> nameOf(images[i]).None?
    ensures Replay(st, images, k, nameOf, copyFails).dest == st.dest
    ensures Replay(st, images, k, nameOf, copyFails).skipped == st.skipped
  {
    if k > 0 {
      UnnamedCandidatesAreNotSkipped(st, images, k - 1, nameOf, copyFails);
      assert nameOf(images[k - 1]).None?;
    }
  }

  /**
   * In any run, a candidate whose creation time cannot be read leaves the destination and the
   * skip counter as they were and only adds its error line: no copy, no skip, no progress line.
   */
  lemma UnnamedCandidateIsNotSkipped(st: RunState, images: seq<string>, i: nat,
                                     nameOf: string -> Option<string>, copyFails: string -> bool)
    requires i < |images| && nameOf(images[i]).None?
    ensures var before := Replay(st, images, i, nameOf, copyFails);
      var after := Replay(st, images, i + 1, nameOf, copyFails);
      && after.dest == before.dest
      && after.skipped == before.skipped
      && after.log == before.log + [PrefixFailed(images[i])]
  {
  }

  /** Every name a run adds to the destination is the new name of one of its candidates. */
  lemma {:induction false} ReplayAddsOnlyCandidateNames(st: RunState, images: seq<string>, k: nat,
                                                        nameOf: string -> Option<string>, copyFails: string -> bool)
    requires k <= |images|
    ensures forall n :: n in Replay(st, images, k, nameOf, copyFails).dest && n !in st.dest ==>
      exists i :: 0 <= i < k && nameOf(images[i]) == Some(n)
  {
    if k > 0 {
      ReplayAddsOnlyCandidateNames(st, images, k - 1, nameOf, copyFails);
      var prev := Replay(st, images, k - 1, nameOf, copyFails);
      var r := Replay(st, images, k, nameOf, copyFails);
      assert r == Step(prev, images, k - 1, nameOf, copyFails);
      forall n | n in r.dest && n !in st.dest
        ensures exists i :: 0 <= i < k && nameOf(images[i]) == Some(n)
      {
        if n !in prev.dest {
          assert nameOf(images[k - 1]) == Some(n);
        } else {
          var i :| 0 <= i < k - 1 && nameOf(images[i]) == Some(n);
          assert 0 <= i < k;
        }
      }
    }
  }

  /**
   * After a run, every named candidate's name is in the destination, or copying that
   * candidate failed.
   */
  lemma {:induction false} ReplayCovers(st: RunState, images: seq<string>, k: nat,
                                        nameOf: string -> Option<string>, copyFails: string -> bool)
    requires k <= |images|
    ensures forall i :: 0 <= i < k && nameOf(images[i]).Some? ==>
      nameOf(images[i]).value in Replay(st, images, k, nameOf, copyFails).dest || copyFails(images[i])
  {
    if k > 0 {
      ReplayCovers(st, images, k - 1, nameOf, copyFails);
      var prev := Replay(st, images, k - 1, nameOf, copyFails);
      var r := Replay(st, images, k, nameOf, copyFails);
      assert r == Step(prev, images, k - 1, nameOf, copyFails);
      assert prev.dest <= r.dest;
    }
  }

  /**
   * Against a destination that already holds the name of every candidate that could be copied,
   * a run copies nothing and counts every named candidate as skipped.
   */
  lemma {:induction false} ReplayOverCoveredDestination(st: RunState, images: seq<string>, k: nat,
                                                        nameOf: string -> Option<string>, copyFails: string -> bool)
    requires k <= |images|
    requires forall i :: 0 <= i < |images| && nameOf(images[i]).Some? ==>
      nameOf(images[i]).value in st.dest || copyFails(images[i])
    ensures Replay(st, images, k, nameOf, copyFails).dest == st.dest
    ensures Replay(st, images, k, nameOf, copyFails).skipped == st.skipped + Named(images, k, nameOf)
  {
    if k > 0 {
      ReplayOverCoveredDestination(st, images, k - 1, nameOf, copyFails);
    }
  }

  /**
   * Running twice against the same destination: the second run, seeing the same names and
   * copy outcomes, skips every candidate that has a name and leaves the destination as the
   * first run left it.
   */
  lemma SecondRunSkipsAll(dest: set<string>, images: seq<string>, log1: seq<LogEntry>, log2: seq<LogEntry>,
                          nameOf: string -> Option<string>, copyFails: string -> bool)
    ensures var first := Replay(RunState(dest, 0, log1), images, |images|, nameOf, copyFails);
      var second := Replay(RunState(first.dest, 0, log2), images, |images|, nameOf, copyFails);
      second.dest == first.dest && second.skipped == Named(images, |images|, nameOf)
  {
    var first := Replay(RunState(dest, 0, log1), images, |images|, nameOf, copyFails);
    ReplayCovers(RunState(dest, 0, log1), images, |images|, nameOf, copyFails);
    ReplayOverCoveredDestination(RunState(first.dest, 0, log2), images, |images|, nameOf, copyFails);
  }

  /** Candidates that get a name get different names. */
  predicate DistinctNames(images: seq<string>, nameOf: string -> Option<string>)
  {
    forall i, j :: 0 <= i < j < |images| && nameOf(images[i]).Some? ==> nameOf(images[i]) != nameOf(images[j])
  }

  lemma {:induction false} NoSkipsWhileDistinct(st: RunState, images: seq<string>, k: nat,
                                                nameOf: string -> Option<string>, copyFails: string -> bool)
    requires k <= |images| && st.dest == {}
    requires DistinctNames(images, nameOf)
    requires forall i :: 0 <= i < |images| ==> !copyFails(images[i])
    ensures Replay(st, images, k, nameOf, copyFails).skipped == st.skipped
  {
    if k > 0 {
      NoSkipsWhileDistinct(st, images, k - 1, nameOf, copyFails);
      var prev := Replay(st, images, k - 1, nameOf, copyFails);
      ReplayAddsOnlyCandidateNames(st, images, k - 1, nameOf, copyFails);
      if nameOf(images[k - 1]).Some? && nameOf(images[k - 1]).value in prev.dest {
        assert false;
      }
    }
  }

  /** Files of one folder have different base names, so they get different new names. */
  lemma DistinctBaseNamesGiveDistinctNames(images: seq<string>, stampOf: string -> Option<Stamp>)
    requires forall i, j :: 0 <= i < j < |images| ==> BaseName(images[i]) != BaseName(images[j])
    ensures DistinctNames(images, Namer(stampOf))
  {
    forall i, j | 0 <= i < j < |images| && Namer(stampOf)(images[i]).Some?
      ensures Namer(stampOf)(images[i]) != Namer(stampOf)(images[j])
    {
      if stampOf(images[j]).Some? {
        TargetNameInjective(stampOf(images[i]).value, images[i], stampOf(images[j]).value, images[j]);
      }
    }
  }

  /**
   * Copying the files of one folder into an empty destination with no copy errors skips
   * nothing, so the summary reports every candidate as processed.
   */
  lemma FreshDestinationSkipsNothing(images: seq<string>, log: seq<LogEntry>,
                                     stampOf: string -> Option<Stamp>, copyFails: string -> bool)
    requires forall i, j :: 0 <= i < j < |images| ==> BaseName(images[i]) != BaseName(images[j])
    requires forall i :: 0 <= i < |images| ==> !copyFails(images[i])
    ensures Replay(RunState({}, 0, log), images, |images|, Namer(stampOf), copyFails).skipped == 0
  {
    DistinctBaseNamesGiveDistinctNames(images, stampOf);
    NoSkipsWhileDistinct(RunState({}, 0, log), images, |images|, Namer(stampOf), copyFails);
  }

  /** An error line that names a file. */
  predicate NamesFile(e: LogEntry)
  {
    e.PrefixFailed? || e.CopyFailed?
  }

  /** One iteration extends the log, and its error lines name only the candidate it handles. */
  lemma StepLogsOnlyItsCandidate(st: RunState, images: seq<string>, i: nat,
                                 nameOf: string -> Option<string>, copyFails: string -> bool)
    requires i < |images|
    ensures var r := Step(st, images, i, nameOf, copyFails);
      && |st.log| <= |r.log| && r.log[..|st.log|] == st.log
      && forall j :: |st.log| <= j < |r.log| && NamesFile(r.log[j]) ==> r.log[j].path == images[i]
  {
  }

  /** Only candidates are ever named in an error line: other files never appear in the log. */
  lemma {:induction false} ReplayLogsOnlyCandidates(st: RunState, images: seq<string>, k: nat,
                                                    nameOf: string -> Option<string>, copyFails: string -> bool)
    requires k <= |images|
    ensures var r := Replay(st, images, k, nameOf, copyFails);
      && |st.log| <= |r.log| && r.log[..|st.log|] == st.log
      && forall j :: |st.log| <= j < |r.log| && NamesFile(r.log[j]) ==> r.log[j].path in images[..k]
  {
    if k > 0 {
      ReplayLogsOnlyCandidates(st, images, k - 1, nameOf, copyFails);
      var prev := Replay(st, images, k - 1, nameOf, copyFails);
      var r := Replay(st, images, k, nameOf, copyFails);
      StepLogsOnlyItsCandidate(prev, images, k - 1, nameOf, copyFails);
      assert r == Step(prev, images, k - 1, nameOf, copyFails);
      forall j | |st.log| <= j < |r.log| && NamesFile(r.log[j])
        ensures r.log[j].path in images[..k]
      {
        if j < |prev.log| {
          assert r.log[j] == r.log[..|prev.log|][j];
          assert images[..k - 1] <= images[..k];
        } else {
          assert images[..k][k - 1] == images[k - 1];
        }
      }
      assert r.log[..|st.log|] == r.log[..|prev.log|][..|st.log|];
    }
  }

  /** One invocation of the script: the destination folder's names and the log it writes. */
  class Session {
    var dest: set<string>
    var log: seq<LogEntry>

    /** A run starts with whatever the destination folder already holds, and an empty log. */
    constructor (existing: set<string>)
      ensures dest == existing && log == []
    {
      dest := existing;
      log := [];
    }

    /**
     * `add_creation_date_prefix`: the new name for `path` given its creation time, or `None`,
     * with an error line, when that time could not be read.
     */
    method AddCreationDatePrefix(path: string, stamp: Option<Stamp>) returns (name: Option<string>)
      modifies this
      ensures name == TargetName(stamp, path)
      ensures dest == old(dest)
      ensures log == old(log) + (if stamp.None? then [PrefixFailed(path)] else [])
    {
      name := TargetName(stamp, path);
      if name.None? {
        log := log + [PrefixFailed(path)];
      }
    }

    /**
     * `move_image`: copies `path` into the destination as `name` unless that name is taken
     * (skip) or the copy fails. The source is not touched; only the destination may change,
     * and only by gaining `name`.
     */
    method MoveImage(path: string, name: string, copyFails: bool) returns (moved: bool)
      modifies this
      ensures moved <==> name !in old(dest) && !copyFails
      ensures dest == if moved then old(dest) + {name} else old(dest)
      ensures log == old(log) + MoveLog(old(dest), path, name, copyFails)
    {
      if name in dest {
        log := log + [AlreadyExists(name)];
        return false;
      }
      if copyFails {
        log := log + [CopyFailed(path)];
        return false;
      }
      dest := dest + {name};
      moved := true;
    }

    /**
     * One pass of the loop body of `process_images` on candidate `index`: rename it, copy it
     * unless the new name is taken or the copy fails, count a skip, log the progress line.
     */
    method HandleImage(images: seq<string>, index: nat, stampOf: string -> Option<Stamp>,
                       copyFails: string -> bool, skipped: nat) returns (skippedAfter: nat)
      requires index < |images|
      modifies this
      ensures RunState(dest, skippedAfter, log)
           == Step(RunState(old(dest), skipped, old(log)), images, index, Namer(stampOf), copyFails)
    {
      skippedAfter := skipped;
      var path := images[index];
      var name := AddCreationDatePrefix(path, stampOf(path));
      assert name == Namer(stampOf)(path);
      if name.Some? {
        var moved := MoveImage(path, name.value, copyFails(path));
        if !moved {
          skippedAfter := skipped + 1;
        }
        log := log + [Progress(index + 1, |images|)];
      }
    }

    /**
     * The loop of `process_images` over the detected images: each is handled in turn and the
     * skip counter is kept. The run's state ends as `Replay` over all the candidates says.
     */
    method HandleAll(images: seq<string>, stampOf: string -> Option<Stamp>, copyFails: string -> bool)
      returns (skipped: nat)
      modifies this
      ensures RunState(dest, skipped, log)
           == Replay(RunState(old(dest), 0, old(log)), images, |images|, Namer(stampOf), copyFails)
      ensures skipped <= |images|
    {
      skipped := 0;
      ghost var start := RunState(dest, 0, log);
      for index := 0 to |images|
        invariant RunState(dest, skipped, log) == Replay(start, images, index, Namer(stampOf), copyFails)
        invariant skipped <= index
      {
        skipped := HandleImage(images, index, stampOf, copyFails, skipped);
      }
    }

    /**
     * `process_images` on the files listed in the source folder, given each file's creation
     * time and whether copying it fails.
     */
    method ProcessImages(files: seq<string>, stampOf: string -> Option<Stamp>, copyFails: string -> bool)
      returns (report: Report)
      modifies this
      ensures var images := DetectImages(files);
        if images == [] then
          report == NothingToDo && dest == old(dest) && log == old(log) + [NoImagesFound]
        else
          var r := Replay(RunState(old(dest), 0, old(log)), images, |images|, Namer(stampOf), copyFails);
          && report == Summary(|images| - r.skipped, r.skipped)
          && 0 <= |images| - r.skipped
          && dest == r.dest
          && log == r.log + [Totals(|images| - r.skipped, r.skipped)]
    {
      var images := DetectImages(files);
      var total := |images|;
      if total == 0 {
        log := log + [NoImagesFound];
        return NothingToDo;
      }
      var skipped := HandleAll(images, stampOf, copyFails);
      log := log + [Totals(total - skipped, skipped)];
      report := Summary(total - skipped, skipped);
    }
  }
}
