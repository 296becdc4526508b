/** The `Cleaner` of main.py: argument normalisation, the ordered verification of `check`,
    and the sweep of `remove_files` that removes the files older than the delay. */
module Cleaner {
  import opened UnitOfTime
  import opened Text
  import opened Conversion

  datatype Option<T> = None | Some(value: T)

  /** The values argparse hands over: `--repertory`, `--delay`, `--timeunit` and the optional `--target`. */
  datatype Arguments = Arguments(repertory: string, delay: int, timeunit: string, target: Option<string>)

  /** The four `ValueError`s `check` may raise, one per verification step. */
  datatype CheckError = InvalidRepertoryName | InvalidUnitOfTime | InvalidDelay | MissingRepertory

  datatype CheckResult = Passed | Failed(error: CheckError)

  /** The text of each error. */
  function Message(e: CheckError): string
  {
    match e
    case InvalidRepertoryName => "The repertory name is not valid"
    case InvalidUnitOfTime => "The unit of time is invalid, should be: second | minute | hour | day | month | year"
    case InvalidDelay => "The delay must be greater than 0"
    case MissingRepertory => "The repertory does not exist"
  }

  /** The step number under which `check` runs the guard that raises `e`. */
  function Step(e: CheckError): nat
  {
    match e
    case InvalidRepertoryName => 1
    case InvalidUnitOfTime => 2
    case InvalidDelay => 3
    case MissingRepertory => 4
  }

  /** Whether the guard that would raise `e` is satisfied; `pathExists` stands for `os.path.exists(repertory)`. */
  predicate GuardHolds(e: CheckError, repertory: string, unit: string, delay: int, pathExists: bool)
  {
    match e
    case InvalidRepertoryName => |repertory| != 0
    case InvalidUnitOfTime => IsValid(unit)
    case InvalidDelay => delay != 0
    case MissingRepertory => pathExists
  }

  /** `Cleaner.check`: the guards run in step order and the first one that fails is the error. */
  function Validate(repertory: string, unit: string, delay: int, pathExists: bool): (r: CheckResult)
    ensures r == Passed <==> forall e :: GuardHolds(e, repertory, unit, delay, pathExists)
    ensures r.Failed? ==> !GuardHolds(r.error, repertory, unit, delay, pathExists)
    ensures r.Failed? ==> forall e :: Step(e) < Step(r.error) ==> GuardHolds(e, repertory, unit, delay, pathExists)
  {
    if |repertory| == 0 then
      assert !GuardHolds(InvalidRepertoryName, repertory, unit, delay, pathExists);
      Failed(InvalidRepertoryName)
    else if !IsValid(unit) then
      assert !GuardHolds(InvalidUnitOfTime, repertory, unit, delay, pathExists);
      Failed(InvalidUnitOfTime)
    else if delay == 0 then
      assert !GuardHolds(InvalidDelay, repertory, unit, delay, pathExists);
      Failed(InvalidDelay)
    else if !pathExists then
      assert !GuardHolds(MissingRepertory, repertory, unit, delay, pathExists);
      Failed(MissingRepertory)
    else Passed
  }

  /** The delay guard refuses 0 and nothing else: every nonzero delay, negative ones included,
      gives the same verdict. */
  lemma NonzeroDelaysAgree(repertory: string, unit: string, d1: int, d2: int, pathExists: bool)
    requires d1 != 0 && d2 != 0
    ensures Validate(repertory, unit, d1, pathExists) == Validate(repertory, unit, d2, pathExists)
    ensures Validate(repertory, unit, d1, pathExists) != Failed(InvalidDelay)
  {
  }

  /** The target `__init__` keeps: the given one, or "update" when `--target` is absent. */
  function TargetOf(args: Arguments): string
  {
    if args.target.Some? then args.target.value else "update"
  }

  /** The repertory name is stripped before it is checked, so a name of whitespace only is refused at step 1. */
  lemma BlankRepertoryRefused(args: Arguments, pathExists: bool)
    ensures Validate(Strip(args.repertory), Strip(args.timeunit), args.delay, pathExists) == Failed(InvalidRepertoryName)
      <==> forall k :: 0 <= k < |args.repertory| ==> IsWhitespace(args.repertory[k])
  {
  }

  /** One file met by the walk: its age in whole seconds since the last modification (`getmtime`) and since
      the creation or status change (`getctime`), and whether `os.remove` succeeds on it. */
  datatype FileEntry = FileEntry(mtimeAge: int, ctimeAge: int, removable: bool)

  /** The settings the sweep reads from the cleaner. */
  datatype Policy = Policy(unit: string, delay: int, target: string)

  /** The age the sweep measures: modification time for target "update", the other timestamp for any other target. */
  function TargetAge(target: string, f: FileEntry): int
  {
    if target == "update" then f.mtimeAge else f.ctimeAge
  }

  /** A file is removed when its age in the chosen unit is strictly greater than the delay. */
  predicate IsCandidate(p: Policy, f: FileEntry)
    requires p.unit in UnitNames
  {
    ConvertedAge(p.unit, TargetAge(p.target, f)) > p.delay
  }

  /** What the sweep does with one file, as its log lines tell: nothing, a removal, or a failed removal. */
  datatype Action = Kept | Removed | RemovalFailed

  function Decide(p: Policy, f: FileEntry): Action
    requires p.unit in UnitNames
  {
    if !IsCandidate(p, f) then Kept else if f.removable then Removed else RemovalFailed
  }

  /** The files of every directory `os.walk` yields, in the order it yields them. */
  function Flatten(walk: seq<seq<FileEntry>>): seq<FileEntry>
  {
    if walk == [] then [] else Flatten(walk[..|walk| - 1]) + walk[|walk| - 1]
  }

  /** The log of a sweep over `files`: one action per file, in order. */
  function Actions(p: Policy, files: seq<FileEntry>): seq<Action>
    requires p.unit in UnitNames
  {
    if files == [] then [] else Actions(p, files[..|files| - 1]) + [Decide(p, files[|files| - 1])]
  }

  /** The log has one entry per file and that entry is the file's own action: a failed removal does not stop
      the files after it from being handled. */
  lemma {:induction false} ActionsPointwise(p: Policy, files: seq<FileEntry>)
    requires p.unit in UnitNames
    ensures |Actions(p, files)| == |files|
    ensures forall k :: 0 <= k < |files| ==> Actions(p, files)[k] == Decide(p, files[k])
  {
    if files != [] {
      ActionsPointwise(p, files[..|files| - 1]);
    }
  }

  /** The number of files a sweep removes: candidates on which removal succeeds. */
  function RemovedCount(p: Policy, files: seq<FileEntry>): nat
    requires p.unit in UnitNames
  {
    if files == [] then 0
    else RemovedCount(p, files[..|files| - 1]) + (if Decide(p, files[|files| - 1]) == Removed then 1 else 0)
  }

  /** The number of candidates among `files`. */
  function CandidateCount(p: Policy, files: seq<FileEntry>): nat
    requires p.unit in UnitNames
  {
    if files == [] then 0
    else CandidateCount(p, files[..|files| - 1]) + (if IsCandidate(p, files[|files| - 1]) then 1 else 0)
  }

  /** The files left in place after a sweep. */
  function Survivors(p: Policy, files: seq<FileEntry>): seq<FileEntry>
    requires p.unit in UnitNames
  {
    if files == [] then []
    else
      var last := files[|files| - 1];
      Survivors(p, files[..|files| - 1]) + (if Decide(p, last) == Removed then [] else [last])
  }

  /** Handling one more file appends its action to the log and adds one to the count iff it is removed. */
  lemma HandleOneMore(p: Policy, files: seq<FileEntry>, f: FileEntry)
    requires p.unit in UnitNames
    ensures Actions(p, files + [f]) == Actions(p, files) + [Decide(p, f)]
    ensures RemovedCount(p, files + [f]) == RemovedCount(p, files) + (if Decide(p, f) == Removed then 1 else 0)
  {
  }

  lemma PrefixOneMore(seen: seq<FileEntry>, files: seq<FileEntry>, j: nat)
    requires j < |files|
    ensures seen + files[..j + 1] == (seen + files[..j]) + [files[j]]
  {
  }

  /** Walking one more directory appends its files. */
  lemma FlattenOneMore(walk: seq<seq<FileEntry>>, i: nat)
    requires i < |walk|
    ensures Flatten(walk[..i + 1]) == Flatten(walk[..i]) + walk[i]
  {
    assert walk[..i + 1][..i] == walk[..i];
  }

  /** The counter never exceeds the candidates, which never exceed the files. */
  lemma {:induction false} CountsBounded(p: Policy, files: seq<FileEntry>)
    requires p.unit in UnitNames
    ensures RemovedCount(p, files) <= CandidateCount(p, files) <= |files|
  {
    if files != [] {
      CountsBounded(p, files[..|files| - 1]);
    }
  }

  /** Every file either survives or is counted as removed, and a second sweep with the same settings, ages and
      removal outcomes over the survivors removes nothing: what is left is either too young or cannot be removed. */
  lemma {:induction false} SecondSweepRemovesNothing(p: Policy, files: seq<FileEntry>)
    requires p.unit in UnitNames
    ensures |Survivors(p, files)| + RemovedCount(p, files) == |files|
    ensures RemovedCount(p, Survivors(p, files)) == 0
  {
    if files != [] {
      var init, last := files[..|files| - 1], files[|files| - 1];
      SecondSweepRemovesNothing(p, init);
      var rest := if Decide(p, last) == Removed then [] else [last];
      RemovedCountAppend(p, Survivors(p, init), rest);
    }
  }

  /** When every candidate can be removed, the first sweep takes all of them: nothing left is a candidate,
      and a second sweep at the same ages attempts no removal at all. */
  lemma {:induction false} NoCandidateSurvives(p: Policy, files: seq<FileEntry>)
    requires p.unit in UnitNames
    requires forall k :: 0 <= k < |files| && IsCandidate(p, files[k]) ==> files[k].removable
    ensures CandidateCount(p, Survivors(p, files)) == 0
    ensures forall k :: 0 <= k < |Actions(p, Survivors(p, files))| ==> Actions(p, Survivors(p, files))[k] == Kept
  {
    if files != [] {
      var init, last := files[..|files| - 1], files[|files| - 1];
      assert forall k :: 0 <= k < |init| ==> init[k] == files[k];
      NoCandidateSurvives(p, init);
      var rest := if Decide(p, last) == Removed then [] else [last];
      CandidateCountAppend(p, Survivors(p, init), rest);
    }
    NoCandidateAllKept(p, Survivors(p, files));
  }

  lemma {:induction false} NoCandidateAllKept(p: Policy, files: seq<FileEntry>)
    requires p.unit in UnitNames && CandidateCount(p, files) == 0
    ensures forall k :: 0 <= k < |Actions(p, files)| ==> Actions(p, files)[k] == Kept
  {
    if files != [] {
      NoCandidateAllKept(p, files[..|files| - 1]);
    }
  }

  lemma {:induction false} CandidateCountAppend(p: Policy, a: seq<FileEntry>, b: seq<FileEntry>)
    requires p.unit in UnitNames
    ensures CandidateCount(p, a + b) == CandidateCount(p, a) + CandidateCount(p, b)
  {
    if b != [] {
      assert (a + b)[..|a + b| - 1] == a + b[..|b| - 1];
      CandidateCountAppend(p, a, b[..|b| - 1]);
    } else {
      assert a + b == a;
    }
  }

  lemma {:induction false} RemovedCountAppend(p: Policy, a: seq<FileEntry>, b: seq<FileEntry>)
    requires p.unit in UnitNames
    ensures RemovedCount(p, a + b) == RemovedCount(p, a) + RemovedCount(p, b)
  {
    if b != [] {
      assert (a + b)[..|a + b| - 1] == a + b[..|b| - 1];
      RemovedCountAppend(p, a, b[..|b| - 1]);
    } else {
      assert a + b == a;
    }
  }

  /** A larger delay never removes more files. */
  lemma {:induction false} LargerDelayRemovesFewer(unit: string, target: string, d1: int, d2: int, files: seq<FileEntry>)
    requires unit in UnitNames && d1 <= d2
    ensures RemovedCount(Policy(unit, d2, target), files) <= RemovedCount(Policy(unit, d1, target), files)
  {
    if files != [] {
      LargerDelayRemovesFewer(unit, target, d1, d2, files[..|files| - 1]);
    }
  }

  /** Every target other than "update" measures the other timestamp, so each sweeps exactly like "creation":
      the same log, file by file, and hence the same count. */
  lemma {:induction false} OtherTargetsAgree(unit: string, delay: int, target: string, files: seq<FileEntry>)
    requires unit in UnitNames && target != "update"
    ensures Actions(Policy(unit, delay, target), files) == Actions(Policy(unit, delay, "creation"), files)
    ensures RemovedCount(Policy(unit, delay, target), files) == RemovedCount(Policy(unit, delay, "creation"), files)
  {
    if files != [] {
      OtherTargetsAgree(unit, delay, target, files[..|files| - 1]);
    }
  }

  /** A negative delay passes `check` and then makes every file whose measured age is not negative a candidate. */
  lemma {:induction false} NegativeDelayTakesEverything(p: Policy, files: seq<FileEntry>)
    requires p.unit in UnitNames && p.delay < 0
    requires forall k :: 0 <= k < |files| ==> TargetAge(p.target, files[k]) >= 0
    ensures CandidateCount(p, files) == |files|
  {
    if files != [] {
      NegativeDelayTakesEverything(p, files[..|files| - 1]);
    }
  }

  /** Worked cases: a file modified 40 days ago goes with a delay of 30 days and stays with a delay of 50;
      of two old files and a young one, the one old file whose removal fails is not counted. */
  lemma SweepScenarios()
    ensures RemovedCount(Policy("day", 30, "update"), [FileEntry(40 * 86400, 0, true)]) == 1
    ensures RemovedCount(Policy("day", 50, "update"), [FileEntry(40 * 86400, 0, true)]) == 0
    ensures RemovedCount(Policy("day", 30, "update"),
      [FileEntry(40 * 86400, 0, true), FileEntry(40 * 86400, 0, false), FileEntry(86400, 0, true)]) == 1
    ensures Actions(Policy("day", 30, "update"),
      [FileEntry(40 * 86400, 0, true), FileEntry(40 * 86400, 0, false), FileEntry(86400, 0, true)])
      == [Removed, RemovalFailed, Kept]
  {
    ActionsPointwise(Policy("day", 30, "update"),
      [FileEntry(40 * 86400, 0, true), FileEntry(40 * 86400, 0, false), FileEntry(86400, 0, true)]);
  }

  class Cleaner {
    var delay: int
    var target: string
    var unitOfTime: string
    var repertoryToClean: string

    /** `__init__` after argument parsing: the target defaults to "update"; unit and repertory are stripped. */
    constructor (args: Arguments)
      ensures delay == args.delay
      ensures target == TargetOf(args)
      ensures args.target == None ==> target == "update"
      ensures unitOfTime == Strip(args.timeunit)
      ensures repertoryToClean == Strip(args.repertory)
    {
      delay := args.delay;
      target := TargetOf(args);
      unitOfTime := Strip(args.timeunit);
      repertoryToClean := Strip(args.repertory);
    }

    /** The body of the inner loop of `remove_files` for one file: convert its age, and try to remove it
        when it is a candidate. */
    method SweepFile(file: FileEntry) returns (action: Action)
      requires unitOfTime in UnitNames
      ensures action == Kept <==> !IsCandidate(Policy(unitOfTime, delay, target), file)
      ensures action == Removed <==> IsCandidate(Policy(unitOfTime, delay, target), file) && file.removable
      ensures action == Decide(Policy(unitOfTime, delay, target), file)
    {
      var age := if target == "update" then file.mtimeAge else file.ctimeAge;
      var units := UnitsTable(age);
      if units[unitOfTime] > delay {
        if file.removable {
          action := Removed;
        } else {
          action := RemovalFailed;
        }
      } else {
        action := Kept;
      }
    }

    /** The inner loop of `remove_files` over the files of one directory. It continues the counter and the log
        of the files `seen` before. */
    method SweepDirectory(files: seq<FileEntry>, removed0: nat, log0: seq<Action>, ghost seen: seq<FileEntry>)
      returns (removed: nat, log: seq<Action>)
      requires unitOfTime in UnitNames
      requires log0 == Actions(Policy(unitOfTime, delay, target), seen)
      requires removed0 == RemovedCount(Policy(unitOfTime, delay, target), seen)
      ensures log == Actions(Policy(unitOfTime, delay, target), seen + files)
      ensures removed == RemovedCount(Policy(unitOfTime, delay, target), seen + files)
    {
      ghost var p := Policy(unitOfTime, delay, target);
      removed, log := removed0, log0;
      var j := 0;
      assert seen + files[..j] == seen;
      while j < |files|
        invariant 0 <= j <= |files|
        invariant log == Actions(p, seen + files[..j])
        invariant removed == RemovedCount(p, seen + files[..j])
      {
        var action := SweepFile(files[j]);
        if action == Removed {
          removed := removed + 1;
        }
        log := log + [action];
        HandleOneMore(p, seen + files[..j], files[j]);
        PrefixOneMore(seen, files, j);
        j := j + 1;
      }
      assert files[..j] == files;
    }

    /** `remove_files`: visits every file of every directory, removes the candidates and counts the removals
        that succeed; a failed removal is logged and the sweep goes on. */
    method RemoveFiles(walk: seq<seq<FileEntry>>) returns (removed: nat, log: seq<Action>)
      requires unitOfTime in UnitNames
      ensures log == Actions(Policy(unitOfTime, delay, target), Flatten(walk))
      ensures removed == RemovedCount(Policy(unitOfTime, delay, target), Flatten(walk))
    {
      ghost var p := Policy(unitOfTime, delay, target);
      removed, log := 0, [];
      var i := 0;
      while i < |walk|
        invariant 0 <= i <= |walk|
        invariant log == Actions(p, Flatten(walk[..i]))
        invariant removed == RemovedCount(p, Flatten(walk[..i]))
      {
        removed, log := SweepDirectory(walk[i], removed, log, Flatten(walk[..i]));
        FlattenOneMore(walk, i);
        i := i + 1;
      }
      assert walk[..i] == walk;
    }
  }

  /** How a run ends: a verification error with the text printed after "Error: ", or a finished sweep with its
      counter, its log and the suffix of the closing "file{s} removed" line. */
  datatype Report = Rejected(error: CheckError, message: string) | Swept(removed: nat, log: seq<Action>, suffix: string)

  /** `run()`: build the cleaner, check it, and sweep only when every guard holds. A passing check guarantees
      that the unit names an entry of the conversion table. */
  method Run(args: Arguments, pathExists: bool, walk: seq<seq<FileEntry>>) returns (report: Report)
    ensures var v := Validate(Strip(args.repertory), Strip(args.timeunit), args.delay, pathExists);
      (report.Rejected? <==> v.Failed?)
      && (v.Failed? ==> report.error == v.error && report.message == Message(v.error))
    ensures report.Swept? ==>
      (Strip(args.timeunit) in UnitNames
       && report.removed == RemovedCount(Policy(Strip(args.timeunit), args.delay, TargetOf(args)), Flatten(walk))
       && report.log == Actions(Policy(Strip(args.timeunit), args.delay, TargetOf(args)), Flatten(walk))
       && (report.suffix == "s" <==> report.removed > 1))
  {
    var cleaner := new Cleaner(args);
    var verdict := Validate(cleaner.repertoryToClean, cleaner.unitOfTime, cleaner.delay, pathExists);
    if verdict.Failed? {
      report := Rejected(verdict.error, Message(verdict.error));
    } else {
      AcceptedUnitHasEntry(cleaner.unitOfTime);
      var removed, log := cleaner.RemoveFiles(walk);
      report := Swept(removed, log, PluralSuffix(removed));
    }
  }
}
