/**
 `main` of the auto-pull script: find the current branch, offer to stash a
 dirty working tree, fetch, count the commits the branch is behind its
 remote-tracking branch, pull when that count is positive, and finish with
 `git status`. Every checked failure ends the run; two unchecked `None`
 results make Python raise, which ends the run as well.
 */
module AutoPull {
  import opened Strings
  import opened Shell

  /** The exceptions the script can raise on its own. */
  datatype Crash =
    | StatusNone        // `None.strip()` in check_for_changes: AttributeError
    | CountNotInteger   // `int(behind_check)` on text that is not a number: ValueError

  /** Where a run stops, one case per `return` of `main`, an exception, or its normal end. */
  datatype End =
    | NoBranch          // "Failed to determine current branch"
    | Crashed(reason: Crash)
    | StashFailed       // "Failed to stash changes"
    | FetchFailed       // "Failed to fetch from remote"
    | PullFailed        // "Failed to pull changes"
    | Finished(pulled: bool)

  /** `get_current_branch`. */
  function CurrentBranch(world: World): Outcome {
    RunCommand(world(RevParseAbbrevHead))
  }

  /** `check_for_changes` on the status outcome; None where Python raises. */
  function CheckForChanges(status: Outcome): Option<bool> {
    match status
    case Fail => None
    case Ok(out) => Some(Strip(out) != [])
  }

  /** The answer to the stash prompt that makes the script stash. */
  predicate WantsStash(answer: string) {
    Lower(answer) == "y"
  }

  /**
   `behind_check and int(behind_check) > 0`: Some(true) to pull, Some(false)
   for "already up-to-date", None where `int()` raises.
   */
  function Behind(count: Outcome): Option<bool> {
    match count
    case Fail => Some(false)
    case Ok(out) =>
      if out == [] then Some(false)
      else
        match ParseInt(out)
        case None => None
        case Some(n) => Some(n > 0)
  }

  /** The branch name as `main` tests it: a failed command and an empty name are both falsy. */
  function BranchName(world: World): string {
    match CurrentBranch(world)
    case Fail => []
    case Ok(name) => name
  }

  /**
   `main`'s control flow once its three decisions are known: whether the tree
   is dirty (None where `check_for_changes` raises), whether the answer asks
   for a stash, and whether the branch is behind (None where `int()` raises).
   The commands issued against `world`, in order, and where the run stops.
   */
  function Flow(world: World, branch: string, dirty: Option<bool>, wants: bool, behind: Option<bool>): Run<End>
  {
    if branch == [] then Run([RevParseAbbrevHead], NoBranch)
    else
      var checked := [RevParseAbbrevHead, StatusPorcelain];
      match dirty
      case None => Run(checked, Crashed(StatusNone))
      case Some(d) =>
        var stash := d && wants;
        if stash && Fails(world, Stash) then Run(checked + [Stash], StashFailed)
        else
          var fetched := checked + (if stash then [Stash] else []) + [Fetch];
          if Fails(world, Fetch) then Run(fetched, FetchFailed)
          else
            var counted := fetched + [RevListCount(branch)];
            match behind
            case None => Run(counted, Crashed(CountNotInteger))
            case Some(false) => Run(counted + [Status], Finished(false))
            case Some(true) =>
              if Fails(world, Pull) then Run(counted + [Pull], PullFailed)
              else Run(counted + [Pull, Status], Finished(true))
  }

  /** `main`, with `answer` the text typed at the stash prompt. */
  function Main(world: World, answer: string): Run<End>
  {
    Flow(world,
         BranchName(world),
         CheckForChanges(RunCommand(world(StatusPorcelain))),
         WantsStash(answer),
         Behind(RunCommand(world(RevListCount(BranchName(world))))))
  }

  /** The run gets as far as the behind-count query. */
  predicate ReachesCount(world: World, branch: string, dirty: Option<bool>, wants: bool) {
    && branch != []
    && dirty.Some?
    && (dirty.value && wants ==> !Fails(world, Stash))
    && !Fails(world, Fetch)
  }

  /** `main` stops at once when `get_current_branch` yields None or an empty name. */
  lemma NoBranchStops(world: World, branch: string, dirty: Option<bool>, wants: bool, behind: Option<bool>)
    ensures branch == [] <==> Flow(world, branch, dirty, wants, behind).end == NoBranch
    ensures Flow(world, branch, dirty, wants, behind).end == NoBranch ==>
              Flow(world, branch, dirty, wants, behind).trace == [RevParseAbbrevHead]
  {
  }

  /** A failed status command makes `check_for_changes` raise right after it. */
  lemma FailedStatusCrashes(world: World, answer: string)
    requires BranchName(world) != []
    requires world(StatusPorcelain).returncode != 0
    ensures Main(world, answer) == Run([RevParseAbbrevHead, StatusPorcelain], Crashed(StatusNone))
  {
  }

  /** The tree is dirty exactly when the status output has a non-whitespace character. */
  lemma DirtyIffOutput(p: ProcessResult)
    requires p.returncode == 0
    ensures CheckForChanges(RunCommand(p)) == Some(!AllSpace(p.stdout))
  {
    RunCommandOutput(p);
    StripIdempotent(p.stdout);
  }

  /** `git stash` runs exactly when the branch is known, the tree dirty and the stash wanted. */
  lemma StashIff(world: World, branch: string, dirty: Option<bool>, wants: bool, behind: Option<bool>)
    ensures Stash in Flow(world, branch, dirty, wants, behind).trace <==>
              branch != [] && dirty == Some(true) && wants
  {
  }

  /** Only "y" and "Y" at the prompt ask for a stash. */
  lemma WantsStashIff(answer: string)
    ensures WantsStash(answer) <==> answer == "y" || answer == "Y"
  {
    LowerIsY(answer);
  }

  /** A failed stash ends the run before the fetch. */
  lemma StashFailureStops(world: World, branch: string, dirty: Option<bool>, wants: bool, behind: Option<bool>)
    requires Stash in Flow(world, branch, dirty, wants, behind).trace
    requires Fails(world, Stash)
    ensures Flow(world, branch, dirty, wants, behind).end == StashFailed
    ensures Fetch !in Flow(world, branch, dirty, wants, behind).trace
  {
  }

  /** A failed fetch ends the run before the behind-count query. */
  lemma FetchFailureStops(world: World, branch: string, dirty: Option<bool>, wants: bool, behind: Option<bool>)
    requires Fetch in Flow(world, branch, dirty, wants, behind).trace
    requires Fails(world, Fetch)
    ensures Flow(world, branch, dirty, wants, behind).end == FetchFailed
    ensures forall b :: RevListCount(b) !in Flow(world, branch, dirty, wants, behind).trace
  {
  }

  /** The behind-count query is issued exactly when the run gets past the fetch, and names the detected branch. */
  lemma CountUsesBranch(world: World, branch: string, dirty: Option<bool>, wants: bool, behind: Option<bool>, b: string)
    ensures RevListCount(b) in Flow(world, branch, dirty, wants, behind).trace <==>
              ReachesCount(world, branch, dirty, wants) && b == branch
  {
  }

  /** `behind_check and int(behind_check) > 0`, spelled out. */
  lemma BehindIff(count: Outcome)
    ensures Behind(count) == Some(true) <==>
              count.Ok? && count.out != [] && ParseInt(count.out).Some? && ParseInt(count.out).value > 0
    ensures Behind(count).None? <==> count.Ok? && count.out != [] && ParseInt(count.out).None?
  {
  }

  /** `git pull` runs exactly when the run reaches the count query and the branch is behind. */
  lemma PullIff(world: World, branch: string, dirty: Option<bool>, wants: bool, behind: Option<bool>)
    ensures Pull in Flow(world, branch, dirty, wants, behind).trace <==>
              ReachesCount(world, branch, dirty, wants) && behind == Some(true)
  {
  }

  /** A failed pull ends the run without the closing status. */
  lemma PullFailureStops(world: World, branch: string, dirty: Option<bool>, wants: bool, behind: Option<bool>)
    requires Pull in Flow(world, branch, dirty, wants, behind).trace
    requires Fails(world, Pull)
    ensures Flow(world, branch, dirty, wants, behind).end == PullFailed
    ensures Status !in Flow(world, branch, dirty, wants, behind).trace
  {
  }

  /** The position of each command in `main`'s fixed order of steps. */
  function StepOrder(c: Command): nat {
    match c
    case RevParseAbbrevHead => 0
    case StatusPorcelain => 1
    case Stash => 2
    case Fetch => 3
    case RevListCount(_) => 4
    case Pull => 5
    case Status => 6
    case AddAll => 7
    case Commit(_) => 8
    case Push => 9
  }

  /** Each command of the trace comes later in the fixed order than the one before it. */
  predicate InStepOrder(t: seq<Command>) {
    forall i :: 0 < i < |t| ==> StepOrder(t[i - 1]) < StepOrder(t[i])
  }

  /** A trace in step order is strictly increasing, so it repeats nothing. */
  lemma {:induction false} InStepOrderNoRepeats(t: seq<Command>)
    requires InStepOrder(t)
    ensures forall i, j :: 0 <= i < j < |t| ==> StepOrder(t[i]) < StepOrder(t[j])
    ensures NoRepeats(t)
  {
    if |t| > 1 {
      var s := t[..|t| - 1];
      assert InStepOrder(s) by {
        forall i | 0 < i < |s| ensures StepOrder(s[i - 1]) < StepOrder(s[i]) {
          assert s[i - 1] == t[i - 1] && s[i] == t[i];
        }
      }
      InStepOrderNoRepeats(s);
      forall i, j | 0 <= i < j < |t| ensures StepOrder(t[i]) < StepOrder(t[j]) {
        if j < |t| - 1 {
          assert t[i] == s[i] && t[j] == s[j];
        } else if i < |t| - 2 {
          assert t[i] == s[i] && t[|t| - 2] == s[|t| - 2];
        }
      }
    }
  }

  /**
   The longest run with the given decisions: every step up to the closing
   status, the stash only when it is taken and the pull only when the count
   does not say "up to date".
   */
  function FullRun(branch: string, stash: bool, behind: Option<bool>): seq<Command> {
    [RevParseAbbrevHead, StatusPorcelain] + (if stash then [Stash] else []) + [Fetch, RevListCount(branch)]
    + (if behind == Some(false) then [] else [Pull]) + [Status]
  }

  lemma FullRunInStepOrder(branch: string, stash: bool, behind: Option<bool>)
    ensures InStepOrder(FullRun(branch, stash, behind))
  {
  }

  /** A prefix of a trace in step order is in step order. */
  lemma PrefixInStepOrder(t: seq<Command>, k: nat)
    requires InStepOrder(t) && k <= |t|
    ensures InStepOrder(t[..k])
  {
    forall i | 0 < i < k ensures StepOrder(t[..k][i - 1]) < StepOrder(t[..k][i]) {
      assert t[..k][i - 1] == t[i - 1];
    }
  }

  /** Every run is the longest run with its decisions, cut short where it stops. */
  lemma FlowIsPrefix(world: World, branch: string, dirty: Option<bool>, wants: bool, behind: Option<bool>)
    ensures var t := Flow(world, branch, dirty, wants, behind).trace;
            var full := FullRun(branch, dirty.Some? && dirty.value && wants, behind);
            |t| <= |full| && t == full[..|t|]
  {
    var r := Flow(world, branch, dirty, wants, behind);
    var stash := dirty.Some? && dirty.value && wants;
    var full := FullRun(branch, stash, behind);
    var counted := [RevParseAbbrevHead, StatusPorcelain] + (if stash then [Stash] else []) + [Fetch, RevListCount(branch)];
    assert full[..|counted|] == counted;
    if r.end.Finished? || r.end == PullFailed {
      assert r.trace == full[..|r.trace|];
    } else if r.end == Crashed(CountNotInteger) {
      assert r.trace == counted;
    } else if r.end == FetchFailed {
      assert r.trace == counted[..|counted| - 1];
    } else if r.end == StashFailed {
      assert r.trace == counted[..3];
    }
  }

  /** Every run follows the fixed order of steps, so no run repeats a command. */
  lemma FlowNoRepeats(world: World, branch: string, dirty: Option<bool>, wants: bool, behind: Option<bool>)
    ensures InStepOrder(Flow(world, branch, dirty, wants, behind).trace)
    ensures NoRepeats(Flow(world, branch, dirty, wants, behind).trace)
  {
    var t := Flow(world, branch, dirty, wants, behind).trace;
    var full := FullRun(branch, dirty.Some? && dirty.value && wants, behind);
    FlowIsPrefix(world, branch, dirty, wants, behind);
    FullRunInStepOrder(branch, dirty.Some? && dirty.value && wants, behind);
    PrefixInStepOrder(full, |t|);
    InStepOrderNoRepeats(t);
  }

  /** Only a run that does not abort issues the closing `git status`. */
  lemma StatusOnlyWhenFinished(world: World, branch: string, dirty: Option<bool>, wants: bool, behind: Option<bool>)
    ensures var r := Flow(world, branch, dirty, wants, behind);
            r.end.Finished? <==> Status in r.trace
  {
    var r := Flow(world, branch, dirty, wants, behind);
    if !r.end.Finished? {
      FlowIsPrefix(world, branch, dirty, wants, behind);
      var full := FullRun(branch, dirty.Some? && dirty.value && wants, behind);
      assert forall k :: 0 <= k < |full| - 1 ==> full[k] != Status;
      assert |r.trace| < |full|;
    }
  }

  /**
   A run that does not abort ends with exactly one `git status`, as its last
   command.
   */
  lemma StatusClosesFinishedRuns(world: World, branch: string, dirty: Option<bool>, wants: bool, behind: Option<bool>)
    requires Flow(world, branch, dirty, wants, behind).end.Finished?
    ensures var t := Flow(world, branch, dirty, wants, behind).trace;
            t[|t| - 1] == Status && Occurrences(t, Status) == 1
  {
    var t := Flow(world, branch, dirty, wants, behind).trace;
    FlowNoRepeats(world, branch, dirty, wants, behind);
    OccursOnce(t, Status);
  }

  /** git's count, printed in decimal, decides the pull: zero means up to date. */
  lemma BehindOfCount(n: nat)
    ensures Behind(Ok(NatToString(n))) == Some(n > 0)
    ensures Behind(Ok("0")) == Some(false)
  {
    ParseIntOfNat(n);
    ParseIntOfNat(0);
    assert NatToString(0) == "0";
  }

  /** A run that gets past the fetch and is not behind ends unpulled, with the count query then the status. */
  lemma UpToDateAfterCount(world: World, branch: string, dirty: Option<bool>, wants: bool)
    requires ReachesCount(world, branch, dirty, wants)
    ensures var r := Flow(world, branch, dirty, wants, Some(false));
            && r.end == Finished(false)
            && |r.trace| >= 2 && r.trace[|r.trace| - 2] == RevListCount(branch) && r.trace[|r.trace| - 1] == Status
  {
  }

  /**
   A count of "0", or a failed count query, takes the up-to-date path: no
   pull ever, and a run that gets past the fetch ends unpulled with the count
   query followed by the closing status.
   */
  lemma ZeroCountSkipsPull(world: World, answer: string)
    requires RunCommand(world(RevListCount(BranchName(world)))) == Ok("0") || Fails(world, RevListCount(BranchName(world)))
    ensures Pull !in Main(world, answer).trace
    ensures Main(world, answer).end.Finished? ==> Main(world, answer).end == Finished(false)
    ensures ReachesCount(world, BranchName(world), CheckForChanges(RunCommand(world(StatusPorcelain))), WantsStash(answer)) ==>
              var t := Main(world, answer).trace;
              && Main(world, answer).end == Finished(false)
              && |t| >= 2 && t[|t| - 2] == RevListCount(BranchName(world)) && t[|t| - 1] == Status
  {
    var dirty := CheckForChanges(RunCommand(world(StatusPorcelain)));
    var count := RunCommand(world(RevListCount(BranchName(world))));
    BehindOfCount(0);
    assert Behind(count) == Some(false);
    PullIff(world, BranchName(world), dirty, WantsStash(answer), Some(false));
    if ReachesCount(world, BranchName(world), dirty, WantsStash(answer)) {
      UpToDateAfterCount(world, BranchName(world), dirty, WantsStash(answer));
    }
  }

  /** A positive count that git prints makes the script pull and, if that works, report status. */
  lemma PositiveCountPulls(world: World, answer: string, n: nat)
    requires n > 0
    requires ReachesCount(world, BranchName(world), CheckForChanges(RunCommand(world(StatusPorcelain))), WantsStash(answer))
    requires RunCommand(world(RevListCount(BranchName(world)))) == Ok(NatToString(n))
    requires !Fails(world, Pull)
    ensures Main(world, answer).end == Finished(true)
    ensures var t := Main(world, answer).trace;
            t[|t| - 2] == Pull && t[|t| - 1] == Status
  {
    BehindOfCount(n);
  }

  /** `main` stops at once exactly when `get_current_branch` yields None or an empty name. */
  lemma MainNoBranch(world: World, answer: string)
    ensures CurrentBranch(world).Fail? || CurrentBranch(world).out == [] <==>
              Main(world, answer) == Run([RevParseAbbrevHead], NoBranch)
  {
  }

  /**
   `main` stashes exactly when the branch is known, the status command succeeds
   with some non-whitespace output, and the answer is "y" or "Y".
   */
  lemma MainStashIff(world: World, answer: string)
    ensures Stash in Main(world, answer).trace <==>
              && BranchName(world) != []
              && world(StatusPorcelain).returncode == 0
              && !AllSpace(world(StatusPorcelain).stdout)
              && (answer == "y" || answer == "Y")
  {
    var status := world(StatusPorcelain);
    StashIff(world, BranchName(world), CheckForChanges(RunCommand(status)), WantsStash(answer),
             Behind(RunCommand(world(RevListCount(BranchName(world))))));
    WantsStashIff(answer);
    if status.returncode == 0 {
      DirtyIffOutput(status);
    }
  }

  /** No run of `main` repeats a command, so one result per command is all it observes. */
  lemma MainNoRepeats(world: World, answer: string)
    ensures NoRepeats(Main(world, answer).trace)
  {
    FlowNoRepeats(world, BranchName(world), CheckForChanges(RunCommand(world(StatusPorcelain))),
                  WantsStash(answer), Behind(RunCommand(world(RevListCount(BranchName(world))))));
  }

  /** The outcome of the closing `git status` is only printed: it never changes the run. */
  lemma FinalStatusIgnored(w1: World, w2: World, answer: string)
    requires forall c :: c != Status ==> w1(c) == w2(c)
    ensures Main(w1, answer) == Main(w2, answer)
  {
    assert w1(RevParseAbbrevHead) == w2(RevParseAbbrevHead);
    var branch := BranchName(w1);
    assert BranchName(w2) == branch;
    assert w1(StatusPorcelain) == w2(StatusPorcelain);
    assert w1(RevListCount(branch)) == w2(RevListCount(branch));
    FlowIgnoresStatus(w1, w2, branch, CheckForChanges(RunCommand(w1(StatusPorcelain))), WantsStash(answer),
                      Behind(RunCommand(w1(RevListCount(branch)))));
  }

  /** The decisions being fixed, Flow reads only the outcomes of stash, fetch and pull. */
  lemma FlowIgnoresStatus(w1: World, w2: World, branch: string, dirty: Option<bool>, wants: bool, behind: Option<bool>)
    requires forall c :: c != Status ==> w1(c) == w2(c)
    ensures Flow(w1, branch, dirty, wants, behind) == Flow(w2, branch, dirty, wants, behind)
  {
    assert w1(Stash) == w2(Stash);
    assert w1(Fetch) == w2(Fetch);
    assert w1(Pull) == w2(Pull);
  }

  /**
   `main` pulls exactly when it gets past the fetch and the count query prints
   a number greater than zero.
   */
  lemma MainPullIff(world: World, answer: string)
    ensures var count := RunCommand(world(RevListCount(BranchName(world))));
            Pull in Main(world, answer).trace <==>
              && ReachesCount(world, BranchName(world), CheckForChanges(RunCommand(world(StatusPorcelain))), WantsStash(answer))
              && count.Ok? && count.out != [] && ParseInt(count.out).Some? && ParseInt(count.out).value > 0
  {
    var count := RunCommand(world(RevListCount(BranchName(world))));
    PullIff(world, BranchName(world), CheckForChanges(RunCommand(world(StatusPorcelain))), WantsStash(answer), Behind(count));
    BehindIff(count);
  }
}
