/**
 `main` of the fetch-pull-push script: fetch, pull, list the changed files,
 and when there are any stage everything, commit with a message naming them
 and push, finishing with `git status`. Only the pull, the commit and the
 push are checked; the outcomes of the fetch, of `git add .` and of the final
 status are never looked at.
 */
module FetchPullPush {
  import opened Strings
  import opened Shell
  import opened Porcelain

  /** Where a run stops, one case per `return` of `main` plus its normal end. */
  datatype End =
    | PullFailed          // "Failed to pull changes"
    | UpToDate            // "Repository is up to date"
    | CommitFailed        // "Failed to commit changes"
    | PushFailed          // "Failed to push changes to remote"
    | Pushed(message: string)

  /** The commit message: "Adding: " then the changed names joined by ", ". */
  function CommitMessage(files: seq<string>): string {
    "Adding: " + Join(files, ", ")
  }

  /**
   `main`'s control flow once `get_changed_files` has answered `files`: the
   commands issued against `world`, in order, and where the run stops.
   */
  function Flow(world: World, files: seq<string>): Run<End>
  {
    if Fails(world, Pull) then Run([Fetch, Pull], PullFailed)
    else if files == [] then Run([Fetch, Pull, StatusPorcelain], UpToDate)
    else
      var message := CommitMessage(files);
      var staged := [Fetch, Pull, StatusPorcelain, AddAll, Commit(message)];
      if Fails(world, Commit(message)) then Run(staged, CommitFailed)
      else if Fails(world, Push) then Run(staged + [Push], PushFailed)
      else Run(staged + [Push, Status], Pushed(message))
  }

  /** `main`: the flow with the files parsed from `git status --porcelain`. */
  function Main(world: World): Run<End>
  {
    Flow(world, ChangedFiles(world(StatusPorcelain)))
  }

  /** Every run starts with the fetch and the pull and never repeats a command. */
  lemma FlowShape(world: World, files: seq<string>)
    ensures var t := Flow(world, files).trace;
            |t| >= 2 && t[0] == Fetch && t[1] == Pull && NoRepeats(t)
  {
    var t := Flow(world, files).trace;
    forall i, j | 0 <= i < j < |t| ensures t[i] != t[j] {
    }
  }

  /**
   The outcomes of the fetch, of `git add .` and of the closing status never
   change the run: only the other commands' results decide it.
   */
  lemma UncheckedOutcomesIgnored(w1: World, w2: World, files: seq<string>)
    requires forall c :: c != Fetch && c != AddAll && c != Status ==> w1(c) == w2(c)
    ensures Flow(w1, files) == Flow(w2, files)
  {
    assert w1(Pull) == w2(Pull);
    assert w1(Push) == w2(Push);
    assert w1(Commit(CommitMessage(files))) == w2(Commit(CommitMessage(files)));
  }

  /** A failed pull ends the run at once, before the status is read. */
  lemma PullFailureStops(world: World, files: seq<string>)
    ensures Fails(world, Pull) <==> Flow(world, files).end == PullFailed
    ensures Fails(world, Pull) ==> Flow(world, files).trace == [Fetch, Pull]
  {
  }

  /** No changed files: report "up to date" and stage, commit and push nothing. */
  lemma NothingToPush(world: World, files: seq<string>)
    requires !Fails(world, Pull)
    ensures files == [] <==> Flow(world, files).end == UpToDate
    ensures files == [] ==> Flow(world, files).trace == [Fetch, Pull, StatusPorcelain]
  {
  }

  /** The only commit issued is the one naming the changed files, in parser order. */
  lemma CommitNamesChangedFiles(world: World, files: seq<string>, message: string)
    requires Commit(message) in Flow(world, files).trace
    ensures !Fails(world, Pull) && files != []
    ensures message == "Adding: " + Join(files, ", ")
  {
  }

  /** `git push` is issued exactly when the pull and the commit went through. */
  lemma PushOnlyAfterCommit(world: World, files: seq<string>)
    ensures Push in Flow(world, files).trace <==>
              && !Fails(world, Pull)
              && files != []
              && !Fails(world, Commit(CommitMessage(files)))
    ensures Push in Flow(world, files).trace ==>
              var t := Flow(world, files).trace;
              t[3] == AddAll && t[4] == Commit(CommitMessage(files)) && t[5] == Push
  {
  }

  /** A failed push skips the closing `git status`; only a push that went through reaches it. */
  lemma StatusOnlyAfterPush(world: World, files: seq<string>)
    ensures var r := Flow(world, files);
            && (Status in r.trace <==> r.end.Pushed?)
            && (r.end.Pushed? ==> r.trace[|r.trace| - 1] == Status)
            && (r.end == PushFailed ==> r.trace[|r.trace| - 1] == Push)
  {
  }

  /**
   A status command that fails or prints only whitespace reads as "no local
   changes": after a successful pull the run stops there, up to date.
   */
  lemma SilentStatusIsUpToDate(world: World)
    requires !Fails(world, Pull)
    requires Fails(world, StatusPorcelain) || AllSpace(world(StatusPorcelain).stdout)
    ensures Main(world) == Run([Fetch, Pull, StatusPorcelain], UpToDate)
  {
    ChangedFilesBounds(world(StatusPorcelain));
  }

  /** The commit `main` issues names the files parsed from the status output. */
  lemma MainCommitMessage(world: World, message: string)
    requires Commit(message) in Main(world).trace
    ensures message == CommitMessage(ChangedFiles(world(StatusPorcelain)))
    ensures ChangedFiles(world(StatusPorcelain)) != []
  {
    CommitNamesChangedFiles(world, ChangedFiles(world(StatusPorcelain)), message);
  }

  /** The message grows by ", name" for each further changed file, in order. */
  lemma CommitMessageAppend(files: seq<string>, name: string)
    requires files != []
    ensures CommitMessage(files + [name]) == CommitMessage(files) + ", " + name
  {
    JoinAppend(files, name, ", ");
  }

  /** `main` reading the status with the corrected parser `ChangedFilesIntended`. */
  function MainIntended(world: World): Run<End>
  {
    Flow(world, ChangedFilesIntended(world(StatusPorcelain)))
  }

  /**
   With " M name" as the only status line, the script as written commits under
   the name cut one character short, while the corrected parser commits under
   the name itself.
   */
  lemma CommitOfShiftedFirstLine(world: World, x: char, name: string)
    requires !IsSpace(x) && name != [] && Trimmed(name) && '\n' !in name
    requires world(StatusPorcelain).returncode == 0
    requires world(StatusPorcelain).stdout == [' ', x, ' '] + name + "\n"
    requires !Fails(world, Pull)
    ensures Commit("Adding: " + Strip(name[1..])) in Main(world).trace
    ensures Commit("Adding: " + name) in MainIntended(world).trace
  {
    var p := world(StatusPorcelain);
    assert p == ProcessResult(0, [' ', x, ' '] + name + "\n", p.stderr);
    FirstLineShifted(x, name, p.stderr);
    IntendedFirstLine(x, name, p.stderr);
  }
}
