/**
 The external commands both scripts issue, what an invocation yields, and
 `run_command`, which both scripts define identically: a non-zero exit code
 becomes Python's `None`, anything else the standard output stripped of
 surrounding whitespace.
 */
module Shell {
  import opened Strings

  /** Every git invocation the two orchestrators make. */
  datatype Command =
    | RevParseAbbrevHead          // git rev-parse --abbrev-ref HEAD
    | StatusPorcelain             // git status --porcelain
    | Status                      // git status
    | Fetch                       // git fetch
    | RevListCount(branch: string) // git rev-list --count HEAD..origin/<branch>
    | Stash                       // git stash
    | Pull                        // git pull
    | AddAll                      // git add .
    | Commit(message: string)     // git commit -m "<message>"
    | Push                        // git push

  /** What the subprocess hands back. */
  datatype ProcessResult = ProcessResult(returncode: int, stdout: string, stderr: string)

  /** `run_command`'s result: `None`, or the stripped standard output. */
  datatype Outcome = Fail | Ok(out: string)

  /**
   The world a run sees: the result each command would produce. No run issues
   the same command twice, so one result per command is all a run can observe.
   */
  type World = Command -> ProcessResult

  /** The shell line each command is run as. */
  function CommandLine(c: Command): string {
    match c
    case RevParseAbbrevHead => "git rev-parse --abbrev-ref HEAD"
    case StatusPorcelain => "git status --porcelain"
    case Status => "git status"
    case Fetch => "git fetch"
    case RevListCount(b) => "git rev-list --count HEAD..origin/" + b
    case Stash => "git stash"
    case Pull => "git pull"
    case AddAll => "git add ."
    case Commit(m) => "git commit -m \"" + m + "\""
    case Push => "git push"
  }

  /** Distinct commands are distinct command lines, so keying a `World` on `Command`
      rather than on the string handed to the shell loses nothing. */
  lemma {:induction false} CommandLineInjective(c1: Command, c2: Command)
    ensures CommandLine(c1) == CommandLine(c2) <==> c1 == c2
  {
    if CommandLine(c1) == CommandLine(c2) {
      var l := CommandLine(c1);
      match c1
      case RevListCount(b) =>
        assert l[..34] == "git rev-list --count HEAD..origin/";
        assert |l| >= 34 && l[4] == 'r' && l[8] == 'l';
        assert c2.RevListCount?;
        assert l == "git rev-list --count HEAD..origin/" + c2.branch;
        assert b == l[34..] == c2.branch;
      case Commit(m) =>
        assert l[..15] == "git commit -m \"";
        assert l[4] == 'c';
        assert c2.Commit?;
        assert l == "git commit -m \"" + c2.message + "\"";
        assert m == l[15..|l| - 1] == c2.message;
      case _ =>
        // The length and the characters at 4 and 6 tell the lines apart.
        assert |l| >= 8 && l[4] == CommandLine(c2)[4] && l[6] == CommandLine(c2)[6];
    }
  }

  /** `run_command`: `None` on a non-zero exit code, else the stripped output. */
  function RunCommand(p: ProcessResult): (o: Outcome)
    ensures o.Fail? <==> p.returncode != 0
  {
    if p.returncode != 0 then Fail else Ok(Strip(p.stdout))
  }

  /** `run_command` on `c` returns `None` in `world`: the command exits non-zero. */
  predicate Fails(world: World, c: Command) {
    world(c).returncode != 0
  }

  /**
   A successful command's result is its standard output less the whitespace
   at either end: trimmed, contiguous, and empty exactly when the output was
   all whitespace.
   */
  lemma RunCommandOutput(p: ProcessResult)
    requires p.returncode == 0
    ensures RunCommand(p).Ok?
    ensures var out := RunCommand(p).out;
            && Trimmed(out)
            && (out == [] <==> AllSpace(p.stdout))
            && Indent(p.stdout) + |out| <= |p.stdout|
            && out == p.stdout[Indent(p.stdout)..Indent(p.stdout) + |out|]
            && AllSpace(p.stdout[..Indent(p.stdout)])
            && AllSpace(p.stdout[Indent(p.stdout) + |out|..])
  {
    StripSpec(p.stdout);
  }

  /** What a run did: the commands it issued, in order, and how it ended. */
  datatype Run<E> = Run(trace: seq<Command>, end: E)

  predicate NoRepeats(trace: seq<Command>) {
    forall i, j :: 0 <= i < j < |trace| ==> trace[i] != trace[j]
  }

  /** How many times `c` occurs in `trace`. */
  function Occurrences(trace: seq<Command>, c: Command): nat
  {
    if trace == [] then 0
    else (if trace[0] == c then 1 else 0) + Occurrences(trace[1..], c)
  }

  /** A command that occurs once in a trace without repeats. */
  lemma {:induction false} OccursOnce(trace: seq<Command>, c: Command)
    requires NoRepeats(trace) && c in trace
    ensures Occurrences(trace, c) == 1
  {
    if trace[0] == c {
      NotOccurring(trace[1..], c);
    } else {
      OccursOnce(trace[1..], c);
    }
  }

  lemma {:induction false} NotOccurring(trace: seq<Command>, c: Command)
    requires c !in trace
    ensures Occurrences(trace, c) == 0
  {
    if trace != [] {
      NotOccurring(trace[1..], c);
    }
  }
}
