# Git workflow scripts, modelled in Dafny

Two small Python scripts drive `git` through the shell:

- `fetch_n_pull_remote_repo_script.py` fetches and pulls. It lists the locally changed files from `git status --porcelain` and, when there are any, stages everything. It then commits with the message `Adding: <names joined by ", ">`, pushes, and shows `git status`.
- `auto_pull.py` finds the current branch and offers to stash a dirty working tree. It then fetches, asks `git rev-list --count HEAD..origin/<branch>` how far behind the branch is, pulls when that count is positive, and shows `git status`.

Both scripts share `run_command`. It returns `None` when the command exits non-zero, and otherwise the command's standard output stripped of surrounding whitespace.

The model has five modules:

| module | file | what it holds |
|---|---|---|
| `Strings` | strings.dfy | the Python string built-ins the scripts lean on: `strip()` with Python's whitespace set, `split`, `join`, `lower()`, and `int()` on text |
| `Shell` | shell.dfy | the commands issued, what a process returns, `run_command`, and run traces |
| `Porcelain` | porcelain.dfy | `get_changed_files`, as written and as its comment intends |
| `FetchPullPush` | fetch_pull_push.dfy | `main` of the fetch-pull-push script |
| `AutoPull` | auto_pull.dfy | `get_current_branch`, `check_for_changes` and `main` of the auto-pull script |

Running a command is modelled by a `World`, a function from each command to the process result it would produce. A run is a `Run(trace, end)`: the commands issued, in order, and the way `main` stopped. The stopping point is one of:

- a `return`;
- an exception the script raises itself (`None.strip()`, or `int()` on text that is not a number);
- the normal end.

Each script's `main` is split into two parts:

- a `Flow` over the decisions the script makes (the changed files; whether the tree is dirty, whether a stash is wanted, whether the branch is behind);
- `Main`, which computes those decisions from the world's outputs.

Properties of the control flow are proved on `Flow`. The properties that involve parsing are proved on `Main`. Every run issues each command at most once (`FetchPullPush.FlowShape`, `AutoPull.MainNoRepeats`), so one result per command is all a run can observe.

## Model

| member | source | states |
|---|---|---|
| Shell.RunCommand | fetch_n_pull_remote_repo_script.py:11-18 | `run_command` yields `None` exactly when the exit code is non-zero (the copy at auto_pull.py:11-18 is identical) |
| Shell.RunCommandOutput | fetch_n_pull_remote_repo_script.py:18 | a successful command yields its output less the whitespace at both ends: a trimmed, contiguous slice that is empty exactly when the output was all whitespace |
| Shell.CommandLineInjective | auto_pull.py:22-84 | two commands have the same command line exactly when they are the same command; the count line determines its branch (line 67) and the commit line its message (fetch_n_pull_remote_repo_script.py:72), so keying a world on commands distinguishes every line the scripts run |
| Strings.StripSpec | fetch_n_pull_remote_repo_script.py:18 | `strip()` gives a trimmed result, empty exactly for all-whitespace text, obtained by cutting only whitespace from either end |
| Strings.StripUnique | fetch_n_pull_remote_repo_script.py:18 | whitespace + trimmed core + whitespace strips to exactly that core |
| Strings.StripIdempotent | auto_pull.py:25-28 | stripping twice equals stripping once, so `check_for_changes` re-stripping `run_command`'s output changes nothing |
| Strings.SplitPartsLackSeparator | fetch_n_pull_remote_repo_script.py:28 | no piece of `split('\n')` contains a newline |
| Strings.SplitNoSeparator | fetch_n_pull_remote_repo_script.py:28 | text without a newline splits into itself alone |
| Strings.JoinSplit | fetch_n_pull_remote_repo_script.py:28 | joining the pieces of `split(sep)` with `sep` gives the text back |
| Strings.SplitJoin | fetch_n_pull_remote_repo_script.py:28 | splitting a `join` of separator-free pieces gives the pieces back |
| Strings.SplitAppend | fetch_n_pull_remote_repo_script.py:28 | splitting `a + sep + b` gives the pieces of `a` followed by the pieces of `b` |
| Strings.JoinAppend | fetch_n_pull_remote_repo_script.py:63 | joining one more piece appends the separator and the piece |
| Strings.LowerIsY | auto_pull.py:51 | `lower()` gives "y" exactly for "y" and "Y" |
| Strings.ParseIntOfNat | auto_pull.py:68 | `int()` reads back every count git prints in decimal |
| Porcelain.ParseLineSpec | fetch_n_pull_remote_repo_script.py:29-32 | a line is read exactly when it is not all whitespace; its status has at most two characters and both status and name are trimmed |
| Porcelain.StatusNeverDSpace | fetch_n_pull_remote_repo_script.py:31-35 | a stripped status is never "D ", so that half of the skip test never fires |
| Porcelain.KeptMembers | fetch_n_pull_remote_repo_script.py:34-36 | an entry is kept exactly when it was read and is not marked skipped |
| Porcelain.EntriesCountNonBlank | fetch_n_pull_remote_repo_script.py:28-32 | one entry per non-blank line, each with a trimmed name and a status other than "D " |
| Porcelain.ChangedFilesBounds | fetch_n_pull_remote_repo_script.py:20-38 | a failed or blank status yields no files; otherwise at most one trimmed name per non-blank line |
| Porcelain.ExcludedExactlyDD | fetch_n_pull_remote_repo_script.py:27-38 | the names returned are those of all parsed entries except the ones with status "DD", in order |
| Porcelain.ChangedNamesAppend | fetch_n_pull_remote_repo_script.py:28-36 | the names read from two blocks of lines are the names of each block, in order |
| Porcelain.GetChangedFiles | fetch_n_pull_remote_repo_script.py:20-38 | the loop over the lines returns exactly the functional `ChangedFiles` |
| Porcelain.DeletionsKept | fetch_n_pull_remote_repo_script.py:31-35 | a line starting "D " or " D" reads as status "D" and is not skipped |
| Porcelain.FirstLineShifted | fetch_n_pull_remote_repo_script.py:18-32 | for output " X name\n" the file returned is `name` less its first character, stripped |
| Porcelain.IntendedSkipsDeletions | fetch_n_pull_remote_repo_script.py:34-35 | with the unstripped status, lines starting "D " or "DD" are skipped |
| Porcelain.IntendedFirstLine | fetch_n_pull_remote_repo_script.py:28-32 | reading the unstripped output, " X name\n" yields `name` |
| Porcelain.IntendedCompositional | fetch_n_pull_remote_repo_script.py:28-36 | with the intended parser, two outputs joined at a newline give the files of each, in order |
| FetchPullPush.FlowShape | fetch_n_pull_remote_repo_script.py:43-46 | every run starts with the fetch and the pull and repeats no command |
| FetchPullPush.UncheckedOutcomesIgnored | fetch_n_pull_remote_repo_script.py:43-93 | the results of the fetch, of `git add .` and of the final status never change the run |
| FetchPullPush.PullFailureStops | fetch_n_pull_remote_repo_script.py:46-49 | the run ends right after the pull exactly when the pull fails |
| FetchPullPush.NothingToPush | fetch_n_pull_remote_repo_script.py:52-56 | after a good pull, the run reports "up to date" exactly when no file changed, and then issues nothing after the status query |
| FetchPullPush.SilentStatusIsUpToDate | fetch_n_pull_remote_repo_script.py:23-56 | a status command that fails or prints only whitespace leads to "up to date" |
| FetchPullPush.CommitNamesChangedFiles | fetch_n_pull_remote_repo_script.py:62-73 | a commit is issued only after a good pull with files to add, and its message is "Adding: " and the names joined by ", " |
| FetchPullPush.MainCommitMessage | fetch_n_pull_remote_repo_script.py:52-73 | the commit `main` issues names exactly the files parsed from the status output |
| FetchPullPush.CommitMessageAppend | fetch_n_pull_remote_repo_script.py:63-64 | each further file adds ", name" to the message, in order |
| FetchPullPush.PushOnlyAfterCommit | fetch_n_pull_remote_repo_script.py:66-85 | the push is issued exactly when the pull and the commit succeed and there are files; it comes right after `git add .` and the commit |
| FetchPullPush.StatusOnlyAfterPush | fetch_n_pull_remote_repo_script.py:81-93 | the final status runs exactly when the push succeeds, as the last command; a failed push is the last command of its run |
| FetchPullPush.CommitOfShiftedFirstLine | fetch_n_pull_remote_repo_script.py:18-73 | with " X name" as the only status line, the script commits "Adding: " + the shortened name, while the corrected parser commits "Adding: name" |
| AutoPull.NoBranchStops | auto_pull.py:40-43 | the run stops after `rev-parse` exactly when the branch name is empty |
| AutoPull.MainNoBranch | auto_pull.py:20-43 | `main` stops at once exactly when `get_current_branch` gives `None` or "" |
| AutoPull.FailedStatusCrashes | auto_pull.py:25-28 | a failed status command makes `check_for_changes` raise right after it |
| AutoPull.DirtyIffOutput | auto_pull.py:25-28 | the tree counts as dirty exactly when the status output has a non-whitespace character |
| AutoPull.StashIff | auto_pull.py:48-53 | the stash is issued exactly when the branch is known, the tree is dirty and the answer asks for it |
| AutoPull.WantsStashIff | auto_pull.py:50-51 | only "y" and "Y" at the prompt ask for a stash |
| AutoPull.MainStashIff | auto_pull.py:40-53 | `main` stashes exactly when the branch is known, the status succeeds with non-blank output, and the answer is "y" or "Y" |
| AutoPull.StashFailureStops | auto_pull.py:53-56 | a failed stash ends the run before the fetch |
| AutoPull.FetchFailureStops | auto_pull.py:61-64 | a failed fetch ends the run before the behind-count query |
| AutoPull.CountUsesBranch | auto_pull.py:59-67 | the count query is issued exactly when the run gets past the fetch, and it names the detected branch |
| AutoPull.BehindOfCount | auto_pull.py:68 | a count printed in decimal decides the pull by whether it is positive; "0" means up to date |
| AutoPull.PullIff | auto_pull.py:67-73 | the pull is issued exactly when the run reaches the count query and the branch is behind |
| AutoPull.MainPullIff | auto_pull.py:67-73 | `main` pulls exactly when it gets past the fetch and the count query prints a positive number |
| AutoPull.PullFailureStops | auto_pull.py:73-76 | a failed pull ends the run without the final status |
| AutoPull.UpToDateAfterCount | auto_pull.py:68-85 | once the count is reached, a branch that is not behind ends the run with the count followed by the final status, and nothing is pulled |
| AutoPull.ZeroCountSkipsPull | auto_pull.py:67-85 | a count of "0", or a failed count, never leads to a pull; if the run gets as far as the count, it finishes with nothing pulled and its last two commands are the count and `git status` |
| AutoPull.PositiveCountPulls | auto_pull.py:67-85 | a positive count and a good pull end the run with the pull followed by the final status |
| AutoPull.FlowIsPrefix | auto_pull.py:40-85 | every run is the longest run for its decisions, cut short where it stops |
| AutoPull.FlowNoRepeats | auto_pull.py:40-85 | every run keeps the fixed order of steps, so no command repeats |
| AutoPull.MainNoRepeats | auto_pull.py:40-85 | no run of `main` repeats a command |
| AutoPull.StatusOnlyWhenFinished | auto_pull.py:82-85 | the final status is issued exactly when the run does not stop early |
| AutoPull.StatusClosesFinishedRuns | auto_pull.py:82-85 | a run that ends normally issues the final status exactly once, as its last command |
| AutoPull.FinalStatusIgnored | auto_pull.py:84-85 | the result of the final status is only printed and never changes the run |

## Left out

- pull_remote_push_local_script.py is not part of this model.
- Printing is not modelled, including the commit message echo and the status the scripts display. Only the commands a run issues and where it stops are modelled.
- The working directory and the clock (auto_pull.py:33-37) are left out because they are only printed.
- `input()` becomes the parameter `answer`.
- The shell itself is left out. `Shell.CommandLine` gives the text each command is run as, but the shell's handling of quotes inside the commit message is not modelled.
- Failures of `subprocess.run` itself, such as a missing shell, and interrupts are not modelled. Every command yields an exit code and output.
- `Shell.World` gives each command one fixed result. This is faithful because no run issues a command twice (proved).
- Strings.ParseInt: accepts only ASCII digits, with an optional sign and single underscores between digits. Python's `int()` also accepts other Unicode decimal digits, which git's count never contains. Since Python 3.11, `int()` also raises ValueError on a decimal string longer than 4300 digits (`sys.get_int_max_str_digits`). ParseInt has no such limit, and a commit count never comes close to it.
- Strings.Lower: lower-cases ASCII letters only. No other character lower-cases to "y", so `AutoPull.WantsStashIff` is unaffected.
- The only prose about deletions is the comment at fetch_n_pull_remote_repo_script.py:34 ("skip deleted files"). It names no status code. The model follows the code's literal "D " and "DD" tests (see Findings). The corrected parser `Porcelain.ParseLineIntended` makes the same tests on the raw two-character status, so a " D" line (deleted in the work tree only) is still kept.

## Findings

`FetchPullPush.Main` models the script as written. `FetchPullPush.MainIntended` runs the same flow with the corrected parser, `Porcelain.ChangedFilesIntended`, which reads each raw line: the unstripped two-character status and the name from offset 3.

| source | as written | input that shows it | evidently intended | confidence | as-written member | corrected member |
|---|---|---|---|---|---|---|
| fetch_n_pull_remote_repo_script.py:31-35 | the status is stripped before it is compared with 'D ', so that comparison never holds and staged deletions are kept | status line "D  old.py" reads as status "D" and `old.py` is returned | lines with status "D " are skipped as deletions | not executed | Porcelain.DeletionsKept | Porcelain.IntendedSkipsDeletions |
| fetch_n_pull_remote_repo_script.py:18-32 | the whole output is stripped before it is split, so a first line that starts with a space loses it and `line[3:]` drops the first letter of the name | output " M foo.py\n" gives "oo.py" | every line's name starts at offset 3 of the raw line, giving "foo.py" | not executed | Porcelain.FirstLineShifted | Porcelain.IntendedFirstLine |
