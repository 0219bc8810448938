/**
 `get_changed_files` of the fetch-pull-push script: the changed paths read
 from `git status --porcelain`, with the entries it means to skip left out.

 The parser is modelled as the script is written. Two consequences of that
 text are pinned down by lemmas below: the status is stripped before it is
 compared, so the comparison with "D " can never succeed and only "DD"
 entries are dropped; and `run_command` strips the whole output first, so a
 first line that starts with a space loses that space and its file name is
 read one character too far to the right. `ChangedFilesIntended` is the
 parser as the comment above the test describes it, for comparison.
 */
module Porcelain {
  import opened Strings
  import opened Shell

  /** One non-blank porcelain line: its (stripped) status and file name. */
  datatype Entry = Entry(status: string, name: string)

  function Min(a: nat, b: nat): nat {
    if a <= b then a else b
  }

  /** Python's `line[:n]`, which clamps at the end of the line. */
  function Head(line: string, n: nat): string {
    line[..Min(n, |line|)]
  }

  /** Python's `line[n:]`, which clamps at the end of the line. */
  function Tail(line: string, n: nat): string {
    line[Min(n, |line|)..]
  }

  /** The loop body's reading of one line; None for a blank line. */
  function ParseLine(line: string): Option<Entry>
  {
    if Strip(line) == [] then None
    else Some(Entry(Strip(Head(line, 2)), Strip(Tail(line, 3))))
  }

  /**
   A line yields an entry exactly when it is not all whitespace; the status is
   at most two characters and, like the name, has no whitespace at either end.
   */
  lemma ParseLineSpec(line: string)
    ensures ParseLine(line).None? <==> AllSpace(line)
    ensures ParseLine(line).Some? ==>
              var e := ParseLine(line).value;
              |e.status| <= 2 && Trimmed(e.status) && Trimmed(e.name)
  {
    StripSpec(line);
    StripSpec(Head(line, 2));
    StripSpec(Tail(line, 3));
  }

  /** The script's test for an entry it leaves out: status "D " or "DD". */
  predicate Skipped(e: Entry) {
    e.status == "D " || e.status == "DD"
  }

  /** The entries of the non-blank lines, in line order. */
  function Entries(lines: seq<string>, parse: string -> Option<Entry>): (es: seq<Entry>)
    ensures |es| <= |lines|
  {
    if lines == [] then []
    else
      (match parse(lines[0]) case None => [] case Some(e) => [e]) + Entries(lines[1..], parse)
  }

  /** The entries that are not skipped, in their original order. */
  function Kept(es: seq<Entry>): (ks: seq<Entry>)
    ensures |ks| <= |es|
  {
    if es == [] then []
    else (if Skipped(es[0]) then [] else [es[0]]) + Kept(es[1..])
  }

  lemma {:induction false} KeptMembers(es: seq<Entry>)
    ensures forall e :: e in Kept(es) <==> e in es && !Skipped(e)
  {
    if es != [] {
      KeptMembers(es[1..]);
      assert es == [es[0]] + es[1..];
    }
  }

  function Names(es: seq<Entry>): (ns: seq<string>)
    ensures |ns| == |es|
    ensures forall k :: 0 <= k < |es| ==> ns[k] == es[k].name
  {
    if es == [] then [] else [es[0].name] + Names(es[1..])
  }

  /** The number of lines that are not all whitespace. */
  function NonBlank(lines: seq<string>): nat
  {
    if lines == [] then 0 else (if AllSpace(lines[0]) then 0 else 1) + NonBlank(lines[1..])
  }

  /** The lines the script's loop visits: none when the status command fails or prints nothing. */
  function StatusLines(p: ProcessResult): seq<string>
  {
    match RunCommand(p)
    case Fail => []
    case Ok(out) => if out == [] then [] else Split(out, '\n')
  }

  /** `get_changed_files` given the result of `git status --porcelain`. */
  function ChangedFiles(p: ProcessResult): seq<string>
  {
    Names(Kept(Entries(StatusLines(p), ParseLine)))
  }

  /**
   A failed status command or an all-whitespace output yields no files; there
   are never more files than non-blank lines, and each name is trimmed.
   */
  lemma ChangedFilesBounds(p: ProcessResult)
    ensures RunCommand(p).Fail? ==> ChangedFiles(p) == []
    ensures AllSpace(p.stdout) ==> ChangedFiles(p) == []
    ensures |ChangedFiles(p)| <= NonBlank(StatusLines(p))
    ensures forall k :: 0 <= k < |ChangedFiles(p)| ==> Trimmed(ChangedFiles(p)[k])
  {
    var es := Entries(StatusLines(p), ParseLine);
    EntriesCountNonBlank(StatusLines(p));
    KeptMembers(es);
    if p.returncode == 0 {
      RunCommandOutput(p);
    }
    forall k | 0 <= k < |ChangedFiles(p)| ensures Trimmed(ChangedFiles(p)[k]) {
      assert Kept(es)[k] in Kept(es);
    }
  }

  /** Each line contributes one entry if it has a non-space character, none otherwise. */
  lemma {:induction false} EntriesCountNonBlank(lines: seq<string>)
    ensures |Entries(lines, ParseLine)| == NonBlank(lines)
    ensures forall e :: e in Entries(lines, ParseLine) ==> Trimmed(e.name) && e.status != "D "
  {
    if lines != [] {
      EntriesCountNonBlank(lines[1..]);
      ParseLineSpec(lines[0]);
      if ParseLine(lines[0]).Some? {
        StatusNeverDSpace(lines[0]);
      }
    }
  }

  /** After `strip()` a status cannot end in a space, so it is never "D ". */
  lemma StatusNeverDSpace(line: string)
    requires ParseLine(line).Some?
    ensures ParseLine(line).value.status != "D "
  {
    ParseLineSpec(line);
  }

  /** The order of the lines carries over to the entries. */
  lemma {:induction false} EntriesAppend(a: seq<string>, b: seq<string>, parse: string -> Option<Entry>)
    ensures Entries(a + b, parse) == Entries(a, parse) + Entries(b, parse)
  {
    if a != [] {
      assert (a + b)[1..] == a[1..] + b;
      EntriesAppend(a[1..], b, parse);
    } else {
      assert a + b == b;
    }
  }

  /** Filtering keeps the entries in order: earlier entries come first. */
  lemma {:induction false} KeptAppend(a: seq<Entry>, b: seq<Entry>)
    ensures Kept(a + b) == Kept(a) + Kept(b)
  {
    if a != [] {
      assert (a + b)[1..] == a[1..] + b;
      KeptAppend(a[1..], b);
    } else {
      assert a + b == b;
    }
  }

  lemma {:induction false} NamesAppend(a: seq<Entry>, b: seq<Entry>)
    ensures Names(a + b) == Names(a) + Names(b)
  {
    if a != [] {
      assert (a + b)[1..] == a[1..] + b;
      NamesAppend(a[1..], b);
    } else {
      assert a + b == b;
    }
  }

  /** The names of the kept entries of `lines`, in order. */
  function ChangedNames(lines: seq<string>, parse: string -> Option<Entry>): seq<string> {
    Names(Kept(Entries(lines, parse)))
  }

  /** Splitting the lines anywhere splits the changed names at the same place. */
  lemma ChangedNamesAppend(a: seq<string>, b: seq<string>, parse: string -> Option<Entry>)
    ensures ChangedNames(a + b, parse) == ChangedNames(a, parse) + ChangedNames(b, parse)
  {
    EntriesAppend(a, b, parse);
    KeptAppend(Entries(a, parse), Entries(b, parse));
    NamesAppend(Kept(Entries(a, parse)), Kept(Entries(b, parse)));
  }

  lemma ChangedNamesSnoc(lines: seq<string>, i: nat)
    requires i < |lines|
    ensures ChangedNames(lines[..i + 1], ParseLine)
         == ChangedNames(lines[..i], ParseLine)
            + match ParseLine(lines[i])
              case None => []
              case Some(e) => if Skipped(e) then [] else [e.name]
  {
    assert lines[..i + 1] == lines[..i] + [lines[i]];
    ChangedNamesAppend(lines[..i], [lines[i]], ParseLine);
    ChangedNamesOne(lines[i], ParseLine);
  }

  /** The script's loop over the status lines, appending each kept name. */
  method GetChangedFiles(p: ProcessResult) returns (files: seq<string>)
    ensures files == ChangedFiles(p)
  {
    var o := RunCommand(p);
    if o.Fail? || o.out == [] {
      return [];
    }
    var lines := Split(o.out, '\n');
    files := [];
    var i := 0;
    while i < |lines|
      invariant 0 <= i <= |lines|
      invariant files == ChangedNames(lines[..i], ParseLine)
    {
      var line := lines[i];
      if Strip(line) != [] {
        var status := Strip(Head(line, 2));
        var name := Strip(Tail(line, 3));
        if status != "D " && status != "DD" {
          files := files + [name];
        }
      }
      ChangedNamesSnoc(lines, i);
      i := i + 1;
    }
    assert lines[..i] == lines;
  }

  /** The entries whose status is not "DD". */
  function WithoutDD(es: seq<Entry>): seq<Entry> {
    if es == [] then []
    else (if es[0].status == "DD" then [] else [es[0]]) + WithoutDD(es[1..])
  }

  lemma {:induction false} KeptIsWithoutDD(es: seq<Entry>)
    requires forall e :: e in es ==> e.status != "D "
    ensures Kept(es) == WithoutDD(es)
  {
    if es != [] {
      KeptIsWithoutDD(es[1..]);
    }
  }

  /**
   As written, an entry is left out exactly when its stripped status is "DD";
   every other non-blank line's name is kept, in line order.
   */
  lemma ExcludedExactlyDD(p: ProcessResult)
    ensures ChangedFiles(p) == Names(WithoutDD(Entries(StatusLines(p), ParseLine)))
  {
    EntriesCountNonBlank(StatusLines(p));
    KeptIsWithoutDD(Entries(StatusLines(p), ParseLine));
  }

  lemma StripOfTrimmed(t: string)
    requires Trimmed(t)
    ensures Strip(t) == t
  {
    assert t == [] + t + [];
    StripUnique(t, [], t, []);
  }

  /**
   A deletion, whether staged ("D ") or in the working tree only (" D"),
   strips to "D" and is kept.
   */
  lemma DeletionsKept(line: string)
    requires |line| >= 2
    requires (line[0] == 'D' && line[1] == ' ') || (line[0] == ' ' && line[1] == 'D')
    ensures ParseLine(line).Some?
    ensures ParseLine(line).value.status == "D" && !Skipped(ParseLine(line).value)
  {
    assert !AllSpace(line) by { assert !IsSpace('D'); }
    var h := Head(line, 2);
    if line[0] == 'D' {
      assert h == "D" + " " + [];
      StripUnique(h, [], "D", " ");
    } else {
      assert h == " " + "D" + [];
      StripUnique(h, " ", "D", []);
    }
  }

  /** The names on one line, as the loop sees it. */
  lemma ChangedNamesOne(line: string, parse: string -> Option<Entry>)
    ensures ChangedNames([line], parse)
         == match parse(line)
            case None => []
            case Some(e) => if Skipped(e) then [] else [e.name]
  {
    assert [line][1..] == [];
  }

  /**
   The first line loses its leading space to the whole-output strip, so its
   name is read one character late: " M foo.py" yields "oo.py".
   */
  lemma FirstLineShifted(x: char, name: string, err: string)
    requires !IsSpace(x) && name != [] && Trimmed(name) && '\n' !in name
    ensures ChangedFiles(ProcessResult(0, [' ', x, ' '] + name + "\n", err)) == [Strip(name[1..])]
  {
    var line := [x, ' '] + name;
    OneLineOutput(ProcessResult(0, [' ', x, ' '] + name + "\n", err), " ", line, "\n");
    ShiftedLine(x, name);
    ChangedNamesOne(line, ParseLine);
  }

  /** Output holding one line, padded with whitespace, is read as that line. */
  lemma OneLineOutput(p: ProcessResult, a: string, line: string, b: string)
    requires p.returncode == 0 && p.stdout == a + line + b
    requires AllSpace(a) && AllSpace(b) && line != [] && Trimmed(line) && '\n' !in line
    ensures StatusLines(p) == [line]
  {
    StripUnique(p.stdout, a, line, b);
    SplitNoSeparator(line, '\n');
  }

  lemma ShiftedLine(x: char, name: string)
    requires !IsSpace(x) && name != [] && Trimmed(name)
    ensures Trimmed([x, ' '] + name)
    ensures ParseLine([x, ' '] + name) == Some(Entry([x], Strip(name[1..])))
  {
    var line := [x, ' '] + name;
    assert line[|line| - 1] == name[|name| - 1];
    StripOfTrimmed(line);
    assert Head(line, 2) == [x] + [' '] + [];
    StripUnique(Head(line, 2), [], [x], [' ']);
    assert Tail(line, 3) == name[1..];
  }

  /** The parser as its comment describes it: raw status, every name at offset 3. */
  function ParseLineIntended(line: string): Option<Entry>
  {
    if Strip(line) == [] then None
    else Some(Entry(Head(line, 2), Strip(Tail(line, 3))))
  }

  /** `get_changed_files` reading the unstripped output with `ParseLineIntended`. */
  function ChangedFilesIntended(p: ProcessResult): (files: seq<string>)
    ensures p.returncode != 0 ==> files == []
  {
    if p.returncode != 0 then [] else ChangedNames(Split(p.stdout, '\n'), ParseLineIntended)
  }

  /**
   The intended reading of each line does not depend on the lines before it:
   the names of two outputs glued at a newline are the names of each, in order.
   */
  lemma IntendedCompositional(a: string, b: string, err: string)
    ensures ChangedFilesIntended(ProcessResult(0, a + "\n" + b, err))
         == ChangedFilesIntended(ProcessResult(0, a, err)) + ChangedFilesIntended(ProcessResult(0, b, err))
  {
    SplitAppend(a, b, '\n');
    ChangedNamesAppend(Split(a, '\n'), Split(b, '\n'), ParseLineIntended);
  }

  /** The intended parser skips staged and doubly deleted entries. */
  lemma IntendedSkipsDeletions(line: string)
    requires |line| >= 2 && (line[..2] == "D " || line[..2] == "DD")
    ensures ParseLineIntended(line).Some? && Skipped(ParseLineIntended(line).value)
  {
    assert !AllSpace(line) by { assert line[0] == line[..2][0]; }
    StripSpec(line);
  }

  /** The intended parser reads " M foo.py" as "foo.py". */
  lemma IntendedFirstLine(x: char, name: string, err: string)
    requires !IsSpace(x) && name != [] && Trimmed(name) && '\n' !in name
    ensures ChangedFilesIntended(ProcessResult(0, [' ', x, ' '] + name + "\n", err)) == [name]
  {
    var line := [' ', x, ' '] + name;
    SplitLastLine(line);
    UnshiftedLine(x, name);
    ChangedNamesOne(line, ParseLineIntended);
    ChangedNamesOne("", ParseLineIntended);
    ChangedNamesAppend([line], [""], ParseLineIntended);
    assert [line] + [""] == [line, ""];
  }

  /** A line and its newline split into the line and an empty last piece. */
  lemma SplitLastLine(line: string)
    requires '\n' !in line
    ensures Split(line + "\n", '\n') == [line, ""]
  {
    SplitAppend(line, "", '\n');
    assert line + "\n" + "" == line + "\n";
    SplitNoSeparator(line, '\n');
    SplitNoSeparator("", '\n');
  }

  lemma UnshiftedLine(x: char, name: string)
    requires !IsSpace(x) && name != [] && Trimmed(name)
    ensures ParseLineIntended([' ', x, ' '] + name) == Some(Entry([' ', x], name))
  {
    var line := [' ', x, ' '] + name;
    assert line == " " + ([x, ' '] + name) + [];
    assert ([x, ' '] + name)[|name| + 1] == name[|name| - 1];
    StripUnique(line, " ", [x, ' '] + name, []);
    assert Tail(line, 3) == name;
    assert Head(line, 2) == [' ', x];
    StripOfTrimmed(name);
  }
}
