/**
 * The merge stage (MergeIndexFiles, mergeFiles): every listed fragment file
 * is read line by line, its first eleven lines are dropped and every later
 * line is appended, newline-terminated, to the consolidated output file,
 * which is only ever appended to.
 */
module Merge {
  import opened Wrappers
  import opened Text

  type Error = string

  /** The descriptive header every quarterly index starts with, in lines. */
  const HeaderLines: nat := 11

  /**
   * A listed file as the merge sees it: it could not be opened, or it was
   * scanned into lines (without their terminators), possibly stopping on a
   * scan error after the lines given.
   */
  datatype FileRead = OpenFailed(err: Error) | Scanned(lines: seq<string>, scanError: Option<Error>)

  /** What merging appended, and whether it ended in log.Fatalf. */
  datatype MergeResult = MergeResult(appended: string, fatal: bool)

  /** The lines after the header. */
  function DataLines(lines: seq<string>): seq<string>
  {
    if |lines| <= HeaderLines then [] else lines[HeaderLines..]
  }

  /** Each line followed by "\n", in order. */
  function Terminated(ls: seq<string>): string
  {
    if ls == [] then "" else Terminated(ls[..|ls| - 1]) + ls[|ls| - 1] + "\n"
  }

  /** What one scanned file contributes to the output. */
  function Contribution(lines: seq<string>): string
  {
    Terminated(DataLines(lines))
  }

  /** mergeFiles on one listed file, as a value. */
  function FileStep(read: FileRead): MergeResult
  {
    match read
    case OpenFailed(_) => MergeResult("", true)
    case Scanned(lines, scanError) => MergeResult(Contribution(lines), scanError.Some?)
  }

  /** The merge loop over a listing, stopping at the first fatal error. */
  function MergeRun(files: seq<FileRead>): MergeResult
  {
    if files == [] then MergeResult("", false)
    else
      var done := MergeRun(files[..|files| - 1]);
      if done.fatal then done
      else
        var step := FileStep(files[|files| - 1]);
        MergeResult(done.appended + step.appended, step.fatal)
  }

  /** The consolidated output file, opened for appending. */
  class OutputFile {
    var content: string

    constructor (existing: string)
      ensures content == existing
    {
      content := existing;
    }

    method Append(s: string)
      modifies this
      ensures content == old(content) + s
    {
      content := content + s;
    }
  }

  lemma TerminatedSnoc(ls: seq<string>, l: string)
    ensures Terminated(ls + [l]) == Terminated(ls) + l + "\n"
  {
    assert (ls + [l])[..|ls|] == ls;
  }

  /** Scanning one more line adds that line to the output exactly when it is past the header. */
  lemma ContributionSnoc(lines: seq<string>, k: nat)
    requires k < |lines|
    ensures Contribution(lines[..k + 1])
         == Contribution(lines[..k]) + (if k >= HeaderLines then lines[k] + "\n" else "")
  {
    if k >= HeaderLines {
      assert DataLines(lines[..k + 1]) == DataLines(lines[..k]) + [lines[k]];
      TerminatedSnoc(DataLines(lines[..k]), lines[k]);
    }
  }

  /**
   * mergeFiles: scan the file, counting lines, and write every line whose
   * count is above 10 with a trailing "\n". A nil output file (its opening
   * failed) silently loses the writes. Open and scan errors are fatal.
   */
  method MergeFile(read: FileRead, out: OutputFile?) returns (fatal: bool)
    modifies out
    ensures out != null ==> out.content == old(out.content) + FileStep(read).appended
    ensures fatal == FileStep(read).fatal
  {
    match read
    case OpenFailed(_) =>
      fatal := true;
    case Scanned(lines, scanError) =>
      var counter := 0;
      while counter < |lines|
        invariant 0 <= counter <= |lines|
        invariant out != null ==> out.content == old(out.content) + Contribution(lines[..counter])
      {
        ContributionSnoc(lines, counter);
        if counter > 10 {
          var line := lines[counter] + "\n";
          if out != null {
            out.Append(line);
          }
        }
        counter := counter + 1;
      }
      assert lines[..counter] == lines;
      fatal := scanError.Some?;
  }

  /** Merging one more file, when no fatal error came before it, appends that file's part. */
  lemma MergeRunSnoc(files: seq<FileRead>, i: nat)
    requires i < |files| && !MergeRun(files[..i]).fatal
    ensures MergeRun(files[..i + 1])
         == MergeResult(MergeRun(files[..i]).appended + FileStep(files[i]).appended, FileStep(files[i]).fatal)
  {
    assert files[..i + 1][..i] == files[..i];
  }

  /** Once the merge has hit a fatal error, the rest of the listing is never reached. */
  lemma {:induction false} MergeRunStops(files: seq<FileRead>, k: nat)
    requires k <= |files|
    requires MergeRun(files[..k]).fatal
    ensures MergeRun(files) == MergeRun(files[..k])
    decreases |files| - k
  {
    if k < |files| {
      assert files[..k + 1][..k] == files[..k];
      MergeRunStops(files, k + 1);
    } else {
      assert files[..k] == files;
    }
  }

  function Listed(listing: Option<seq<FileRead>>): seq<FileRead>
  {
    if listing.Some? then listing.value else []
  }

  /**
   * MergeIndexFiles over an abstract directory listing (None: ReadDir
   * failed, which is logged and leaves nothing to merge). The output keeps
   * its previous content as a prefix; when it could not be opened nothing
   * reaches it, yet the listed files are still read.
   */
  method MergeIndexFiles(listing: Option<seq<FileRead>>, master: OutputFile, masterOpenFailed: bool)
    returns (fatal: bool)
    modifies master
    ensures master.content == old(master.content) + (if masterOpenFailed then "" else MergeRun(Listed(listing)).appended)
    ensures fatal == MergeRun(Listed(listing)).fatal
  {
    var files := if listing.Some? then listing.value else [];
    var out: OutputFile? := if masterOpenFailed then null else master;
    assert files == Listed(listing);
    fatal := false;
    var i := 0;
    // log.Fatalf ends the process: no file after a fatal one is read.
    while i < |files| && !fatal
      invariant 0 <= i <= |files|
      invariant MergeRun(files[..i]).fatal == fatal
      invariant out == null ==> master.content == old(master.content)
      invariant out != null ==> master.content == old(master.content) + MergeRun(files[..i]).appended
    {
      MergeRunSnoc(files, i);
      fatal := MergeFile(files[i], out);
      i := i + 1;
    }
    if fatal {
      MergeRunStops(files, i);
    } else {
      assert files[..i] == files;
    }
  }

  // ---------------------------------------------------------------------------
  // Properties

  /** Terminating lines and splitting at '\n' are inverse: the output reads back as the same lines. */
  lemma {:induction false} SplitTerminated(ls: seq<string>, tail: string)
    requires forall i :: 0 <= i < |ls| ==> '\n' !in ls[i]
    requires '\n' !in tail
    ensures Split(Terminated(ls) + tail, '\n') == ls + [tail]
  {
    if ls == [] {
      assert Terminated(ls) + tail == tail;
      SplitNoSep(tail, '\n');
    } else {
      var init := ls[..|ls| - 1];
      var last := ls[|ls| - 1];
      assert Terminated(ls) + tail == (Terminated(init) + last) + ['\n'] + tail;
      SplitAppend(Terminated(init) + last, '\n', tail);
      SplitTerminated(init, last);
      SplitNoSep(tail, '\n');
      assert init + [last] == ls;
    }
  }

  /**
   * What a file contributes reads back as exactly its lines after the
   * eleventh, each once and in file order, followed by the empty remainder
   * after the last "\n".
   */
  lemma ContributionReadsBack(lines: seq<string>)
    requires forall i :: 0 <= i < |lines| ==> '\n' !in lines[i]
    ensures Split(Contribution(lines), '\n') == DataLines(lines) + [""]
  {
    var d := DataLines(lines);
    assert forall i :: 0 <= i < |d| ==> d[i] == lines[i + HeaderLines];
    SplitTerminated(d, "");
    assert Contribution(lines) + "" == Contribution(lines);
  }

  /** A file with at most eleven lines contributes nothing. */
  lemma ShortFileContributesNothing(lines: seq<string>)
    requires |lines| <= HeaderLines
    ensures Contribution(lines) == ""
  {
  }

  lemma {:induction false} TerminatedAppend(a: seq<string>, b: seq<string>)
    ensures Terminated(a + b) == Terminated(a) + Terminated(b)
    decreases |b|
  {
    if b == [] {
      assert a + b == a;
    } else {
      var init := b[..|b| - 1];
      assert a + b == (a + init) + [b[|b| - 1]];
      TerminatedSnoc(a + init, b[|b| - 1]);
      TerminatedAppend(a, init);
    }
  }

  /** Eleven header lines then "X" and "Y" contribute exactly "X\nY\n". */
  lemma ExampleTwoDataLines(header: seq<string>)
    requires |header| == HeaderLines
    ensures Contribution(header + ["X", "Y"]) == "X\nY\n"
  {
    assert DataLines(header + ["X", "Y"]) == ["X", "Y"];
    assert ["X", "Y"][..1] == ["X"];
    assert ["X"][..0] == [];
  }

  /**
   * Merging a listing in two parts is merging the parts one after the other:
   * files contribute in listing order, each after everything before it.
   */
  lemma MergeRunAppend(a: seq<FileRead>, b: seq<FileRead>)
    requires !MergeRun(a).fatal
    ensures MergeRun(a + b) == MergeResult(MergeRun(a).appended + MergeRun(b).appended, MergeRun(b).fatal)
  {
    MergeRunIsCombine(a);
    MergeRunIsCombine(b);
    MergeRunIsCombine(a + b);
    StepsAppend(a, b);
    CombineAppend(Steps(a), Steps(b));
  }

  /**
   * The merge with the per-file results computed first and then folded in
   * listing order, stopping at the first fatal one: a proof device for
   * MergeRunAppend.
   */
  function Combine(steps: seq<MergeResult>): MergeResult
  {
    if steps == [] then MergeResult("", false)
    else
      var done := Combine(steps[..|steps| - 1]);
      if done.fatal then done
      else
        var step := steps[|steps| - 1];
        MergeResult(done.appended + step.appended, step.fatal)
  }

  /** What each listed file, taken alone, would append and whether it is fatal. */
  function Steps(files: seq<FileRead>): (r: seq<MergeResult>)
    ensures |r| == |files|
  {
    if files == [] then [] else Steps(files[..|files| - 1]) + [FileStep(files[|files| - 1])]
  }

  lemma {:induction false} StepsAppend(a: seq<FileRead>, b: seq<FileRead>)
    ensures Steps(a + b) == Steps(a) + Steps(b)
    decreases |b|
  {
    if b == [] {
      assert a + b == a;
    } else {
      var init := b[..|b| - 1];
      assert (a + b)[..|a + b| - 1] == a + init;
      StepsAppend(a, init);
    }
  }

  /** The merge loop computes the fold of the per-file results. */
  lemma {:induction false} MergeRunIsCombine(files: seq<FileRead>)
    ensures MergeRun(files) == Combine(Steps(files))
  {
    if files != [] {
      MergeRunIsCombine(files[..|files| - 1]);
    }
  }

  lemma {:induction false} CombineAppend(a: seq<MergeResult>, b: seq<MergeResult>)
    requires !Combine(a).fatal
    ensures Combine(a + b) == MergeResult(Combine(a).appended + Combine(b).appended, Combine(b).fatal)
    decreases |b|
  {
    if b == [] {
      assert a + b == a;
    } else {
      var init := b[..|b| - 1];
      var ab := a + b;
      assert ab[..|ab| - 1] == a + init;
      CombineAppend(a, init);
      if !Combine(init).fatal {
        var x, y, z := Combine(a).appended, Combine(init).appended, b[|b| - 1].appended;
        assert (x + y) + z == x + (y + z);
      }
    }
  }

  /** The output only grows: what the first k files appended is a prefix of the whole run's output. */
  lemma {:induction false} MergeRunGrows(files: seq<FileRead>, k: nat)
    requires k <= |files|
    ensures MergeRun(files[..k]).appended <= MergeRun(files).appended
    decreases |files| - k
  {
    if k < |files| {
      assert files[..k + 1][..k] == files[..k];
      MergeRunGrows(files, k + 1);
    } else {
      assert files[..k] == files;
    }
  }

  /**
   * The merge is not idempotent: a second run over the same fragment
   * appends its data lines again, so every record is then present twice.
   */
  lemma RerunDuplicatesRecords(lines: seq<string>)
    requires forall i :: 0 <= i < |lines| ==> '\n' !in lines[i]
    ensures Split(Contribution(lines) + Contribution(lines), '\n') == DataLines(lines) + DataLines(lines) + [""]
  {
    var d := DataLines(lines);
    assert forall i :: 0 <= i < |d| ==> d[i] == lines[i + HeaderLines];
    TerminatedAppend(d, d);
    assert forall i :: 0 <= i < |d + d| ==> (d + d)[i] in d;
    SplitTerminated(d + d, "");
    assert Terminated(d + d) + "" == Terminated(d + d);
  }

  /**
   * A re-run lists master.tsv itself, after the digit-named fragments. Read
   * as a snapshot of lines, its own records past the 11th line are appended
   * once more after the fragments' records.
   */
  lemma RerunRereadsOutput(fragments: seq<FileRead>, output: seq<string>)
    requires !MergeRun(fragments).fatal
    ensures MergeRun(fragments + [Scanned(output, None)])
         == MergeResult(MergeRun(fragments).appended + Contribution(output), false)
  {
    MergeRunAppend(fragments, [Scanned(output, None)]);
  }
}
