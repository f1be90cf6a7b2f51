/** The command line of `generate-diagrams.js`: `parseArgs`, which reads
    the Markdown file and the optional image directory from the arguments,
    and the names of the files the pipeline derives from the input name. */
module Cli {
  import opened Options
  import opened JsString

  /** The parsed arguments; `None` stands for `null` or `undefined`. */
  datatype Args = Args(markdownFile: string, imageDir: Option<string>)

  /** What `parseArgs` ends in: the arguments, or the usage error that
      ends the process with the given exit code. */
  datatype Parsed = Ok(args: Args) | UsageError(exitCode: int)

  predicate IsFileFlag(a: string) {
    a == "--f" || a == "--file"
  }

  predicate IsDirFlag(a: string) {
    a == "--imageDir" || a == "-imageDir"
  }

  /** `args[j]`, which is `undefined` past the end. */
  function ArgAt(args: seq<string>, j: nat): Option<string> {
    if j < |args| then Some(args[j]) else None
  }

  /** Exactly two arguments, the first not starting with `-`: they are
      taken as file and image directory without looking for flags. */
  predicate Positional(args: seq<string>) {
    |args| == 2 && !StartsWith(args[0], "--") && !StartsWith(args[0], "-")
  }

  /** The named-argument loop from index `i` with the values found so far:
      a flag takes the next argument as its value and skips it. */
  function Scan(args: seq<string>, i: nat, file: Option<string>, dir: Option<string>): (Option<string>, Option<string>)
    decreases |args| - i
  {
    if i >= |args| then (file, dir)
    else if IsFileFlag(args[i]) then Scan(args, i + 2, ArgAt(args, i + 1), dir)
    else if IsDirFlag(args[i]) then Scan(args, i + 2, file, ArgAt(args, i + 1))
    else Scan(args, i + 1, file, dir)
  }

  /** The index at which the loop started at `i` stops: the end of the
      arguments, or one past it when the last argument is a flag. */
  function Stop(args: seq<string>, i: nat): (r: nat)
    ensures i <= r
    decreases |args| - i
  {
    if i >= |args| then i
    else if IsFileFlag(args[i]) || IsDirFlag(args[i]) then Stop(args, i + 2)
    else Stop(args, i + 1)
  }

  /** `parseArgs` as a function of `process.argv.slice(2)`; a missing or
      empty file name is a usage error with exit code 1. */
  function ParseSpec(args: seq<string>): Parsed {
    if Positional(args) then Ok(Args(args[0], Some(args[1])))
    else
      var (file, dir) := Scan(args, 0, None, None);
      if file.None? || file.value == "" then UsageError(1) else Ok(Args(file.value, dir))
  }

  method ParseArgs(args: seq<string>) returns (r: Parsed)
    ensures r == ParseSpec(args)
  {
    var markdownFile: Option<string> := None;
    var imageDir: Option<string> := None;
    if |args| == 2 && !StartsWith(args[0], "--") && !StartsWith(args[0], "-") {
      markdownFile := Some(args[0]);
      imageDir := Some(args[1]);
      return Ok(Args(markdownFile.value, imageDir));
    }
    var i := 0;
    while i < |args|
      invariant i <= |args| + 1
      invariant Scan(args, i, markdownFile, imageDir) == Scan(args, 0, None, None)
      decreases |args| + 1 - i
    {
      if args[i] == "--f" || args[i] == "--file" {
        markdownFile := if i + 1 < |args| then Some(args[i + 1]) else None;
        i := i + 1;
      } else if args[i] == "--imageDir" || args[i] == "-imageDir" {
        imageDir := if i + 1 < |args| then Some(args[i + 1]) else None;
        i := i + 1;
      }
      i := i + 1;
    }
    if markdownFile.None? || markdownFile.value == "" {
      return UsageError(1);
    }
    return Ok(Args(markdownFile.value, imageDir));
  }

  // ---------------------------------------------------------------------
  // Properties of the parser.
  // ---------------------------------------------------------------------

  /** Two arguments, the first not starting with `-`, are file and image directory. */
  lemma TwoPlainArguments(file: string, dir: string)
    requires !StartsWith(file, "-")
    ensures ParseSpec([file, dir]) == Ok(Args(file, Some(dir)))
  {
    assert !StartsWith(file, "--") by {
      assert |file| < 2 || file[..2][0] == file[0];
    }
  }

  /** The loop over `pre + extra`, once it has consumed `pre` exactly,
      continues as the loop over `extra` alone. */
  lemma {:induction false} ScanShift(pre: seq<string>, extra: seq<string>, j: nat, file: Option<string>, dir: Option<string>)
    ensures Scan(pre + extra, |pre| + j, file, dir) == Scan(extra, j, file, dir)
    decreases |extra| - j
  {
    var s := pre + extra;
    if j < |extra| {
      assert s[|pre| + j] == extra[j];
      assert ArgAt(s, |pre| + j + 1) == ArgAt(extra, j + 1);
      ScanShift(pre, extra, j + 2, ArgAt(extra, j + 1), dir);
      ScanShift(pre, extra, j + 2, file, ArgAt(extra, j + 1));
      ScanShift(pre, extra, j + 1, file, dir);
    }
  }

  lemma {:induction false} ScanAppend(args: seq<string>, extra: seq<string>, i: nat, file: Option<string>, dir: Option<string>)
    requires i <= |args| && Stop(args, i) == |args|
    ensures Scan(args + extra, i, file, dir)
            == Scan(extra, 0, Scan(args, i, file, dir).0, Scan(args, i, file, dir).1)
    decreases |args| - i
  {
    var s := args + extra;
    if i == |args| {
      ScanShift(args, extra, 0, file, dir);
    } else {
      assert s[i] == args[i];
      if IsFileFlag(args[i]) || IsDirFlag(args[i]) {
        assert i + 1 < |args|;
        assert ArgAt(s, i + 1) == ArgAt(args, i + 1);
        ScanAppend(args, extra, i + 2, ArgAt(args, i + 1), dir);
        ScanAppend(args, extra, i + 2, file, ArgAt(args, i + 1));
      } else {
        ScanAppend(args, extra, i + 1, file, dir);
      }
    }
  }

  /** A later `--f <value>` overrides any earlier file: the last occurrence
      wins, and the image directory found before it is kept. */
  lemma LastFileFlagWins(args: seq<string>, value: string)
    requires Stop(args, 0) == |args| && value != ""
    ensures ParseSpec(args + ["--f", value]) == Ok(Args(value, Scan(args, 0, None, None).1))
  {
    ScanAppend(args, ["--f", value], 0, None, None);
    var s := args + ["--f", value];
    if |s| == 2 {
      assert s[0] == "--f";
      assert s[0][..2] == "--";
    }
  }

  /** A later `--imageDir <value>` overrides any earlier image directory. */
  lemma LastDirFlagWins(args: seq<string>, value: string)
    requires Stop(args, 0) == |args|
    ensures Scan(args + ["--imageDir", value], 0, None, None) == (Scan(args, 0, None, None).0, Some(value))
  {
    ScanAppend(args, ["--imageDir", value], 0, None, None);
  }

  /** A value is taken even when it looks like a flag: in
      `--f --imageDir d` the file is `--imageDir` and `d` is ignored. */
  lemma FlagValueTakenVerbatim()
    ensures ParseSpec(["--f", "--imageDir", "d"]) == Ok(Args("--imageDir", None))
  {
    var args := ["--f", "--imageDir", "d"];
    assert !IsFileFlag(args[2]) && !IsDirFlag(args[2]);
    assert Scan(args, 2, Some("--imageDir"), None) == (Some("--imageDir"), None);
  }

  /** `--f` as the last argument leaves the file undefined: a usage error
      (unless the two arguments read as a plain file and directory). */
  lemma TrailingFileFlag(args: seq<string>)
    requires Stop(args, 0) == |args| && |args| != 1
    ensures ParseSpec(args + ["--f"]) == UsageError(1)
  {
    ScanAppend(args, ["--f"], 0, None, None);
  }

  lemma {:induction false} ScanKeepsFile(args: seq<string>, i: nat, file: Option<string>, dir: Option<string>)
    requires forall k :: i <= k < |args| ==> !IsFileFlag(args[k])
    ensures Scan(args, i, file, dir).0 == file
    decreases |args| - i
  {
    if i < |args| {
      if IsDirFlag(args[i]) {
        ScanKeepsFile(args, i + 2, file, ArgAt(args, i + 1));
      } else {
        ScanKeepsFile(args, i + 1, file, dir);
      }
    }
  }

  /** Without `--f`/`--file`, and not in the two-argument form, no file is
      set: a usage error. A lone file name is one such case. */
  lemma NoFileFlagNoFile(args: seq<string>)
    requires !Positional(args)
    requires forall k :: 0 <= k < |args| ==> !IsFileFlag(args[k])
    ensures ParseSpec(args) == UsageError(1)
  {
    ScanKeepsFile(args, 0, None, None);
  }

  /** A file the loop sets is the argument right after a file flag. */
  lemma {:induction false} ScanFileSource(args: seq<string>, i: nat, file: Option<string>, dir: Option<string>)
    ensures var f := Scan(args, i, file, dir).0;
      f == file || f.None?
      || (exists k :: i <= k && k + 1 < |args| && IsFileFlag(args[k]) && f == Some(args[k + 1]))
    decreases |args| - i
  {
    if i < |args| {
      if IsFileFlag(args[i]) {
        ScanFileSource(args, i + 2, ArgAt(args, i + 1), dir);
      } else if IsDirFlag(args[i]) {
        ScanFileSource(args, i + 2, file, ArgAt(args, i + 1));
      } else {
        ScanFileSource(args, i + 1, file, dir);
      }
    }
  }

  /** A parsed file is either the first of two plain arguments or the
      argument right after some `--f`/`--file`. */
  lemma ParsedFileSource(args: seq<string>)
    requires ParseSpec(args).Ok?
    ensures (Positional(args) && ParseSpec(args).args.markdownFile == args[0])
      || exists k :: 0 <= k && k + 1 < |args| && IsFileFlag(args[k]) && ParseSpec(args).args.markdownFile == args[k + 1]
  {
    ScanFileSource(args, 0, None, None);
  }

  // ---------------------------------------------------------------------
  // Derived file names (relative to the input's directory; `base` and
  // `ext` are the input's name without extension and its extension).
  // ---------------------------------------------------------------------

  /** Written by the generation step. */
  function WithDiagramsName(base: string, ext: string): string {
    base + "-with-diagrams" + ext
  }

  /** The copy converted when an image directory is given. */
  function TempName(base: string, ext: string): string {
    base + "-temp" + ext
  }

  /** Written by the conversion step for an input named `base` + `ext`. */
  function WithImagesName(base: string, ext: string): string {
    base + "-with-images" + ext
  }

  /** What the conversion of the copy writes, renamed afterwards. */
  function TempWithImagesName(base: string, ext: string): string {
    base + "-temp-with-images" + ext
  }

  /** The default image directory of the conversion step. */
  function ImagesDirName(base: string): string {
    base + "-images"
  }

  /** The conversion of the temporary copy writes exactly the file the
      rename step looks for. */
  lemma TempConversionName(base: string, ext: string)
    ensures WithImagesName(base + "-temp", ext) == TempWithImagesName(base, ext)
  {
  }

  /** The input, the four files `generateDiagrams` derives from it, the
      file the default branch's conversion writes and that conversion's
      image directory (`ext` is an extension as `path.extname` returns it:
      empty or starting with a dot) have pairwise distinct names, so no
      step overwrites the input or another step's output. */
  lemma DerivedNamesDistinct(base: string, ext: string)
    requires ext == "" || ext[0] == '.'
    ensures var names := [base + ext, WithDiagramsName(base, ext), TempName(base, ext),
                          WithImagesName(base, ext), TempWithImagesName(base, ext),
                          WithImagesName(base + "-with-diagrams", ext),
                          ImagesDirName(base + "-with-diagrams")];
      forall x, y :: 0 <= x < y < |names| ==> names[x] != names[y]
  {
    var b := |base|;
    var dflt, dir := WithImagesName(base + "-with-diagrams", ext), ImagesDirName(base + "-with-diagrams");
    assert WithDiagramsName(base, ext)[b + 1] == 'w' && TempName(base, ext)[b + 1] == 't';
    assert WithImagesName(base, ext)[b + 1] == 'w' && TempWithImagesName(base, ext)[b + 1] == 't';
    assert WithDiagramsName(base, ext)[b + 6] == 'd' && WithImagesName(base, ext)[b + 6] == 'i';
    assert dflt[b + 1] == 'w' && dflt[b + 6] == 'd' && dflt[b + 14] == '-' && dflt[b + 15] == 'w';
    assert dir[b + 1] == 'w' && dir[b + 6] == 'd' && dir[b + 14] == '-' && dir[b + 15] == 'i';
    assert |base + ext| == b || (base + ext)[b] == '.';
    assert |WithDiagramsName(base, ext)| == b + 14 || WithDiagramsName(base, ext)[b + 14] == '.';
    assert |TempName(base, ext)| == b + 5 || TempName(base, ext)[b + 5] == '.';
  }

  // ---------------------------------------------------------------------
  // The final file of `generateDiagrams`.
  // ---------------------------------------------------------------------

  /** `if (imageDir)`: a non-empty image directory was given. */
  predicate HasImageDir(imageDir: Option<string>) {
    imageDir.Some? && imageDir.value != ""
  }

  /** The file the pipeline leaves with image references, as written: with
      an image directory the converted copy is renamed to
      `<base>-with-images<ext>`; without one, the conversion runs on
      `<base>-with-diagrams<ext>` and nothing is renamed. */
  function FinalOutput(base: string, ext: string, imageDir: Option<string>): string {
    if HasImageDir(imageDir) then WithImagesName(base, ext)
    else WithImagesName(base + "-with-diagrams", ext)
  }

  /** The name the last message reports, in both branches. */
  function ReportedOutput(base: string, ext: string): string {
    WithImagesName(base, ext)
  }

  /** Without an image directory the reported file is not the one written. */
  lemma DefaultBranchMisreports(base: string, ext: string, imageDir: Option<string>)
    requires !HasImageDir(imageDir)
    ensures FinalOutput(base, ext, imageDir) != ReportedOutput(base, ext)
    ensures FinalOutput(base, ext, imageDir) == base + "-with-diagrams-with-images" + ext
  {
    assert |FinalOutput(base, ext, imageDir)| != |ReportedOutput(base, ext)|;
  }

  /** The final file with the default branch renamed like the other one. */
  function FinalOutputCorrected(base: string, ext: string, imageDir: Option<string>): string {
    if HasImageDir(imageDir) then FinalOutput(base, ext, imageDir)
    else WithImagesName(base, ext)
  }

  /** With the rename in both branches the reported file is the one written,
      and nothing changes when an image directory is given. */
  lemma CorrectedReportsOutput(base: string, ext: string, imageDir: Option<string>)
    ensures FinalOutputCorrected(base, ext, imageDir) == ReportedOutput(base, ext)
    ensures HasImageDir(imageDir) ==> FinalOutputCorrected(base, ext, imageDir) == FinalOutput(base, ext, imageDir)
  {
  }
}
