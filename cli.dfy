/**
 * main: the command line run. A missing path, a directory without plist
 * files, -o given for a directory without --output-dir, and an output path
 * that is a directory in single-file mode each stop the run before anything
 * is converted. A directory run converts every plist file, one after the
 * other, and exits 3 when any failed; a single-file run exits 0 or 1.
 */
module Cli {
  import opened Wrappers
  import opened Strings
  import opened PosixPath
  import opened OutputPath
  import opened Candidates
  import opened Conversion

  /** The parsed command line; --indent and --no-progress change only what is printed and are left out. */
  datatype Options = Options(plistFile: string, output: Option<string>, outputDir: Option<string>, recursive: bool)

  /** What the run observes of the file system, with paths taken as absolute and normalised. */
  datatype FileSystem = FileSystem(
    pathExists: string -> bool,
    isDir: string -> bool,
    walk: string -> seq<WalkStep>,
    scandir: string -> seq<DirEntry>,
    env: Env)

  // ---- The directory run ----

  /** The result main records for one plist of a directory run. */
  function BatchEntry(plistFile: string, baseDir: string, outputDir: Option<string>, env: Env): FileResult {
    var r := ConvertSinglePlistToJson(plistFile, Some(ComputeOutputPath(plistFile, baseDir, outputDir)), false, env);
    FileResult(plistFile, r.success, r.error)
  }

  /**
   * The exception compute_output_path raises for a plist: creating the
   * parent directory of its output path happens outside any try block.
   */
  function OutputDirError(plistFile: string, baseDir: string, outputDir: Option<string>, env: Env): Option<string> {
    env.makeDirs(Dirname(ComputeOutputPath(plistFile, baseDir, outputDir)))
  }

  /** BatchEntry for a fixed run. */
  function Converter(baseDir: string, outputDir: Option<string>, env: Env): string -> FileResult {
    plistFile => BatchEntry(plistFile, baseDir, outputDir, env)
  }

  /** OutputDirError for a fixed run. */
  function DirChecker(baseDir: string, outputDir: Option<string>, env: Env): string -> Option<string> {
    plistFile => OutputDirError(plistFile, baseDir, outputDir, env)
  }

  /** The results recorded so far and the uncaught exception that ended the loop, if any. */
  datatype BatchOutcome = BatchOutcome(results: seq<FileResult>, crash: Option<string>)

  /**
   * The conversion loop of main over plistFiles, in order: dirError gives the
   * exception computing a plist's output path raises, convert the result of
   * converting it.
   */
  function Batch(plistFiles: seq<string>, convert: string -> FileResult, dirError: string -> Option<string>): BatchOutcome
  {
    if |plistFiles| == 0 then BatchOutcome([], None)
    else
      var prev := Batch(plistFiles[..|plistFiles| - 1], convert, dirError);
      var file := plistFiles[|plistFiles| - 1];
      if prev.crash.Some? then prev
      else if dirError(file).Some? then BatchOutcome(prev.results, dirError(file))
      else BatchOutcome(prev.results + [convert(file)], None)
  }

  /** The loop of main: one result per plist, in order, until compute_output_path raises. */
  method ConvertBatch(plistFiles: seq<string>, baseDir: string, outputDir: Option<string>, env: Env)
    returns (results: seq<FileResult>, crash: Option<string>)
    ensures BatchOutcome(results, crash) == Batch(plistFiles, Converter(baseDir, outputDir, env), DirChecker(baseDir, outputDir, env))
  {
    ghost var convert, dirError := Converter(baseDir, outputDir, env), DirChecker(baseDir, outputDir, env);
    results := [];
    crash := None;
    for i := 0 to |plistFiles|
      invariant crash.None?
      invariant BatchOutcome(results, crash) == Batch(plistFiles[..i], convert, dirError)
    {
      BatchStep(plistFiles, i, convert, dirError);
      var plistFile := plistFiles[i];
      var outputPath := ComputeOutputPath(plistFile, baseDir, outputDir);
      var made := env.makeDirs(Dirname(outputPath));
      assert dirError(plistFile) == made;
      if made.Some? {
        // the exception leaves the loop, and main with it
        crash := made;
        BatchCrashPersists(plistFiles, i + 1, convert, dirError);
        break;
      }
      var result := ConvertSinglePlistToJson(plistFile, Some(outputPath), false, env);
      assert convert(plistFile) == FileResult(plistFile, result.success, result.error);
      results := results + [FileResult(plistFile, result.success, result.error)];
    }
    assert plistFiles[..|plistFiles|] == plistFiles;
  }

  /** One more plist after a prefix that raised nothing: it raises, or its result is appended. */
  lemma BatchStep(plistFiles: seq<string>, i: nat, convert: string -> FileResult, dirError: string -> Option<string>)
    requires i < |plistFiles|
    requires Batch(plistFiles[..i], convert, dirError).crash.None?
    ensures var prev, file := Batch(plistFiles[..i], convert, dirError), plistFiles[i];
      Batch(plistFiles[..i + 1], convert, dirError) ==
        if dirError(file).Some? then BatchOutcome(prev.results, dirError(file))
        else BatchOutcome(prev.results + [convert(file)], None)
  {
    assert plistFiles[..i + 1][..i] == plistFiles[..i];
  }

  /** Once the loop has stopped on an exception, later plists change nothing. */
  lemma {:induction false} BatchCrashPersists(plistFiles: seq<string>, i: nat, convert: string -> FileResult, dirError: string -> Option<string>)
    requires i <= |plistFiles|
    requires Batch(plistFiles[..i], convert, dirError).crash.Some?
    ensures Batch(plistFiles, convert, dirError) == Batch(plistFiles[..i], convert, dirError)
    decreases |plistFiles| - i
  {
    if i < |plistFiles| {
      var next := plistFiles[..i + 1];
      assert next[..i] == plistFiles[..i];
      BatchCrashPersists(plistFiles, i + 1, convert, dirError);
    } else {
      assert plistFiles[..i] == plistFiles;
    }
  }

  /**
   * What the loop records: the k-th result is the conversion of the k-th
   * plist, and the loop stops early exactly at the first plist whose output
   * directory cannot be created.
   */
  lemma {:induction false} BatchRecordsEachFile(plistFiles: seq<string>, convert: string -> FileResult, dirError: string -> Option<string>)
    ensures var out := Batch(plistFiles, convert, dirError);
      |out.results| <= |plistFiles| &&
      (forall k :: 0 <= k < |out.results| ==> out.results[k] == convert(plistFiles[k]) && dirError(plistFiles[k]).None?) &&
      (out.crash.None? <==> |out.results| == |plistFiles|) &&
      (out.crash.Some? ==> out.crash == dirError(plistFiles[|out.results|]))
    decreases |plistFiles|
  {
    if |plistFiles| > 0 {
      var init := plistFiles[..|plistFiles| - 1];
      BatchRecordsEachFile(init, convert, dirError);
      var prev := Batch(init, convert, dirError);
      forall k | 0 <= k < |init| ensures init[k] == plistFiles[k] {
      }
    }
  }

  /** In a directory run every recorded result names its plist, and succeeds exactly when it carries no error. */
  lemma BatchResultsConsistent(plistFiles: seq<string>, baseDir: string, outputDir: Option<string>, env: Env)
    ensures var out := Batch(plistFiles, Converter(baseDir, outputDir, env), DirChecker(baseDir, outputDir, env));
      forall k :: 0 <= k < |out.results| && k < |plistFiles| ==>
        out.results[k].path == plistFiles[k] && (out.results[k].success <==> out.results[k].error.None?)
  {
    BatchRecordsEachFile(plistFiles, Converter(baseDir, outputDir, env), DirChecker(baseDir, outputDir, env));
  }

  /**
   * In a directory run the output directory already exists by the time a
   * plist is converted, so a plist that gets a result fails exactly when it
   * does not load, its output file cannot be opened, or it holds a value the
   * hook rejects.
   */
  lemma BatchEntrySucceedsIff(plistFile: string, baseDir: string, outputDir: Option<string>, env: Env)
    requires OutputDirError(plistFile, baseDir, outputDir, env).None?
    ensures var outputPath := ComputeOutputPath(plistFile, baseDir, outputDir);
      var loaded := env.load(plistFile);
      BatchEntry(plistFile, baseDir, outputDir, env).success <==>
        loaded.Loaded? && env.openForWrite(outputPath).None? && !JsonEncoding.HasUid(loaded.value)
  {
    var outputPath := ComputeOutputPath(plistFile, baseDir, outputDir);
    EndsWithJson(plistFile, baseDir, outputDir);
    assert Truthy(Some(outputPath));
    SucceedsIff(plistFile, Some(outputPath), false, env);
  }

  // ---- Tallies ----

  /** sum(1 for _, ok, _ in results if ok) */
  function SuccessCount(results: seq<FileResult>): nat {
    if |results| == 0 then 0
    else SuccessCount(results[..|results| - 1]) + (if results[|results| - 1].success then 1 else 0)
  }

  /** [(path, err) for path, ok, err in results if not ok] */
  function FailureDetails(results: seq<FileResult>): seq<(string, Option<string>)> {
    if |results| == 0 then []
    else
      var last := results[|results| - 1];
      FailureDetails(results[..|results| - 1]) + (if last.success then [] else [(last.path, last.error)])
  }

  /** Every result is counted once: as a success or as a failure detail. */
  lemma {:induction false} TalliesPartition(results: seq<FileResult>)
    ensures SuccessCount(results) + |FailureDetails(results)| == |results|
    decreases |results|
  {
    if |results| > 0 {
      TalliesPartition(results[..|results| - 1]);
    }
  }

  /** The failure details are the failed results, in the order of the run. */
  lemma {:induction false} FailureDetailsAppend(a: seq<FileResult>, b: seq<FileResult>)
    ensures FailureDetails(a + b) == FailureDetails(a) + FailureDetails(b)
    decreases |b|
  {
    if |b| > 0 {
      var b' := b[..|b| - 1];
      assert (a + b)[..|a + b| - 1] == a + b';
      FailureDetailsAppend(a, b');
    } else {
      assert a + b == a;
    }
  }

  /** A (path, error) pair is listed exactly when some result with that path and error failed. */
  lemma {:induction false} FailureDetailsExact(results: seq<FileResult>, path: string, error: Option<string>)
    ensures (path, error) in FailureDetails(results) <==>
      exists k :: 0 <= k < |results| && !results[k].success && results[k].path == path && results[k].error == error
    decreases |results|
  {
    if |results| > 0 {
      var n := |results| - 1;
      var init, last := results[..n], results[n];
      FailureDetailsExact(init, path, error);
      var tail := if last.success then [] else [(last.path, last.error)];
      assert FailureDetails(results) == FailureDetails(init) + tail;
      if (path, error) in FailureDetails(results) && (path, error) !in FailureDetails(init) {
        assert (path, error) in tail;
      }
      if exists k :: 0 <= k < |results| && !results[k].success && results[k].path == path && results[k].error == error {
        var k :| 0 <= k < |results| && !results[k].success && results[k].path == path && results[k].error == error;
        if k < |results| - 1 {
          assert init[k] == results[k];
        }
      }
    }
  }

  /** There are failure details exactly when some result failed, and then not every file succeeded. */
  lemma {:induction false} AnyFailure(results: seq<FileResult>)
    ensures |FailureDetails(results)| > 0 <==> exists k :: 0 <= k < |results| && !results[k].success
    ensures |FailureDetails(results)| == 0 <==> SuccessCount(results) == |results|
    decreases |results|
  {
    TalliesPartition(results);
    if |results| > 0 {
      var init := results[..|results| - 1];
      AnyFailure(init);
      if exists k :: 0 <= k < |results| && !results[k].success {
        var k :| 0 <= k < |results| && !results[k].success;
        if k < |results| - 1 {
          assert init[k] == results[k];
        }
      }
    }
  }

  // ---- Exit status ----

  /** The single-file output path: the -o argument when it is non-empty. */
  function SingleOutputPath(opts: Options): Option<string> {
    if Truthy(opts.output) then opts.output else None
  }

  /** The status of a directory run once its batch has ended. */
  function BatchExitCode(out: BatchOutcome): int {
    if out.crash.Some? then 1
    else if |FailureDetails(out.results)| > 0 then 3
    else 0
  }

  /**
   * The status main exits with. An uncaught exception from
   * compute_output_path ends the interpreter with status 1.
   */
  function ExitCode(opts: Options, fs: FileSystem): (code: int)
    ensures code in {0, 1, 2, 3}
  {
    var path := opts.plistFile;
    if !fs.pathExists(path) then 1
    else if fs.isDir(path) then
      var plistFiles := PlistFiles(opts.recursive, fs.walk(path), fs.scandir(path));
      if |plistFiles| == 0 then 1
      else if Truthy(opts.output) && !Truthy(opts.outputDir) then 2
      else
        BatchExitCode(Batch(plistFiles, Converter(path, opts.outputDir, fs.env), DirChecker(path, opts.outputDir, fs.env)))
    else if Truthy(opts.output) && fs.isDir(opts.output.value) then 2
    else
      var outputPath := SingleOutputPath(opts);
      if ConvertSinglePlistToJson(path, outputPath, outputPath.None?, fs.env).success then 0 else 1
  }

  /** main, with sys.exit(code) as the returned code; what it prints is left out. */
  method Run(opts: Options, fs: FileSystem) returns (code: int)
    ensures code == ExitCode(opts, fs)
  {
    var plistPath := opts.plistFile;
    if !fs.pathExists(plistPath) {
      return 1;
    }
    if fs.isDir(plistPath) {
      var plistFiles := IterPlistFiles(opts.recursive, fs.walk(plistPath), fs.scandir(plistPath));
      if |plistFiles| == 0 {
        return 1;
      }
      if Truthy(opts.output) && !Truthy(opts.outputDir) {
        return 2;
      }
      var results, crash := ConvertBatch(plistFiles, plistPath, opts.outputDir, fs.env);
      if crash.Some? {
        return 1;
      }
      var successCount := SuccessCount(results);
      var failureDetails := FailureDetails(results);
      if |failureDetails| > 0 {
        return 3;
      }
      return 0;
    }
    if Truthy(opts.output) && fs.isDir(opts.output.value) {
      return 2;
    }
    var outputPath := if Truthy(opts.output) then opts.output else None;
    var result := ConvertSinglePlistToJson(plistPath, outputPath, outputPath.None?, fs.env);
    if result.success {
      return 0;
    }
    return 1;
  }

  /** A missing input path is the first check: status 1, whatever the options and the rest of the file system. */
  lemma MissingPathFirst(opts: Options, fs: FileSystem)
    requires !fs.pathExists(opts.plistFile)
    ensures ExitCode(opts, fs) == 1
  {
  }

  /** An empty directory is reported before the -o misuse, whatever the output options. */
  lemma EmptyDirectoryFirst(opts: Options, fs: FileSystem)
    requires fs.pathExists(opts.plistFile) && fs.isDir(opts.plistFile)
    requires PlistFiles(opts.recursive, fs.walk(opts.plistFile), fs.scandir(opts.plistFile)) == []
    ensures ExitCode(opts, fs) == 1
  {
  }

  /**
   * The -o misuse with a directory is rejected before any plist is read or
   * any output is created: the status is 2 whatever loading, directory
   * creation and opening would do.
   */
  lemma UsageRejectedBeforeConversion(opts: Options, fs: FileSystem, env: Env)
    requires fs.pathExists(opts.plistFile) && fs.isDir(opts.plistFile)
    requires PlistFiles(opts.recursive, fs.walk(opts.plistFile), fs.scandir(opts.plistFile)) != []
    requires Truthy(opts.output) && !Truthy(opts.outputDir)
    ensures ExitCode(opts, fs) == 2 && ExitCode(opts, fs.(env := env)) == 2
  {
  }

  /**
   * A directory run with plists to convert and no -o misuse exits 1 exactly
   * when the output directory of some plist cannot be created; otherwise 3
   * exactly when some plist fails to convert, and 0 exactly when every plist
   * converts.
   */
  lemma DirectoryExitCode(opts: Options, fs: FileSystem)
    requires fs.pathExists(opts.plistFile) && fs.isDir(opts.plistFile)
    requires PlistFiles(opts.recursive, fs.walk(opts.plistFile), fs.scandir(opts.plistFile)) != []
    requires !(Truthy(opts.output) && !Truthy(opts.outputDir))
    ensures var files := PlistFiles(opts.recursive, fs.walk(opts.plistFile), fs.scandir(opts.plistFile));
      var convert := Converter(opts.plistFile, opts.outputDir, fs.env);
      var dirError := DirChecker(opts.plistFile, opts.outputDir, fs.env);
      (ExitCode(opts, fs) == 1 <==> exists k :: 0 <= k < |files| && dirError(files[k]).Some?) &&
      (ExitCode(opts, fs) == 3 <==>
        (forall k :: 0 <= k < |files| ==> dirError(files[k]).None?) &&
        exists k :: 0 <= k < |files| && !convert(files[k]).success) &&
      (ExitCode(opts, fs) == 0 <==>
        forall k :: 0 <= k < |files| ==> dirError(files[k]).None? && convert(files[k]).success)
  {
    var files := PlistFiles(opts.recursive, fs.walk(opts.plistFile), fs.scandir(opts.plistFile));
    var convert := Converter(opts.plistFile, opts.outputDir, fs.env);
    var dirError := DirChecker(opts.plistFile, opts.outputDir, fs.env);
    assert ExitCode(opts, fs) == BatchExitCode(Batch(files, convert, dirError));
    BatchExitCodeMeaning(files, convert, dirError);
  }

  /**
   * A batch exits 1 exactly when some plist's output directory cannot be
   * created; otherwise 3 exactly when some plist failed to convert, and 0
   * exactly when every plist was converted.
   */
  lemma BatchExitCodeMeaning(plistFiles: seq<string>, convert: string -> FileResult, dirError: string -> Option<string>)
    ensures var code := BatchExitCode(Batch(plistFiles, convert, dirError));
      (code == 1 <==> exists k :: 0 <= k < |plistFiles| && dirError(plistFiles[k]).Some?) &&
      (code == 3 <==>
        (forall k :: 0 <= k < |plistFiles| ==> dirError(plistFiles[k]).None?) &&
        exists k :: 0 <= k < |plistFiles| && !convert(plistFiles[k]).success) &&
      (code == 0 <==>
        (forall k :: 0 <= k < |plistFiles| ==> dirError(plistFiles[k]).None?) &&
        SuccessCount(Batch(plistFiles, convert, dirError).results) == |plistFiles|) &&
      (code == 0 <==> forall k :: 0 <= k < |plistFiles| ==> dirError(plistFiles[k]).None? && convert(plistFiles[k]).success)
  {
    var out := Batch(plistFiles, convert, dirError);
    BatchRecordsEachFile(plistFiles, convert, dirError);
    AnyFailure(out.results);
    TalliesPartition(out.results);
    if out.crash.None? {
      forall k | 0 <= k < |plistFiles| ensures dirError(plistFiles[k]).None? && out.results[k] == convert(plistFiles[k]) {
      }
    }
  }

  /**
   * A single-file run exits 0 exactly when the plist loads, the output
   * (a file when -o names one, standard output otherwise) can be opened,
   * and the plist holds no value the hook rejects; 2 exactly when -o names
   * a directory; and 1 otherwise, never 3.
   */
  lemma SingleFileExitCode(opts: Options, fs: FileSystem)
    requires fs.pathExists(opts.plistFile) && !fs.isDir(opts.plistFile)
    ensures ExitCode(opts, fs) in {0, 1, 2}
    ensures var sink := if Truthy(opts.output) then OutputFile(opts.output.value) else Stdout;
      var loaded := fs.env.load(opts.plistFile);
      (ExitCode(opts, fs) == 2 <==> Truthy(opts.output) && fs.isDir(opts.output.value)) &&
      (ExitCode(opts, fs) == 0 <==>
        !(Truthy(opts.output) && fs.isDir(opts.output.value)) &&
        loaded.Loaded? && SinkError(sink, fs.env).None? && !JsonEncoding.HasUid(loaded.value))
  {
    var outputPath := SingleOutputPath(opts);
    SucceedsIff(opts.plistFile, outputPath, outputPath.None?, fs.env);
  }
}
