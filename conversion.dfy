/**
 * convert_single_plist_to_json: load one plist, then serialise it as JSON
 * to standard output or to a file, and report (path, success, error). The
 * file system and plistlib are parameters: what loading a path gives, and
 * which exception, if any, creating a directory or opening a file raises.
 */
module Conversion {
  import opened Wrappers
  import opened PosixPath
  import opened JsonEncoding

  /** How `open(path, "rb")` followed by plistlib.load ends. */
  datatype LoadResult =
    | Loaded(value: PlistValue)
    | InvalidFile                  // plistlib.InvalidFileException
    | FileNotFound                 // FileNotFoundError
    | ReadError(detail: string)    // any other exception, as str(e)

  /** What the conversion depends on outside its arguments. */
  datatype Env = Env(
    load: string -> LoadResult,
    makeDirs: string -> Option<string>,      // the exception os.makedirs(path, exist_ok=True) raises, if any
    openForWrite: string -> Option<string>,  // the exception open(path, "w") raises, if any
    isoformat: DateTime -> string)

  /** Where the JSON goes. */
  datatype Sink = Stdout | OutputFile(path: string)

  /** The (plist path, success, error) triple the conversion returns. */
  datatype FileResult = FileResult(path: string, success: bool, error: Option<string>)

  const InvalidFileMessage: string := "fichier .plist invalide ou corrompu"
  const NotFoundMessage: string := "fichier introuvable"

  function ReadErrorMessage(detail: string): string {
    "erreur de lecture : " + detail
  }

  function ConversionErrorMessage(detail: string): string {
    "erreur de conversion JSON : " + detail
  }

  /** Standard output when streaming is asked for or no output path is set. */
  function ChooseSink(outputPath: Option<string>, streamOutput: bool): Sink {
    if streamOutput || !Truthy(outputPath) then Stdout else OutputFile(outputPath.value)
  }

  /** The exception raised before any JSON is written: creating the parent directory, then opening the file. */
  function SinkError(sink: Sink, env: Env): Option<string> {
    match sink
    case Stdout => None
    case OutputFile(p) =>
      var made := env.makeDirs(Dirname(p));
      if made.Some? then made else env.openForWrite(p)
  }

  /** The exception the second try block catches, if any. */
  function DumpError(value: PlistValue, sink: Sink, env: Env): Option<string> {
    if SinkError(sink, env).Some? then SinkError(sink, env)
    else
      match JsonOf(value, env.isoformat)
      case Ok(_) => None
      case Err(e) => Some(e)
  }

  /** convert_single_plist_to_json; the indent only shapes the text and is left out. */
  function ConvertSinglePlistToJson(plistPath: string, outputPath: Option<string>, streamOutput: bool, env: Env): (r: FileResult)
    ensures r.path == plistPath
    ensures r.success <==> r.error.None?
  {
    match env.load(plistPath)
    case InvalidFile => FileResult(plistPath, false, Some(InvalidFileMessage))
    case FileNotFound => FileResult(plistPath, false, Some(NotFoundMessage))
    case ReadError(e) => FileResult(plistPath, false, Some(ReadErrorMessage(e)))
    case Loaded(value) =>
      var failure := DumpError(value, ChooseSink(outputPath, streamOutput), env);
      if failure.None? then FileResult(plistPath, true, None)
      else FileResult(plistPath, false, Some(ConversionErrorMessage(failure.value)))
  }

  /**
   * A conversion succeeds exactly when the plist loads, its destination can
   * be opened, and it holds no value the hook rejects.
   */
  lemma SucceedsIff(plistPath: string, outputPath: Option<string>, streamOutput: bool, env: Env)
    ensures ConvertSinglePlistToJson(plistPath, outputPath, streamOutput, env).success <==>
      env.load(plistPath).Loaded? &&
      SinkError(ChooseSink(outputPath, streamOutput), env).None? &&
      !HasUid(env.load(plistPath).value)
  {
    if env.load(plistPath).Loaded? {
      JsonOfFailsOnUid(env.load(plistPath).value, env.isoformat);
    }
  }

  /**
   * When a conversion succeeds, the JSON written is a lossless image of the
   * loaded plist (see Represents).
   */
  lemma SuccessWritesLosslessJson(plistPath: string, outputPath: Option<string>, streamOutput: bool, env: Env)
    requires ConvertSinglePlistToJson(plistPath, outputPath, streamOutput, env).success
    ensures env.load(plistPath).Loaded?
    ensures JsonOf(env.load(plistPath).value, env.isoformat).Ok?
    ensures Represents(env.load(plistPath).value, JsonOf(env.load(plistPath).value, env.isoformat).value, env.isoformat)
  {
    JsonOfIsLossless(env.load(plistPath).value, env.isoformat);
  }

  /**
   * The reported error names its cause: one fixed message per load failure,
   * and for a loaded plist the prefixed exception of the sink, or else the
   * hook's TypeError for a UID.
   */
  lemma ErrorMessages(plistPath: string, outputPath: Option<string>, streamOutput: bool, env: Env)
    ensures var r := ConvertSinglePlistToJson(plistPath, outputPath, streamOutput, env);
      var sinkError := SinkError(ChooseSink(outputPath, streamOutput), env);
      match env.load(plistPath)
      case InvalidFile => r.error == Some(InvalidFileMessage)
      case FileNotFound => r.error == Some(NotFoundMessage)
      case ReadError(e) => r.error == Some(ReadErrorMessage(e))
      case Loaded(value) =>
        (sinkError.Some? ==> r.error == Some(ConversionErrorMessage(sinkError.value))) &&
        (sinkError.None? && HasUid(value) ==> r.error == Some(ConversionErrorMessage(TypeErrorMessage(UidTypeName))))
  {
    if env.load(plistPath).Loaded? {
      JsonOfFailsOnUid(env.load(plistPath).value, env.isoformat);
    }
  }
}
