# Plister in Dafny

A model of the decision logic of `plister.py`, a command-line tool that
converts macOS property lists (`.plist`, XML or binary) to JSON, either one
file at a time or for every plist in a directory. The modules follow the
parts of the script:

- `Candidates` — `iter_plist_files`: which files a directory run converts.
  Recursive mode walks the tree; shallow mode scans the directory and keeps
  regular files only. Either way a name qualifies when, lower-cased, it ends
  in `.plist`, and the kept paths are sorted. It is a method with loops,
  proved against a specification function.
- `OutputPath` (over `PosixPath` and `Strings`) — `compute_output_path`:
  where each JSON file is written. The model uses `dirname`, `basename`,
  `splitext`, `join` and `relpath` of `posixpath`.
- `Base64` and `JsonEncoding` — the `default` hook
  `convert_to_json_serializable` and the walk `json.dump` makes over a
  decoded plist:
  - dates become their ISO-8601 text;
  - data becomes standard padded base64 (section 4 of RFC 4648);
  - any other non-JSON value (a `plistlib.UID`) raises a `TypeError` that ends the conversion.
- `Conversion` — `convert_single_plist_to_json`: the `(path, success, error)`
  triple of one conversion, from how loading ended and whether the
  destination could be prepared.
- `Cli` — `main`:
  - the batch loop, a method that appends one result per plist;
  - the success count and the ordered failure list;
  - the exit status. The function `ExitCode` specifies it, and the method
    `Run` computes it with the checks in the script's order.

Paths are taken as absolute and normalised, so `os.path.abspath` is the
identity. The file system, `plistlib.load` and `datetime.isoformat` are
parameters: the `FileSystem` and `Env` datatypes hold them as functions.

Two points where what the code does differs from what a reader of its help
text would expect. The model follows the code:

- The help text of `--output-dir` (plister.py:43) says that by default the
  JSON files go next to the `.plist` files. Without `--output-dir` the code
  instead joins the plist's path relative to the input directory onto the
  plist's own directory (plister.py:89-97), so `base/sub/x.plist` becomes
  `base/sub/sub/x.json` (`OutputPath.NestedWithoutOutputDir`).
- `compute_output_path` creates the parent directory of the output path
  itself (`ensure_directory`, plister.py:98). The batch loop calls it at
  plister.py:212, outside the `try` blocks of `convert_single_plist_to_json`
  (plister.py:114-146), so nothing catches an exception raised there: it
  ends the whole run with the interpreter's status 1 (`Cli.Batch`,
  `Cli.ExitCode`). Every other failure of one file is recorded and the loop
  goes on.

## Model

| member | source | states |
|---|---|---|
| `Strings.LessEq` | plister.py:78 | `a <= b` as Python compares two `str` values: code point by code point, a proper prefix first |
| `Strings.Lower` | plister.py:72 | lower-casing keeps the length and maps each character on its own (ASCII letters only, see below) |
| `Strings.LessEqReflexive` | plister.py:78 | Python's string order is reflexive |
| `Strings.LessEqTotal` | plister.py:78 | any two strings are ordered one way or the other |
| `Strings.LessEqTransitive` | plister.py:78 | the order is transitive |
| `Strings.LessEqAntisymmetric` | plister.py:78 | two strings each at most the other are equal |
| `Strings.Sort` | plister.py:78 | `sorted` returns an ordered permutation of its input |
| `Strings.SortedUnique` | plister.py:78 | two ordered lists with the same elements are equal, so any correct `sorted` returns the same list as `Sort` |
| `Candidates.IterPlistFiles` | plister.py:66-78 | the loops collect the kept paths in walk or scan order, and the result is that list sorted |
| `Candidates.HasPlistSuffix` | plister.py:72 | `name.lower().endswith(".plist")` |
| `Candidates.ScanMatchesExact` | plister.py:74-77 | shallow mode collects a path exactly when some scanned entry with that path is a regular file whose lower-cased name ends in `.plist` |
| `Candidates.ScanMatchesCount` | plister.py:74-77 | shallow mode collects a path once per kept entry that has it |
| `Candidates.FileMatchesExact` | plister.py:70-73 | for one walk step, recursive mode collects exactly `join(root, f)` for each listed file `f` with a plist name |
| `Candidates.WalkMatchesSound` | plister.py:69-73 | every path recursive mode collects is `join(root, f)` for a walked file with a plist name |
| `Candidates.WalkMatchesComplete` | plister.py:69-73 | every walked file with a plist name is collected |
| `Candidates.WalkMatchesExact` | plister.py:69-73 | recursive mode collects a path exactly when some walked file with a plist name joins to it |
| `Candidates.FileMatchesCount` | plister.py:71-73 | for one walk step, a path is collected once per listed file with a plist name that joins to it |
| `Candidates.WalkMatchesCount` | plister.py:69-73 | over the whole walk, a path is collected once per walk position (step, file) whose file has a plist name and joins to it |
| `Candidates.ShallowSelection` | plister.py:66-78 | in shallow mode the result is sorted and holds exactly the qualifying regular files' paths, each as often as an entry has it |
| `Candidates.RecursiveSelection` | plister.py:66-78 | in recursive mode the result is sorted and holds exactly the joined paths of the walked files with a plist name, each as often as a walked file gives it |
| `Candidates.PlistSuffixIgnoresCase` | plister.py:72 | a name qualifies exactly when its last six characters, lower-cased, are `.plist` |
| `PosixPath.Basename` | plister.py:93 | `posixpath.basename`: the text after the last `/` |
| `PosixPath.Dirname` | plister.py:89 | `posixpath.dirname`: the text up to the last `/`, trailing `/` stripped unless it is all `/` |
| `PosixPath.SplitExt` | plister.py:95 | `posixpath.splitext`: split at the last `.` of the last component, leading dots not counting |
| `PosixPath.Join` | plister.py:97 | `posixpath.join` of two parts: an absolute second part wins, otherwise one `/` between them |
| `PosixPath.RelPath` | plister.py:91 | `posixpath.relpath` of a path below `start`: what follows `start` and its separator |
| `PosixPath.BasenameIsLastComponent` | plister.py:93 | `basename` is the `/`-free tail of the path after its last `/` |
| `PosixPath.DirnameIsPrefix` | plister.py:89 | `dirname` is a prefix of the path, empty exactly when the path has no `/` |
| `PosixPath.SplitExtParts` | plister.py:95 | the two halves of `splitext` concatenate to the path; a non-empty extension starts with its only `.` and holds no `/` |
| `PosixPath.SplitExtFindsExtension` | plister.py:95 | `splitext` finds an extension exactly when the last component has a `.` preceded in it by a character other than `.`, so `.plist` alone has none |
| `PosixPath.SplitExtBelow` | plister.py:95 | below a directory prefix, `splitext` splits exactly as on the last component |
| `PosixPath.DirnameBelow` | plister.py:89 | the directory of `d/n` for a file name `n` is `d` |
| `PosixPath.JoinParts` | plister.py:97 | `join(a, b)` ends with `b` and, unless `b` is absolute, starts with `a` |
| `PosixPath.BasenameJoin` | plister.py:97 | joining a file name to any directory leaves that name as the basename |
| `PosixPath.RelPathBelow` | plister.py:91 | `relpath` of `start/rel` against `start` is `rel` |
| `OutputPath.ComputeOutputPath` | plister.py:85-97 | the output directory (or the plist's directory) joined with the relative path (or file name) whose extension is replaced by `.json`; the directory creation of plister.py:98 is `Cli.OutputDirError` |
| `OutputPath.EndsWithJson` | plister.py:85-99 | every output path ends in `.json` |
| `OutputPath.MirrorsRelativePosition` | plister.py:89-97 | with an output directory, `base/rel` maps to `out/<rel without its last extension>.json` |
| `OutputPath.NestedWithoutOutputDir` | plister.py:89-97 | without an output directory, `base/sub/name` maps to `base/sub/sub/<stem>.json` |
| `OutputPath.FileNameWithoutBase` | plister.py:90-97 | with an empty input directory the output file name is the plist's file name with its extension replaced by `.json` |
| `Base64.Encode` | plister.py:158 | the encoding has a multiple of four characters and is empty exactly for empty input |
| `Base64.EncodeLength` | plister.py:158 | `n` bytes encode to `4 * ceil(n / 3)` characters |
| `Base64.EncodeAlphabet` | plister.py:158 | all characters are from `A-Z a-z 0-9 + /` except the last `(3 - n mod 3) mod 3` (at most 2), which are `=` |
| `Base64.DecodeEncode` | plister.py:156-158 | decoding the encoding gives back the bytes, the empty sequence included |
| `Base64.EncodeDecode` | plister.py:156-158 | text the decoder accepts is the encoding of the bytes it decodes to, so the two are inverse and no other text stands for the same bytes |
| `JsonEncoding.ConvertToJsonSerializable` | plister.py:149-160 | dates give their isoformat text; bytes and bytearray give exactly their standard base64 text `Encode`, of length `4 * ceil(n / 3)`, which decodes back to them; every other type is an error naming that type, never a value |
| `JsonEncoding.JsonOf` | plister.py:126-143 | the JSON value `json.dump` writes for a plist, or the first error the hook raises in document order |
| `JsonEncoding.Collect` | plister.py:126-143 | serialisation of a container fails with the first failing element's error, and otherwise keeps every element in order |
| `JsonEncoding.JsonOfFailsOnUid` | plister.py:126-160 | serialising a plist fails exactly when it holds a UID anywhere, and then with the hook's `TypeError` message |
| `JsonEncoding.JsonOfIsLossless` | plister.py:126-160 | a successful serialisation represents the whole plist: `None` as `null`, scalars equal, dates as isoformat text, data as base64 that decodes to the same bytes, arrays element by element, dictionaries key by key in the same order |
| `Conversion.ConvertSinglePlistToJson` | plister.py:102-146 | the triple carries the input path, and success holds exactly when there is no error |
| `Conversion.ChooseSink` | plister.py:125 | standard output when streaming is asked for or the output path is empty or missing, the file otherwise |
| `Conversion.SinkError` | plister.py:134-136 | the exception of creating the output file's directory, or else of opening it; none for standard output |
| `Conversion.DumpError` | plister.py:124-143 | the exception the second `try` block catches: the sink's, or else the hook's `TypeError` |
| `Conversion.SucceedsIff` | plister.py:114-146 | a conversion succeeds exactly when the plist loads, its destination can be prepared (standard output always can), and it holds no UID |
| `Conversion.SuccessWritesLosslessJson` | plister.py:124-144 | after a success the JSON written represents the loaded plist without loss |
| `Conversion.ErrorMessages` | plister.py:114-146 | each load failure gives its fixed message, and a dump failure gives `erreur de conversion JSON : ` followed by the sink's exception or the UID `TypeError` |
| `Cli.OutputDirError` | plister.py:98 | the exception `ensure_directory` raises for a plist's output path in the batch loop |
| `Cli.Batch` | plister.py:211-219 | the results of the batch loop in plist order, and the uncaught exception that ends it |
| `Cli.ConvertBatch` | plister.py:211-219 | the loop's results and stopping exception are those of the batch specification `Batch` |
| `Cli.BatchCrashPersists` | plister.py:211-212 | once `compute_output_path` has raised, the later plists are not processed |
| `Cli.BatchRecordsEachFile` | plister.py:211-219 | the k-th result is the conversion of the k-th plist to its computed output path; the loop stops early exactly at the first plist whose output directory cannot be created |
| `Cli.BatchResultsConsistent` | plister.py:211-219 | each recorded result names its plist, and succeeds exactly when it has no error |
| `Cli.BatchEntrySucceedsIff` | plister.py:212-219 | in a directory run a plist converts exactly when it loads, its output file opens, and it holds no UID |
| `Cli.SuccessCount` | plister.py:221 | the number of successful results |
| `Cli.FailureDetails` | plister.py:222 | the `(path, error)` pairs of the failed results, in order |
| `Cli.TalliesPartition` | plister.py:221-222 | success count plus number of failure details is the number of results |
| `Cli.FailureDetailsAppend` | plister.py:222 | the failure list of a concatenation is the concatenation of the failure lists, so run order is kept |
| `Cli.FailureDetailsExact` | plister.py:222 | a `(path, error)` pair is listed exactly when a failed result has that path and error |
| `Cli.AnyFailure` | plister.py:221-228 | the failure list is non-empty exactly when some result failed, and empty exactly when the success count is the total |
| `Cli.ExitCode` | plister.py:163-257 | the status is one of 0, 1, 2, 3 |
| `Cli.Run` | plister.py:163-257 | `main` exits with the status `ExitCode` specifies |
| `Cli.MissingPathFirst` | plister.py:168-170 | a missing input path gives 1 whatever the options |
| `Cli.EmptyDirectoryFirst` | plister.py:172-179 | a directory with no plist gives 1, before the `-o` check |
| `Cli.UsageRejectedBeforeConversion` | plister.py:181-187 | `-o` for a directory without `--output-dir` gives 2, whatever loading and writing would do |
| `Cli.BatchExitCodeMeaning` | plister.py:211-233 | a batch exits 1 exactly when the output directory of some plist cannot be created; otherwise 3 exactly when some plist fails to convert; 0 exactly when every plist converts, that is when the success count is the number of plists |
| `Cli.DirectoryExitCode` | plister.py:189-233 | a directory run past the early checks exits 1 exactly when some plist's output directory cannot be created, 3 exactly when none does and some plist fails to convert, and 0 exactly when every plist's directory is created and it converts |
| `Cli.SingleFileExitCode` | plister.py:236-257 | a single-file run gives 2 exactly when `-o` names a directory, 0 exactly when it does not and the plist loads, the output opens and no UID is present, and 1 otherwise, never 3 |

## Left out

- `plistlib.load` is not part of this model. Reading and decoding a plist is the `LoadResult` a caller supplies: a value, an invalid file, a missing file, or another read error with its text.
- The JSON text `json.dump` writes is not modelled: indentation (`--indent`), escaping, `ensure_ascii=False`, the trailing newline on standard output. Values are modelled by the `Json` datatype, and reals are kept as their 64-bit pattern.
- `datetime.isoformat` is a function parameter; time zones are not modelled.
- `os.path.exists`, `os.path.isdir`, `os.walk`, `os.scandir`, `os.makedirs` and `open` are function parameters. The model takes `os.walk` and `os.scandir` listings in whatever order they are given. Each of these answers the same way every time it is asked, so a file system that changes during the run is not modelled.
- `os.path.abspath` is not modelled: input paths are assumed absolute and normalised, so it is the identity.
- PosixPath.RelPath: only a path lying below `start` is made relative. Any other path is returned unchanged, where `os.path.relpath` would produce `..` components. Candidates always lie below the input directory.
- Strings.Lower: only ASCII letters are lower-cased. `str.lower` also folds non-ASCII letters. Two of them give an ASCII letter: `İ` (U+0130) lower-cases to `i` followed by the combining dot U+0307, and the Kelvin sign (U+212A) to `k`. The combining dot always follows that `i`, and `k` is not in `.plist`, so a name ends in `.plist` after `str.lower` exactly when it does after ASCII lower-casing.
- Conversion.DumpError: an exception raised by preparing the output (creating its directory, opening the file) is taken before a `TypeError` from the hook. An I/O error raised in the middle of writing, and the partial file such an error or a `TypeError` leaves behind, are not modelled. Writing to standard output is taken never to fail.
- Base64.Decode is a strict reference decoder: it accepts only padded text whose pad bits are zero, which is exactly the text `Encode` writes (`Base64.EncodeDecode`). It is not `base64.b64decode`, and serves only to state that the encoding loses nothing.
- The command line parser, the `tqdm` progress bar, `--no-progress`, and every printed message and plural form are not modelled.
- `sys.exit(code)` is the code `Run` returns. An exception nothing catches is status 1.
- `plistlib.UID` is the only non-JSON value `plistlib` returns besides dates and bytes. The hook's other branches (`bytearray`, any other type name) are modelled in `ConvertToJsonSerializable` but never reached from a loaded plist.
- JsonEncoding.PlistValue: a value is a tree whose dictionary keys are strings. The binary reader of `plistlib` can also return a container shared by several places or holding itself, and dictionary keys of other types. A shared container serialises as the tree it unfolds to. A cycle makes `json.dump` raise `ValueError`, which plister.py:145-146 reports as a conversion error. `json.dump` turns a number, boolean or `None` key into text and rejects any other key with `TypeError`. None of this is modelled, so `Conversion.SucceedsIff` speaks of tree-shaped plists with string keys.
- OutputPath.MirrorsRelativePosition: stated for input and output directories other than `/`. `os.path.abspath("/")` keeps its slash, and a run on `/` is not covered.
- OutputPath.NestedWithoutOutputDir: stated for an input directory other than `/`, for the same reason.
- PosixPath.DirnameBelow: stated for a directory other than `/`, whose dirname is itself.
- PosixPath.RelPathBelow: stated for a start other than `/`, which needs no separator added.
