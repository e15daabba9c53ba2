/**
 * compute_output_path: where the JSON for one plist of a directory run is
 * written. The directory is the output directory when one is given, and
 * otherwise the directory of the plist itself; below it comes the plist's
 * path relative to the input directory (or its file name when there is no
 * input directory) with its last extension replaced by ".json".
 */
module OutputPath {
  import opened Wrappers
  import opened Strings
  import opened PosixPath

  /** compute_output_path; creating the parent directory is Cli.OutputDirError in the batch loop. */
  function ComputeOutputPath(plistPath: string, baseInputDir: string, outputDir: Option<string>): string {
    var directory := if Truthy(outputDir) then outputDir.value else Dirname(plistPath);
    var relPath := if baseInputDir != "" then RelPath(plistPath, baseInputDir) else Basename(plistPath);
    Join(directory, Stem(relPath) + ".json")
  }

  lemma JoinJsonEndsWithJson(directory: string, stem: string)
    ensures EndsWith(Join(directory, stem + ".json"), ".json")
  {
    var json := stem + ".json";
    var r := Join(directory, json);
    JoinParts(directory, json);
    assert r[|r| - 5..] == r[|r| - |json|..][|json| - 5..];
  }

  /** Whatever the inputs, the output path names a ".json" file. */
  lemma EndsWithJson(plistPath: string, baseInputDir: string, outputDir: Option<string>)
    ensures EndsWith(ComputeOutputPath(plistPath, baseInputDir, outputDir), ".json")
  {
    var relPath := if baseInputDir != "" then RelPath(plistPath, baseInputDir) else Basename(plistPath);
    JoinJsonEndsWithJson(if Truthy(outputDir) then outputDir.value else Dirname(plistPath), Stem(relPath));
  }

  /**
   * With an output directory, a plist below the input directory keeps its
   * relative position: out/<relative path without its last extension>.json,
   * where that extension is the one splitext finds.
   */
  lemma MirrorsRelativePosition(base: string, rel: string, out: string)
    requires base != "" && base[|base| - 1] != '/'
    requires rel != "" && rel[0] != '/'
    requires out != "" && out[|out| - 1] != '/'
    ensures ComputeOutputPath(base + "/" + rel, base, Some(out)) == out + "/" + Stem(rel) + ".json"
    ensures Stem(rel) + SplitExt(rel).1 == rel
  {
    RelPathBelow(base, rel);
    SplitExtParts(rel);
  }

  /** join(a, b) puts one separator between a directory and a relative path. */
  lemma JoinRelative(a: string, b: string)
    requires a != "" && a[|a| - 1] != '/'
    requires b != "" && b[0] != '/'
    ensures Join(a, b) == a + "/" + b
  {
  }

  /** The directory and the relative path of base/sub/name. */
  lemma NestedParts(base: string, sub: string, name: string)
    requires base != "" && base[|base| - 1] != '/'
    requires sub != "" && '/' !in sub
    requires name != "" && '/' !in name
    ensures Dirname(base + "/" + sub + "/" + name) == base + "/" + sub
    ensures RelPath(base + "/" + sub + "/" + name, base) == sub + "/" + name
  {
    var dir := base + "/" + sub;
    assert dir[|dir| - 1] != '/';
    DirnameBelow(dir, name);
    assert dir + "/" + name == base + "/" + (sub + "/" + name);
    RelPathBelow(base, sub + "/" + name);
  }

  /** The JSON path of sub/name relative to base/sub. */
  lemma NestedJson(base: string, sub: string, name: string)
    requires base != "" && base[|base| - 1] != '/'
    requires sub != "" && '/' !in sub
    requires '/' !in name
    ensures Join(base + "/" + sub, Stem(sub + "/" + name) + ".json") == base + "/" + sub + "/" + sub + "/" + Stem(name) + ".json"
  {
    var dir := base + "/" + sub;
    SplitExtBelow(sub, name);
    var json := sub + "/" + Stem(name) + ".json";
    assert Stem(sub + "/" + name) + ".json" == json;
    assert dir[|dir| - 1] != '/';
    assert json[0] == sub[0];
    JoinRelative(dir, json);
    assert dir + "/" + json == base + "/" + sub + "/" + sub + "/" + Stem(name) + ".json";
  }

  /**
   * Without an output directory the JSON goes below the plist's own
   * directory and the relative sub-directory is added again:
   * base/sub/name.plist becomes base/sub/sub/name.json.
   */
  lemma NestedWithoutOutputDir(base: string, sub: string, name: string)
    requires base != "" && base[|base| - 1] != '/'
    requires sub != "" && '/' !in sub
    requires name != "" && '/' !in name
    ensures ComputeOutputPath(base + "/" + sub + "/" + name, base, None)
         == base + "/" + sub + "/" + sub + "/" + Stem(name) + ".json"
  {
    NestedParts(base, sub, name);
    NestedJson(base, sub, name);
  }

  /**
   * With no input directory only the file name is used: the result's last
   * component is the plist's file name with its extension replaced.
   */
  lemma FileNameWithoutBase(plistPath: string, outputDir: Option<string>)
    ensures Basename(ComputeOutputPath(plistPath, "", outputDir)) == Stem(Basename(plistPath)) + ".json"
  {
    var name := Basename(plistPath);
    var stem := Stem(name);
    BasenameIsLastComponent(plistPath);
    SplitExtParts(name);
    assert '/' !in stem + ".json" by {
      forall k | 0 <= k < |stem| ensures stem[k] != '/' {
        assert stem[k] == (stem + SplitExt(name).1)[k];
      }
    }
    var directory := if Truthy(outputDir) then outputDir.value else Dirname(plistPath);
    BasenameJoin(directory, stem + ".json");
  }
}
