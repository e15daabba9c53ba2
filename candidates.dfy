/**
 * iter_plist_files: the plist files a directory run converts. Recursive
 * mode walks the tree (the `files` list of each os.walk step); shallow mode
 * scans the directory itself and keeps regular files only. Either way a
 * file is kept when its lower-cased name ends in ".plist", and the kept
 * paths are returned sorted.
 */
module Candidates {
  import opened Strings
  import opened PosixPath

  /** One (root, dirs, files) triple of os.walk; dirs plays no part here. */
  datatype WalkStep = WalkStep(root: string, files: seq<string>)

  /** One os.DirEntry of os.scandir. */
  datatype DirEntry = DirEntry(path: string, name: string, isFile: bool)

  /** name.lower().endswith(".plist") */
  predicate HasPlistSuffix(name: string) {
    EndsWith(Lower(name), ".plist")
  }

  /** The paths recursive mode appends for the files of one walk step, in order. */
  function FileMatches(root: string, files: seq<string>): seq<string>
  {
    if |files| == 0 then []
    else
      var last := files[|files| - 1];
      FileMatches(root, files[..|files| - 1]) + (if HasPlistSuffix(last) then [Join(root, last)] else [])
  }

  /** The paths recursive mode appends over a whole walk, in walk order. */
  function WalkMatches(steps: seq<WalkStep>): seq<string>
  {
    if |steps| == 0 then []
    else
      var last := steps[|steps| - 1];
      WalkMatches(steps[..|steps| - 1]) + FileMatches(last.root, last.files)
  }

  /** Shallow mode keeps a scanned entry when it is a file with a plist name. */
  predicate KeepEntry(e: DirEntry) {
    e.isFile && HasPlistSuffix(e.name)
  }

  /** The paths shallow mode appends, in scan order. */
  function ScanMatches(entries: seq<DirEntry>): seq<string>
  {
    if |entries| == 0 then []
    else
      var last := entries[|entries| - 1];
      ScanMatches(entries[..|entries| - 1]) + (if KeepEntry(last) then [last.path] else [])
  }

  /** What iter_plist_files returns for the given listings. */
  function PlistFiles(recursive: bool, walk: seq<WalkStep>, scan: seq<DirEntry>): seq<string> {
    Sort(if recursive then WalkMatches(walk) else ScanMatches(scan))
  }

  /** iter_plist_files; `walk` and `scan` are what os.walk and os.scandir report for the directory. */
  method IterPlistFiles(recursive: bool, walk: seq<WalkStep>, scan: seq<DirEntry>) returns (plistFiles: seq<string>)
    ensures plistFiles == PlistFiles(recursive, walk, scan)
    ensures IsSorted(plistFiles)
  {
    var found: seq<string> := [];
    if recursive {
      for i := 0 to |walk|
        invariant found == WalkMatches(walk[..i])
      {
        var step := walk[i];
        for j := 0 to |step.files|
          invariant found == WalkMatches(walk[..i]) + FileMatches(step.root, step.files[..j])
        {
          var file := step.files[j];
          assert step.files[..j + 1][..j] == step.files[..j];
          if HasPlistSuffix(file) {
            found := found + [Join(step.root, file)];
          }
        }
        assert walk[..i + 1][..i] == walk[..i];
        assert step.files[..|step.files|] == step.files;
      }
      assert walk[..|walk|] == walk;
    } else {
      for i := 0 to |scan|
        invariant found == ScanMatches(scan[..i])
      {
        var entry := scan[i];
        assert scan[..i + 1][..i] == scan[..i];
        if entry.isFile && HasPlistSuffix(entry.name) {
          found := found + [entry.path];
        }
      }
      assert scan[..|scan|] == scan;
    }
    plistFiles := Sort(found);
  }

  // ---- What is selected ----

  /** Shallow mode keeps exactly the regular files with a plist name. */
  lemma {:induction false} ScanMatchesExact(entries: seq<DirEntry>, p: string)
    ensures p in ScanMatches(entries) <==> exists k :: 0 <= k < |entries| && entries[k].path == p && KeepEntry(entries[k])
    decreases |entries|
  {
    if |entries| > 0 {
      var init := entries[..|entries| - 1];
      ScanMatchesExact(init, p);
      if p in ScanMatches(entries) && p !in ScanMatches(init) {
        assert KeepEntry(entries[|entries| - 1]) && entries[|entries| - 1].path == p;
      }
      if exists k :: 0 <= k < |entries| && entries[k].path == p && KeepEntry(entries[k]) {
        var k :| 0 <= k < |entries| && entries[k].path == p && KeepEntry(entries[k]);
        if k < |entries| - 1 {
          assert init[k] == entries[k];
        }
      }
    }
  }

  /** The positions of the entries shallow mode keeps under path p. */
  function KeptAt(entries: seq<DirEntry>, p: string): set<nat> {
    set k: nat | k < |entries| && entries[k].path == p && KeepEntry(entries[k])
  }

  lemma KeptAtSnoc(entries: seq<DirEntry>, p: string)
    requires |entries| > 0
    ensures KeptAt(entries, p) ==
      KeptAt(entries[..|entries| - 1], p) +
      (if entries[|entries| - 1].path == p && KeepEntry(entries[|entries| - 1]) then {|entries| - 1} else {})
  {
    var n := |entries| - 1;
    var init := entries[..n];
    forall k: nat | k in KeptAt(entries, p) && k < n ensures k in KeptAt(init, p) {
      assert init[k] == entries[k];
    }
    forall k: nat | k in KeptAt(init, p) ensures k in KeptAt(entries, p) {
      assert init[k] == entries[k];
    }
  }

  /** Shallow mode keeps one path per kept entry, so distinct entries give distinct paths. */
  lemma {:induction false} ScanMatchesCount(entries: seq<DirEntry>, p: string)
    ensures multiset(ScanMatches(entries))[p] == |KeptAt(entries, p)|
    decreases |entries|
  {
    if |entries| == 0 {
      assert KeptAt(entries, p) == {};
    } else {
      var n := |entries| - 1;
      var init := entries[..n];
      ScanMatchesCount(init, p);
      KeptAtSnoc(entries, p);
      assert n !in KeptAt(init, p);
      var tail := if KeepEntry(entries[n]) then [entries[n].path] else [];
      assert multiset(ScanMatches(entries)) == multiset(ScanMatches(init)) + multiset(tail);
    }
  }

  /** For one walk step, recursive mode keeps exactly root/file for each file with a plist name. */
  lemma {:induction false} FileMatchesExact(root: string, files: seq<string>, p: string)
    ensures p in FileMatches(root, files) <==>
      exists j :: 0 <= j < |files| && HasPlistSuffix(files[j]) && p == Join(root, files[j])
    decreases |files|
  {
    if |files| > 0 {
      var init := files[..|files| - 1];
      FileMatchesExact(root, init, p);
      if exists j :: 0 <= j < |files| && HasPlistSuffix(files[j]) && p == Join(root, files[j]) {
        var j :| 0 <= j < |files| && HasPlistSuffix(files[j]) && p == Join(root, files[j]);
        if j < |files| - 1 {
          assert init[j] == files[j];
        }
      }
    }
  }

  /** Walk step i contributes root/file for the file at position j when that file is kept. */
  ghost predicate WalkHit(steps: seq<WalkStep>, p: string, i: int, j: int) {
    0 <= i < |steps| && 0 <= j < |steps[i].files| &&
    HasPlistSuffix(steps[i].files[j]) && p == Join(steps[i].root, steps[i].files[j])
  }

  lemma {:induction false} WalkMatchesSound(steps: seq<WalkStep>, p: string)
    requires p in WalkMatches(steps)
    ensures exists i, j :: WalkHit(steps, p, i, j)
    decreases |steps|
  {
    var n := |steps| - 1;
    var init := steps[..n];
    if p in WalkMatches(init) {
      WalkMatchesSound(init, p);
      var i, j :| WalkHit(init, p, i, j);
      assert init[i] == steps[i];
      assert WalkHit(steps, p, i, j);
    } else {
      FileMatchesExact(steps[n].root, steps[n].files, p);
      var j :| 0 <= j < |steps[n].files| && HasPlistSuffix(steps[n].files[j]) && p == Join(steps[n].root, steps[n].files[j]);
      assert WalkHit(steps, p, n, j);
    }
  }

  lemma {:induction false} WalkMatchesComplete(steps: seq<WalkStep>, p: string, i: int, j: int)
    requires WalkHit(steps, p, i, j)
    ensures p in WalkMatches(steps)
    decreases |steps|
  {
    var n := |steps| - 1;
    var init := steps[..n];
    if i < n {
      assert init[i] == steps[i];
      assert WalkHit(init, p, i, j);
      WalkMatchesComplete(init, p, i, j);
    } else {
      FileMatchesExact(steps[n].root, steps[n].files, p);
    }
  }

  /** Recursive mode keeps exactly the root/file paths of the walked files with a plist name. */
  lemma WalkMatchesExact(steps: seq<WalkStep>, p: string)
    ensures p in WalkMatches(steps) <==> exists i, j :: WalkHit(steps, p, i, j)
  {
    if p in WalkMatches(steps) {
      WalkMatchesSound(steps, p);
    }
    if exists i, j :: WalkHit(steps, p, i, j) {
      var i, j :| WalkHit(steps, p, i, j);
      WalkMatchesComplete(steps, p, i, j);
    }
  }

  /** The walk positions (i, j) at which step i's file j gives path p; i is fixed by the caller. */
  function FileHits(i: int, root: string, files: seq<string>, p: string): set<(int, int)> {
    set j | 0 <= j < |files| && HasPlistSuffix(files[j]) && p == Join(root, files[j]) :: (i, j)
  }

  lemma FileHitsSnoc(i: int, root: string, files: seq<string>, p: string)
    requires |files| > 0
    ensures var n := |files| - 1;
      FileHits(i, root, files, p) ==
        FileHits(i, root, files[..n], p) +
        (if HasPlistSuffix(files[n]) && p == Join(root, files[n]) then {(i, n)} else {})
  {
    var n := |files| - 1;
    var init := files[..n];
    forall j | 0 <= j < n ensures init[j] == files[j] {
    }
  }

  /** For one walk step, recursive mode finds a path once per file that joins to it. */
  lemma {:induction false} FileMatchesCount(i: int, root: string, files: seq<string>, p: string)
    ensures multiset(FileMatches(root, files))[p] == |FileHits(i, root, files, p)|
    decreases |files|
  {
    if |files| == 0 {
      assert FileHits(i, root, files, p) == {};
    } else {
      var n := |files| - 1;
      var init := files[..n];
      FileMatchesCount(i, root, init, p);
      FileHitsSnoc(i, root, files, p);
      assert (i, n) !in FileHits(i, root, init, p);
      var tail := if HasPlistSuffix(files[n]) then [Join(root, files[n])] else [];
      assert multiset(FileMatches(root, files)) == multiset(FileMatches(root, init)) + multiset(tail);
    }
  }

  /** Every walk position (step, file) that gives path p. */
  ghost function WalkHits(steps: seq<WalkStep>, p: string): set<(int, int)> {
    set i, j | 0 <= i < |steps| && 0 <= j < |steps[i].files| && WalkHit(steps, p, i, j) :: (i, j)
  }

  lemma WalkHitsSnoc(steps: seq<WalkStep>, p: string)
    requires |steps| > 0
    ensures var n := |steps| - 1;
      WalkHits(steps, p) == WalkHits(steps[..n], p) + FileHits(n, steps[n].root, steps[n].files, p) &&
      WalkHits(steps[..n], p) * FileHits(n, steps[n].root, steps[n].files, p) == {}
  {
    var n := |steps| - 1;
    var init := steps[..n];
    forall i | 0 <= i < n ensures init[i] == steps[i] {
    }
  }

  /** Recursive mode finds a path once per walked file with a plist name that joins to it. */
  lemma {:induction false} WalkMatchesCount(steps: seq<WalkStep>, p: string)
    ensures multiset(WalkMatches(steps))[p] == |WalkHits(steps, p)|
    decreases |steps|
  {
    if |steps| == 0 {
      assert WalkHits(steps, p) == {};
    } else {
      var n := |steps| - 1;
      var init := steps[..n];
      WalkMatchesCount(init, p);
      FileMatchesCount(n, steps[n].root, steps[n].files, p);
      WalkHitsSnoc(steps, p);
      assert multiset(WalkMatches(steps)) == multiset(WalkMatches(init)) + multiset(FileMatches(steps[n].root, steps[n].files));
    }
  }

  /**
   * iter_plist_files returns, in sorted order, each kept path as many times
   * as it was found: in shallow mode once per regular file whose name ends
   * in ".plist" in any case.
   */
  lemma ShallowSelection(scan: seq<DirEntry>, walk: seq<WalkStep>, p: string)
    ensures IsSorted(PlistFiles(false, walk, scan))
    ensures p in PlistFiles(false, walk, scan) <==>
      exists k :: 0 <= k < |scan| && scan[k].path == p && scan[k].isFile && HasPlistSuffix(scan[k].name)
    ensures multiset(PlistFiles(false, walk, scan))[p] == |KeptAt(scan, p)|
  {
    ScanMatchesExact(scan, p);
    ScanMatchesCount(scan, p);
    assert p in PlistFiles(false, walk, scan) <==> p in multiset(ScanMatches(scan));
  }

  /**
   * In recursive mode, exactly the joined root/file paths of walked files
   * with a plist name, each once per walked file that gives it.
   */
  lemma RecursiveSelection(scan: seq<DirEntry>, walk: seq<WalkStep>, p: string)
    ensures IsSorted(PlistFiles(true, walk, scan))
    ensures p in PlistFiles(true, walk, scan) <==> exists i, j :: WalkHit(walk, p, i, j)
    ensures multiset(PlistFiles(true, walk, scan))[p] == |WalkHits(walk, p)|
  {
    WalkMatchesExact(walk, p);
    WalkMatchesCount(walk, p);
    assert p in PlistFiles(true, walk, scan) <==> p in multiset(WalkMatches(walk));
  }

  /** The ".plist" test ignores case: it holds of a name exactly when its last six characters, lower-cased, are ".plist". */
  lemma PlistSuffixIgnoresCase(name: string)
    ensures HasPlistSuffix(name) <==>
      |name| >= 6 && forall k :: 0 <= k < 6 ==> LowerChar(name[|name| - 6 + k]) == ".plist"[k]
  {
    var low := Lower(name);
    if |name| >= 6 {
      if forall k :: 0 <= k < 6 ==> LowerChar(name[|name| - 6 + k]) == ".plist"[k] {
        assert low[|low| - 6..] == ".plist";
      }
      if HasPlistSuffix(name) {
        forall k | 0 <= k < 6 ensures LowerChar(name[|name| - 6 + k]) == ".plist"[k] {
          assert low[|low| - 6..][k] == low[|name| - 6 + k];
        }
      }
    }
  }
}
