/**
 * The parts of Python's `posixpath` that compute an output path:
 * `dirname`, `basename`, `splitext`, `join` and `relpath`, on paths that
 * are already absolute and normalised (see README).
 *
 * The functions carry no postconditions of their own; what they compute is
 * stated by the lemmas after them, which keeps each proof that unfolds
 * them small.
 */
module PosixPath {
  import opened Strings

  /** The last index below n holding c, or -1. */
  function LastIndexBelow(s: string, c: char, n: nat): (r: int)
    requires n <= |s|
    ensures -1 <= r < n
    ensures r >= 0 ==> s[r] == c
    ensures forall k :: r < k < n ==> s[k] != c
  {
    if n == 0 then -1
    else if s[n - 1] == c then n - 1
    else LastIndexBelow(s, c, n - 1)
  }

  /** str.rfind for one character: the last index holding c, or -1. */
  function RFind(s: string, c: char): (r: int)
    ensures -1 <= r < |s|
    ensures r >= 0 ==> s[r] == c
    ensures forall k :: r < k < |s| ==> s[k] != c
  {
    LastIndexBelow(s, c, |s|)
  }

  /** RFind is the one index that holds c with no c after it. */
  lemma RFindIs(s: string, c: char, m: int)
    requires -1 <= m < |s|
    requires m >= 0 ==> s[m] == c
    requires forall k :: m < k < |s| ==> s[k] != c
    ensures RFind(s, c) == m
  {
  }

  /** The last c in a + b lies in b when b has one, and in a otherwise. */
  lemma RFindAppend(a: string, b: string, c: char)
    ensures RFind(a + b, c) == if RFind(b, c) >= 0 then |a| + RFind(b, c) else RFind(a, c)
  {
    var m := if RFind(b, c) >= 0 then |a| + RFind(b, c) else RFind(a, c);
    forall k | m < k < |a + b|
      ensures (a + b)[k] != c
    {
      if k >= |a| {
        assert (a + b)[k] == b[k - |a|];
      }
    }
    RFindIs(a + b, c, m);
  }

  /** The length of s[..n] once its trailing run of c is removed. */
  function StrippedLength(s: string, c: char, n: nat): (m: nat)
    requires n <= |s|
    ensures m <= n
    ensures m == 0 || s[m - 1] != c
    ensures forall k :: m <= k < n ==> s[k] == c
  {
    if n == 0 || s[n - 1] != c then n
    else StrippedLength(s, c, n - 1)
  }

  /** str.rstrip(c) */
  function RStrip(s: string, c: char): string {
    s[..StrippedLength(s, c, |s|)]
  }

  /** os.path.basename: the text after the last '/'. */
  function Basename(p: string): string {
    p[RFind(p, '/') + 1..]
  }

  /**
   * os.path.dirname: the text up to and including the last '/', then
   * stripped of trailing '/' unless it is made of '/' only (in which case
   * rstrip would leave "").
   */
  function Dirname(p: string): string {
    var head := p[..RFind(p, '/') + 1];
    var stripped := RStrip(head, '/');
    if stripped != "" then stripped else head
  }

  /**
   * os.path.splitext: splits at the last '.' of the last component, the
   * leading dots of that component not counting (".plist" has no
   * extension).
   */
  function SplitExt(p: string): (string, string) {
    var sep, dot := RFind(p, '/'), RFind(p, '.');
    if dot > sep && exists k :: sep < k < dot && p[k] != '.' then (p[..dot], p[dot..])
    else (p, "")
  }

  /** The first half of splitext. */
  function Stem(p: string): string {
    SplitExt(p).0
  }

  /** os.path.join(a, b) */
  function Join(a: string, b: string): string {
    if |b| > 0 && b[0] == '/' then b
    else if a == "" || a[|a| - 1] == '/' then a + b
    else a + "/" + b
  }

  /**
   * os.path.relpath(path, start) for a path that lies below start: what
   * follows start and its separator. Any other path is returned unchanged.
   */
  function RelPath(path: string, start: string): string {
    var prefix := if |start| > 0 && start[|start| - 1] == '/' then start else start + "/";
    if |prefix| < |path| && path[..|prefix|] == prefix then path[|prefix|..] else path
  }

  // ---- What the functions compute ----

  /** basename is the '/'-free tail of p that follows its last '/'. */
  lemma BasenameIsLastComponent(p: string)
    ensures '/' !in Basename(p)
    ensures |Basename(p)| <= |p| && p[|p| - |Basename(p)|..] == Basename(p)
    ensures |Basename(p)| == |p| || p[|p| - |Basename(p)| - 1] == '/'
  {
    var r := Basename(p);
    var i := RFind(p, '/') + 1;
    forall k | 0 <= k < |r| ensures r[k] != '/' {
      assert r[k] == p[i + k];
    }
  }

  /** dirname is a prefix of p, empty exactly when p holds no '/'. */
  lemma DirnameIsPrefix(p: string)
    ensures |Dirname(p)| <= |p| && p[..|Dirname(p)|] == Dirname(p)
    ensures Dirname(p) == "" <==> '/' !in p
  {
    var i := RFind(p, '/');
    var head := p[..i + 1];
    var m := StrippedLength(head, '/', |head|);
    if '/' in p {
      var j :| 0 <= j < |p| && p[j] == '/';
      assert i >= j;
      assert head != "";
      if m == 0 {
        assert Dirname(p) == head;
      }
    }
  }

  /** The text of splitext's two halves is the path, and the extension has its documented shape. */
  lemma SplitExtParts(p: string)
    ensures SplitExt(p).0 + SplitExt(p).1 == p
    ensures SplitExt(p).1 != "" ==>
      SplitExt(p).1[0] == '.' && '.' !in SplitExt(p).1[1..] && '/' !in SplitExt(p).1
  {
    var sep, dot := RFind(p, '/'), RFind(p, '.');
    if dot > sep && exists k :: sep < k < dot && p[k] != '.' {
      assert p[..dot] + p[dot..] == p;
      var ext := p[dot..];
      forall k | 1 <= k < |ext| ensures ext[k] != '.' && ext[k] != '/' {
        assert ext[k] == p[dot + k];
      }
      assert ext[1..] == p[dot + 1..];
    } else {
      assert p + "" == p;
    }
  }

  /**
   * True when the last component of p has an extension: a '.' preceded,
   * within that component, by some character other than '.'.
   */
  ghost predicate HasExtension(p: string) {
    exists i, k :: RFind(p, '/') < k < i < |p| && p[i] == '.' && p[k] != '.'
  }

  /** splitext finds an extension exactly when the last component has one. */
  lemma SplitExtFindsExtension(p: string)
    ensures SplitExt(p).1 != "" <==> HasExtension(p)
  {
  }

  /** Below a directory prefix, splitext splits exactly as on the last component. */
  lemma SplitExtBelow(d: string, n: string)
    requires '/' !in n
    ensures SplitExt(d + "/" + n) == (d + "/" + SplitExt(n).0, SplitExt(n).1)
  {
    var p := d + "/" + n;
    assert p == (d + "/") + n;
    RFindAppend(d + "/", n, '/');
    RFindAppend(d + "/", n, '.');
    RFindAppend(d, "/", '/');
    RFindAppend(d, "/", '.');
    var sep, dot := RFind(p, '/'), RFind(p, '.');
    assert sep == |d|;
    var nsep, ndot := RFind(n, '/'), RFind(n, '.');
    assert nsep == -1;
    if ndot >= 0 {
      assert dot == |d| + 1 + ndot;
      assert (exists k :: sep < k < dot && p[k] != '.') <==> (exists k :: nsep < k < ndot && n[k] != '.') by {
        forall k | sep < k < dot && p[k] != '.' ensures nsep < k - |d| - 1 < ndot && n[k - |d| - 1] != '.' {
          assert p[k] == n[k - |d| - 1];
        }
        forall k | nsep < k < ndot && n[k] != '.' ensures sep < k + |d| + 1 < dot && p[k + |d| + 1] != '.' {
          assert p[k + |d| + 1] == n[k];
        }
      }
      assert p[..dot] == d + "/" + n[..ndot];
      assert p[dot..] == n[ndot..];
    } else {
      assert dot <= sep;
    }
  }

  /** The directory of d/n, for a file name n, is d. */
  lemma DirnameBelow(d: string, n: string)
    requires '/' !in n
    requires d != "" && d[|d| - 1] != '/'
    ensures Dirname(d + "/" + n) == d
  {
    var p := d + "/" + n;
    assert p == (d + "/") + n;
    RFindAppend(d + "/", n, '/');
    RFindAppend(d, "/", '/');
    var head := d + "/";
    assert p[..RFind(p, '/') + 1] == head;
    assert StrippedLength(head, '/', |head|) == |d|;
    assert head[..|d|] == d;
  }

  /** join ends with its second argument, and starts with its first unless the second is absolute. */
  lemma JoinParts(a: string, b: string)
    ensures EndsWith(Join(a, b), b)
    ensures (|b| == 0 || b[0] != '/') ==> StartsWith(Join(a, b), a)
  {
    var r := Join(a, b);
    if |b| > 0 && b[0] == '/' {
    } else if a == "" || a[|a| - 1] == '/' {
      assert r[|r| - |b|..] == b;
      assert r[..|a|] == a;
    } else {
      assert r == a + ("/" + b);
      assert r[|r| - |b|..] == b;
      assert r[..|a|] == a;
    }
  }

  /** Joining a file name to any directory leaves that file name as the basename. */
  lemma BasenameJoin(dir: string, n: string)
    requires '/' !in n
    ensures Basename(Join(dir, n)) == n
  {
    var r := Join(dir, n);
    if dir == "" || dir[|dir| - 1] == '/' {
      assert r == dir + n;
      RFindAppend(dir, n, '/');
    } else {
      assert r == (dir + "/") + n;
      RFindAppend(dir + "/", n, '/');
      RFindAppend(dir, "/", '/');
    }
  }

  /** relpath of a path below start is what follows start and its separator. */
  lemma RelPathBelow(start: string, rel: string)
    requires start != "" && start[|start| - 1] != '/'
    requires rel != ""
    ensures RelPath(start + "/" + rel, start) == rel
  {
    var p := start + "/" + rel;
    assert p[..|start| + 1] == start + "/";
    assert p[|start| + 1..] == rel;
  }
}
