/** The path handling of the scripts: the last component of a path and its extension. */
module Paths {
  import opened Base

  /** The last component of a path: everything after its last `/`. */
  function Basename(path: string): (b: string)
    ensures '/' !in b && |b| <= |path|
  {
    if path == [] || path[|path| - 1] == '/' then []
    else Basename(path[..|path| - 1]) + [path[|path| - 1]]
  }

  /** The base name is the part of the path after its last `/`, and holds no `/` itself. */
  lemma {:induction false} BasenameSuffix(path: string)
    ensures var b := Basename(path);
            && '/' !in b && |b| <= |path| && b == path[|path| - |b|..]
            && (|b| < |path| ==> path[|path| - |b| - 1] == '/')
  {
    if path != [] && path[|path| - 1] != '/' {
      var n := |path| - 1;
      BasenameSuffix(path[..n]);
      var b0 := Basename(path[..n]);
      assert path[..n][n - |b0|..] == path[n - |b0|..n];
      assert Basename(path) == b0 + [path[n]];
    }
  }

  /** A name without `/` is its own base name. */
  lemma {:induction false} BasenamePlain(name: string)
    requires '/' !in name
    ensures Basename(name) == name
  {
    if name != [] {
      var n := |name| - 1;
      assert '/' !in name[..n] by {
        forall k | 0 <= k < n ensures name[..n][k] != '/' {
          assert name[..n][k] == name[k];
        }
      }
      BasenamePlain(name[..n]);
      assert name == name[..n] + [name[n]];
    }
  }

  /** Whatever precedes the last `/` is dropped. */
  lemma {:induction false} BasenameAfterSlash(dir: string, name: string)
    requires '/' !in name
    ensures Basename(dir + "/" + name) == name
  {
    var p := dir + "/" + name;
    if name == [] {
      assert p[|p| - 1] == '/';
    } else {
      var n := |name| - 1;
      assert '/' !in name[..n] by {
        forall k | 0 <= k < n ensures name[..n][k] != '/' {
          assert name[..n][k] == name[k];
        }
      }
      BasenameAfterSlash(dir, name[..n]);
      assert p[..|p| - 1] == dir + "/" + name[..n];
      assert p[|p| - 1] == name[n];
      assert name == name[..n] + [name[n]];
    }
  }

  /** The position of the last `.` in `s`, if any. */
  function LastDot(s: string): (r: Option<nat>)
    ensures r.Some? ==> r.value < |s| && s[r.value] == '.' && forall k :: r.value < k < |s| ==> s[k] != '.'
    ensures r.None? ==> '.' !in s
  {
    if s == [] then None
    else if s[|s| - 1] == '.' then Some(|s| - 1)
    else
      var r := LastDot(s[..|s| - 1]);
      assert forall k :: 0 <= k < |s| - 1 ==> s[..|s| - 1][k] == s[k];
      r
  }

  /** Every character is a dot (so a leading run of dots is not an extension). */
  predicate AllDots(s: string) {
    forall k :: 0 <= k < |s| ==> s[k] == '.'
  }

  /**
   * `os.path.splitext(b)[0]` for a base name `b`: the part before the last dot, unless
   * nothing but dots precedes that dot, in which case `b` itself.
   */
  function StemOf(b: string): (r: string)
    ensures |r| <= |b| && r == b[..|r|]
    ensures r != b ==> b[|r|] == '.'
  {
    match LastDot(b)
    case None => b
    case Some(d) => if AllDots(b[..d]) then b else b[..d]
  }

  /** Only the last extension goes: what is cut off is empty or a dot followed by no other dot. */
  lemma StemExtension(b: string)
    ensures var r := StemOf(b);
            var ext := b[|r|..];
            && b == r + ext
            && (ext == [] || (ext[0] == '.' && '.' !in ext[1..]))
            && (ext != [] ==> !AllDots(r))
  {
    var r := StemOf(b);
    var ext := b[|r|..];
    assert b == r + ext;
    match LastDot(b)
    case None =>
    case Some(d) =>
      if !AllDots(b[..d]) {
        assert ext == b[d..];
        forall k | 0 <= k < |ext| - 1 ensures ext[1..][k] != '.' {
          assert ext[1..][k] == b[d + 1 + k];
        }
      }
  }

  lemma {:induction false} LastDotAt(stem: string, ext: string)
    requires '.' !in ext
    ensures LastDot(stem + "." + ext) == Some(|stem|)
  {
    var p := stem + "." + ext;
    if ext == [] {
      assert p[|p| - 1] == '.';
    } else {
      var n := |ext| - 1;
      assert '.' !in ext[..n] by {
        forall k | 0 <= k < n ensures ext[..n][k] != '.' {
          assert ext[..n][k] == ext[k];
        }
      }
      LastDotAt(stem, ext[..n]);
      assert p[..|p| - 1] == stem + "." + ext[..n];
      assert p[|p| - 1] == ext[n];
    }
  }

  /** A name that is not all dots loses exactly its last extension. */
  lemma StemDropsExtension(stem: string, ext: string)
    requires !AllDots(stem) && '.' !in ext
    ensures StemOf(stem + "." + ext) == stem
  {
    LastDotAt(stem, ext);
    var p := stem + "." + ext;
    assert p[..|stem|] == stem;
  }
}
