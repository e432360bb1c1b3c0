/**
 * The string handling the scripts share: Python's `str.strip()`, `str.split(sep)`,
 * `str.split()` and `sep.join(...)`, and the name-list reader built from them.
 */
module Text {
  import opened Base

  /** The characters for which Python's `str.isspace()` holds. */
  predicate IsSpace(c: char) {
    c == ' ' || ('\t' <= c <= '\r') || ('\U{1c}' <= c <= '\U{1f}') || c == '\U{85}' || c == '\U{a0}'
    || c == '\U{1680}' || ('\U{2000}' <= c <= '\U{200a}') || c == '\U{2028}' || c == '\U{2029}'
    || c == '\U{202f}' || c == '\U{205f}' || c == '\U{3000}'
  }

  /** Neither end is whitespace. */
  predicate Trimmed(s: string) {
    s == [] || (!IsSpace(s[0]) && !IsSpace(s[|s| - 1]))
  }

  /** A non-empty run of non-whitespace characters. */
  predicate IsWord(w: string) {
    w != [] && forall k :: 0 <= k < |w| ==> !IsSpace(w[k])
  }

  /** `s.lstrip()`: drops the leading whitespace and nothing else. */
  function StripLeft(s: string): (r: string)
    ensures |r| <= |s| && r == s[|s| - |r|..]
    ensures r == [] || !IsSpace(r[0])
    ensures forall i :: 0 <= i < |s| - |r| ==> IsSpace(s[i])
  {
    if s != [] && IsSpace(s[0]) then StripLeft(s[1..]) else s
  }

  /** `s.rstrip()`: drops the trailing whitespace and nothing else. */
  function StripRight(s: string): (r: string)
    ensures |r| <= |s| && r == s[..|r|]
    ensures r == [] || !IsSpace(r[|r| - 1])
    ensures forall i :: |r| <= i < |s| ==> IsSpace(s[i])
  {
    if s != [] && IsSpace(s[|s| - 1]) then StripRight(s[..|s| - 1]) else s
  }

  /** `s.strip()`. */
  function Strip(s: string): (r: string)
    ensures Trimmed(r) && |r| <= |s|
  {
    StripRight(StripLeft(s))
  }

  /** A string without whitespace at either end is its own strip, so stripping twice is stripping once. */
  lemma StripTrimmed(s: string)
    requires Trimmed(s)
    ensures Strip(s) == s
  {
  }

  /** `s.split(c)`: the pieces between occurrences of `c`, empty pieces included. */
  function SplitOn(s: string, c: char): (parts: seq<string>)
    ensures |parts| >= 1
    decreases |s|
  {
    if s == [] then [[]]
    else
      var rest := SplitOn(s[1..], c);
      if s[0] == c then [[]] + rest else [[s[0]] + rest[0]] + rest[1..]
  }

  /** `c.join(xs)`. */
  function JoinWith(xs: seq<string>, c: char): string {
    if |xs| == 0 then []
    else if |xs| == 1 then xs[0]
    else xs[0] + [c] + JoinWith(xs[1..], c)
  }

  /** Each string followed by `c`, as `for u in xs: out.write(u + "\n")` writes them. */
  function JoinTerminated(xs: seq<string>, c: char): string {
    if xs == [] then [] else xs[0] + [c] + JoinTerminated(xs[1..], c)
  }

  /** No piece of a split contains the separator. */
  lemma {:induction false} SplitPiecesFree(s: string, c: char)
    ensures forall i :: 0 <= i < |SplitOn(s, c)| ==> c !in SplitOn(s, c)[i]
    decreases |s|
  {
    if s != [] {
      SplitPiecesFree(s[1..], c);
    }
  }

  /** Joining the pieces of a split restores the string. */
  lemma {:induction false} JoinSplit(s: string, c: char)
    ensures JoinWith(SplitOn(s, c), c) == s
    decreases |s|
  {
    if s != [] {
      var rest := SplitOn(s[1..], c);
      JoinSplit(s[1..], c);
      if s[0] == c {
        assert SplitOn(s, c) == [[]] + rest;
        assert s == [c] + s[1..];
      } else if |rest| == 1 {
        assert SplitOn(s, c) == [[s[0]] + rest[0]];
        assert s == [s[0]] + s[1..];
      } else {
        var parts := SplitOn(s, c);
        assert parts == [[s[0]] + rest[0]] + rest[1..];
        assert parts[1..] == rest[1..];
        assert JoinWith(rest, c) == rest[0] + [c] + JoinWith(rest[1..], c);
        assert s == [s[0]] + s[1..];
      }
    }
  }

  lemma {:induction false} SplitFree(x: string, c: char)
    requires c !in x
    ensures SplitOn(x, c) == [x]
  {
    if x != [] {
      SplitFree(x[1..], c);
      assert x == [x[0]] + x[1..];
    }
  }

  lemma {:induction false} SplitCons(x: string, rest: string, c: char)
    requires c !in x
    ensures SplitOn(x + [c] + rest, c) == [x] + SplitOn(rest, c)
  {
    if x == [] {
      assert x + [c] + rest == [c] + rest;
      assert ([c] + rest)[1..] == rest;
    } else {
      SplitCons(x[1..], rest, c);
      var s := x + [c] + rest;
      assert s[1..] == x[1..] + [c] + rest;
      assert x == [x[0]] + x[1..];
    }
  }

  /** Splitting a join of separator-free strings gives them back. */
  lemma {:induction false} SplitJoin(xs: seq<string>, c: char)
    requires xs != []
    requires forall i :: 0 <= i < |xs| ==> c !in xs[i]
    ensures SplitOn(JoinWith(xs, c), c) == xs
  {
    if |xs| == 1 {
      SplitFree(xs[0], c);
    } else {
      SplitJoin(xs[1..], c);
      SplitCons(xs[0], JoinWith(xs[1..], c), c);
      assert xs == [xs[0]] + xs[1..];
    }
  }

  lemma {:induction false} JoinTerminatedAppend(a: seq<string>, b: seq<string>, c: char)
    ensures JoinTerminated(a + b, c) == JoinTerminated(a, c) + JoinTerminated(b, c)
  {
    if a != [] {
      JoinTerminatedAppend(a[1..], b, c);
      assert (a + b)[1..] == a[1..] + b;
    } else {
      assert a + b == b;
    }
  }

  /** Writing each name followed by the separator is joining them with one empty name appended. */
  lemma {:induction false} JoinTerminatedIsJoin(xs: seq<string>, c: char)
    ensures JoinTerminated(xs, c) == JoinWith(xs + [[]], c)
  {
    if xs != [] {
      JoinTerminatedIsJoin(xs[1..], c);
      assert (xs + [[]])[1..] == xs[1..] + [[]];
    }
  }

  /**
   * `{x.strip() for x in s.split(c) if x.strip()}`: the seed and bad-user lists
   * (with `c == ','`) and the one-name-per-line files (with `c == '\n'`).
   */
  function ParseNameList(s: string, c: char): (names: set<string>)
    ensures forall x :: x in names ==> x != [] && Trimmed(x)
  {
    Kept(SplitOn(s, c))
  }

  /** The stripped non-empty pieces among `ps`. */
  function Kept(ps: seq<string>): set<string> {
    set p | p in ps && Strip(p) != [] :: Strip(p)
  }

  /** One more piece adds its stripped form, if that is not empty. */
  lemma KeptStep(ps: seq<string>, j: nat)
    requires j < |ps|
    ensures Kept(ps[..j + 1]) == Kept(ps[..j]) + if Strip(ps[j]) != [] then {Strip(ps[j])} else {}
  {
    assert forall q :: q in ps[..j + 1] <==> q in ps[..j] || q == ps[j];
  }

  /** A list of names written with a separator reads back as the same set. */
  lemma ParseJoin(xs: seq<string>, c: char)
    requires forall i :: 0 <= i < |xs| ==> xs[i] != [] && Trimmed(xs[i]) && c !in xs[i]
    ensures ParseNameList(JoinWith(xs, c), c) == Elems(xs)
  {
    if xs == [] {
      assert SplitOn([], c) == [[]];
    } else {
      SplitJoin(xs, c);
      forall x | x in xs ensures Strip(x) == x {
        StripTrimmed(x);
      }
    }
  }

  /** The same holds when every name is followed by the separator, as in the files the scripts write. */
  lemma ParseTerminated(xs: seq<string>, c: char)
    requires forall i :: 0 <= i < |xs| ==> xs[i] != [] && Trimmed(xs[i]) && c !in xs[i]
    ensures ParseNameList(JoinTerminated(xs, c), c) == Elems(xs)
  {
    JoinTerminatedIsJoin(xs, c);
    SplitJoin(xs + [[]], c);
    forall x | x in xs ensures Strip(x) == x {
      StripTrimmed(x);
    }
    assert Elems(xs + [[]]) == Elems(xs) + {[]};
  }

  /** The length of the word that starts `s`. */
  function WordLen(s: string): (n: nat)
    requires s != [] && !IsSpace(s[0])
    ensures 1 <= n <= |s|
    ensures forall k :: 0 <= k < n ==> !IsSpace(s[k])
    ensures n < |s| ==> IsSpace(s[n])
  {
    if |s| == 1 || IsSpace(s[1]) then 1 else 1 + WordLen(s[1..])
  }

  /** `s.split()`: the maximal runs of non-whitespace characters, in order. */
  function Tokens(s: string): (ts: seq<string>)
    ensures forall i :: 0 <= i < |ts| ==> IsWord(ts[i])
    decreases |s|
  {
    if s == [] then []
    else if IsSpace(s[0]) then Tokens(s[1..])
    else
      var n := WordLen(s);
      [s[..n]] + Tokens(s[n..])
  }

  lemma {:induction false} WordLenOfWord(x: string, rest: string)
    requires IsWord(x) && (rest == [] || IsSpace(rest[0]))
    ensures WordLen(x + rest) == |x|
  {
    if |x| > 1 {
      WordLenOfWord(x[1..], rest);
      assert (x + rest)[1..] == x[1..] + rest;
    }
  }

  lemma TokensWordThen(x: string, rest: string)
    requires IsWord(x) && (rest == [] || IsSpace(rest[0]))
    ensures Tokens(x + rest) == [x] + Tokens(rest)
  {
    WordLenOfWord(x, rest);
    assert (x + rest)[..|x|] == x;
    assert (x + rest)[|x|..] == rest;
  }

  /** Words joined by any whitespace character split back into the same words. */
  lemma {:induction false} TokensJoin(xs: seq<string>, c: char)
    requires IsSpace(c)
    requires forall i :: 0 <= i < |xs| ==> IsWord(xs[i])
    ensures Tokens(JoinWith(xs, c)) == xs
  {
    if |xs| == 1 {
      TokensWordThen(xs[0], []);
      assert xs[0] + [] == xs[0];
    } else if |xs| > 1 {
      TokensJoin(xs[1..], c);
      var rest := JoinWith(xs[1..], c);
      assert xs[0] + [c] + rest == xs[0] + ([c] + rest);
      TokensWordThen(xs[0], [c] + rest);
      assert ([c] + rest)[1..] == rest;
      assert xs == [xs[0]] + xs[1..];
    }
  }
}
