/**
 * Python's ordering of `str` values (code point by code point) and `sorted()` of a
 * set of strings, as the scripts use it for their author lists.
 */
module StringOrder {
  import opened Base
  import opened Text

  /** `a < b` on Python strings. */
  predicate Less(a: string, b: string) {
    if a == [] then b != []
    else if b == [] then false
    else a[0] < b[0] || (a[0] == b[0] && Less(a[1..], b[1..]))
  }

  lemma {:induction false} LessIrreflexive(a: string)
    ensures !Less(a, a)
  {
    if a != [] {
      LessIrreflexive(a[1..]);
    }
  }

  lemma {:induction false} LessTransitive(a: string, b: string, c: string)
    requires Less(a, b) && Less(b, c)
    ensures Less(a, c)
  {
    if a != [] && a[0] == b[0] && b[0] == c[0] {
      LessTransitive(a[1..], b[1..], c[1..]);
    }
  }

  lemma {:induction false} LessTotal(a: string, b: string)
    requires a != b
    ensures Less(a, b) || Less(b, a)
  {
    if a != [] && b != [] && a[0] == b[0] {
      assert a == [a[0]] + a[1..] && b == [b[0]] + b[1..];
      LessTotal(a[1..], b[1..]);
    }
  }

  lemma LessAsymmetric(a: string, b: string)
    requires Less(a, b)
    ensures !Less(b, a)
  {
    if Less(b, a) {
      LessTransitive(a, b, a);
      LessIrreflexive(a);
    }
  }

  /** Every element is strictly below every later one. */
  predicate StrictlySorted(s: seq<string>) {
    forall i, j :: 0 <= i < j < |s| ==> Less(s[i], s[j])
  }

  lemma StrictlySortedDistinct(s: seq<string>)
    requires StrictlySorted(s)
    ensures Distinct(s)
  {
    forall i, j | 0 <= i < j < |s| ensures s[i] != s[j] {
      if s[i] == s[j] {
        LessIrreflexive(s[i]);
      }
    }
  }

  predicate IsLeast(m: string, s: set<string>) {
    m in s && forall x :: x in s && x != m ==> Less(m, x)
  }

  lemma {:induction false} LeastExists(s: set<string>)
    requires s != {}
    ensures exists m :: IsLeast(m, s)
    decreases |s|
  {
    var x :| x in s;
    if s != {x} {
      LeastExists(s - {x});
      var m :| IsLeast(m, s - {x});
      if Less(x, m) {
        forall y | y in s && y != x ensures Less(x, y) {
          if y != m {
            LessTransitive(x, m, y);
          }
        }
        assert IsLeast(x, s);
      } else {
        LessTotal(x, m);
        assert IsLeast(m, s);
      }
    } else {
      assert IsLeast(x, s);
    }
  }

  lemma LeastUnique(m1: string, m2: string, s: set<string>)
    requires IsLeast(m1, s) && IsLeast(m2, s)
    ensures m1 == m2
  {
    if m1 != m2 {
      LessAsymmetric(m1, m2);
    }
  }

  /** The smallest string of a non-empty set. */
  function Least(s: set<string>): (m: string)
    requires s != {}
    ensures m in s
    ensures forall x :: x in s && x != m ==> Less(m, x)
  {
    LeastExists(s);
    assert forall m1, m2 :: IsLeast(m1, s) && IsLeast(m2, s) ==> m1 == m2 by {
      forall m1, m2 | IsLeast(m1, s) && IsLeast(m2, s) ensures m1 == m2 {
        LeastUnique(m1, m2, s);
      }
    }
    var m :| IsLeast(m, s);
    m
  }

  /** `sorted(s)`: the elements of `s`, ascending, each once. */
  function SortedList(s: set<string>): (r: seq<string>)
    ensures StrictlySorted(r)
    ensures Elems(r) == s && |r| == |s|
    decreases |s|
  {
    if s == {} then []
    else
      var m := Least(s);
      var rest := SortedList(s - {m});
      SortedCons(m, rest, s);
      [m] + rest
  }

  lemma SortedCons(m: string, rest: seq<string>, s: set<string>)
    requires m in s && forall x :: x in s && x != m ==> Less(m, x)
    requires StrictlySorted(rest) && Elems(rest) == s - {m} && |rest| == |s - {m}|
    ensures StrictlySorted([m] + rest)
    ensures Elems([m] + rest) == s && |[m] + rest| == |s|
  {
    var r := [m] + rest;
    forall i, j | 0 <= i < j < |r| ensures Less(r[i], r[j]) {
      if i == 0 {
        assert r[j] == rest[j - 1];
        assert rest[j - 1] in s - {m};
      } else {
        assert r[i] == rest[i - 1] && r[j] == rest[j - 1];
      }
    }
    ElemsCons(m, rest, s);
  }

  lemma ElemsCons(m: string, rest: seq<string>, s: set<string>)
    requires m in s && Elems(rest) == s - {m} && |rest| == |s - {m}|
    ensures Elems([m] + rest) == s && |[m] + rest| == |s|
  {
    assert forall x :: x in [m] + rest <==> x == m || x in rest;
    assert Elems([m] + rest) == Elems(rest) + {m};
    assert |s| == |s - {m}| + 1;
  }

  lemma SortedListDistinct(s: set<string>)
    ensures Distinct(SortedList(s))
  {
    StrictlySortedDistinct(SortedList(s));
  }

  /** `'\n'.join(sorted(s))`: the userlist files the filters write. */
  function SortedLines(s: set<string>): string {
    JoinWith(SortedList(s), '\n')
  }

  /**
   * A userlist split at newlines gives back every name once, ascending, when there is
   * a name and no name holds a newline.
   */
  lemma SortedLinesSplit(s: set<string>)
    requires s != {} && forall x :: x in s ==> '\n' !in x
    ensures SplitOn(SortedLines(s), '\n') == SortedList(s)
  {
    var xs := SortedList(s);
    forall i | 0 <= i < |xs| ensures '\n' !in xs[i] {
      assert xs[i] in Elems(xs);
    }
    SplitJoin(xs, '\n');
  }

  /** A userlist of names without whitespace reads back, by `str.split()`, as its names. */
  lemma SortedLinesTokens(s: set<string>)
    requires forall x :: x in s ==> IsWord(x)
    ensures Tokens(SortedLines(s)) == SortedList(s)
    ensures Elems(Tokens(SortedLines(s))) == s
  {
    var xs := SortedList(s);
    forall i | 0 <= i < |xs| ensures IsWord(xs[i]) {
      assert xs[i] in Elems(xs);
    }
    TokensJoin(xs, '\n');
  }
}
