/**
 * scripts/build_userlists.py: the authors of one cohort file become a userlist file
 * (sorted, one name per line), and that set is merged with the names of existing
 * userlist files into one sorted, duplicate-free list.
 */
module Userlists {
  import opened Base
  import opened Records
  import opened Text
  import opened StringOrder

  // ---------------------------------------------------------------------------
  // 1) The authors of the cohort file

  /** The `author` value of a decoded line that has that key. */
  predicate HasAuthor(l: Line) {
    l.json.Some? && l.json.value.author.Some?
  }

  /** `users_current` after the lines `ls`. */
  function Authors(ls: seq<Line>): set<string> {
    if ls == [] then {}
    else
      var l := ls[|ls| - 1];
      Authors(ls[..|ls| - 1]) + if HasAuthor(l) then {l.json.value.author.value} else {}
  }

  /** A name is collected exactly when some decoded line carries it as `author`. */
  lemma {:induction false} AuthorsMembers(ls: seq<Line>, u: string)
    ensures u in Authors(ls) <==> exists i :: 0 <= i < |ls| && HasAuthor(ls[i]) && ls[i].json.value.author.value == u
  {
    if ls != [] {
      var n := |ls| - 1;
      AuthorsMembers(ls[..n], u);
      assert forall i :: 0 <= i < n ==> ls[..n][i] == ls[i];
    }
  }

  /** Lines that do not decode, or have no `author` key, add nothing. */
  lemma SkippedLine(ls: seq<Line>, l: Line)
    requires !HasAuthor(l)
    ensures Authors(ls + [l]) == Authors(ls)
  {
    assert (ls + [l])[..|ls|] == ls;
  }

  /** The first loop: every line of the cohort file in turn. */
  method CollectAuthors(lines: seq<Line>) returns (users: set<string>)
    ensures users == Authors(lines)
  {
    users := {};
    for i := 0 to |lines|
      invariant users == Authors(lines[..i])
    {
      assert lines[..i + 1][..i] == lines[..i];
      match lines[i].json {
        case None =>
        case Some(obj) =>
          if obj.author.Some? {
            users := users + {obj.author.value};
          }
      }
    }
    assert lines[..|lines|] == lines;
  }

  // ---------------------------------------------------------------------------
  // Writing a list: `for u in sorted(s): out.write(u + "\n")`

  /** The write loop produces each name followed by a newline, in the given order. */
  method WriteLines(xs: seq<string>) returns (text: string)
    ensures text == JoinTerminated(xs, '\n')
  {
    text := [];
    for k := 0 to |xs|
      invariant text == JoinTerminated(xs[..k], '\n')
    {
      assert xs[..k + 1] == xs[..k] + [xs[k]];
      JoinTerminatedAppend(xs[..k], [xs[k]], '\n');
      text := text + xs[k] + "\n";
    }
    assert xs[..|xs|] == xs;
  }

  /** The file written for a set of names: sorted, one per line, each line terminated. */
  function ListFile(s: set<string>): string {
    JoinTerminated(SortedList(s), '\n')
  }

  /** The file's lines are the names in ascending order, each once, then the empty rest after the last newline. */
  lemma ListFileLines(s: set<string>)
    requires forall x :: x in s ==> '\n' !in x
    ensures SplitOn(ListFile(s), '\n') == SortedList(s) + [[]]
    ensures StrictlySorted(SortedList(s)) && Distinct(SortedList(s)) && Elems(SortedList(s)) == s
  {
    var xs := SortedList(s);
    forall i | 0 <= i < |xs + [[]]| ensures '\n' !in (xs + [[]])[i] {
      if i < |xs| {
        assert xs[i] in Elems(xs);
      }
    }
    JoinTerminatedIsJoin(xs, '\n');
    SplitJoin(xs + [[]], '\n');
    SortedListDistinct(s);
  }

  // ---------------------------------------------------------------------------
  // 2) The merge with the existing lists

  /** A name the list files can hold unchanged: non-empty, not padded, no newline. */
  predicate ListName(x: string) {
    x != [] && Trimmed(x) && '\n' !in x
  }

  /** The names of one existing file: its lines, stripped, the empty ones dropped. */
  function FileNames(text: string): (names: set<string>)
    ensures forall x :: x in names ==> x != [] && Trimmed(x)
  {
    ParseNameList(text, '\n')
  }

  /** `all_users` after `users_current` and the files `files`. */
  function AllUsers(current: set<string>, files: seq<string>): set<string> {
    if files == [] then current else AllUsers(current, files[..|files| - 1]) + FileNames(files[|files| - 1])
  }

  /** The merged set is the current cohort's names together with every name of every existing file. */
  lemma {:induction false} AllUsersMembers(current: set<string>, files: seq<string>, u: string)
    ensures u in AllUsers(current, files) <==> u in current || exists k :: 0 <= k < |files| && u in FileNames(files[k])
  {
    if files != [] {
      var n := |files| - 1;
      var init := files[..n];
      AllUsersMembers(current, init, u);
      var last := FileNames(files[n]);
      assert AllUsers(current, files) == AllUsers(current, init) + last;
      if u in last {
        assert 0 <= n < |files| && u in FileNames(files[n]);
      } else if u in AllUsers(current, files) && u !in current {
        var k :| 0 <= k < n && u in FileNames(init[k]);
        assert init[k] == files[k];
      } else if u !in AllUsers(current, files) {
        forall k | 0 <= k < |files| ensures u !in FileNames(files[k]) {
          if k < n {
            assert init[k] == files[k];
          }
        }
      }
    }
  }

  /** `users_current` is kept whole. */
  lemma {:induction false} CurrentKept(current: set<string>, files: seq<string>)
    ensures current <= AllUsers(current, files)
  {
    if files != [] {
      CurrentKept(current, files[..|files| - 1]);
    }
  }

  /** Stripping a line without a newline leaves none. */
  lemma StripFree(p: string)
    requires '\n' !in p
    ensures '\n' !in Strip(p)
  {
    var l := StripLeft(p);
    assert l == p[|p| - |l|..];
    assert '\n' !in l;
    var r := StripRight(l);
    assert r == l[..|r|];
    assert Strip(p) == r;
  }

  /** Every name read from a file can be written back unchanged. */
  lemma FileNamesAreListNames(text: string)
    ensures forall x :: x in FileNames(text) ==> ListName(x)
  {
    SplitPiecesFree(text, '\n');
    forall x | x in FileNames(text) ensures '\n' !in x {
      var p :| p in SplitOn(text, '\n') && Strip(p) != [] && Strip(p) == x;
      StripFree(p);
    }
  }

  lemma {:induction false} AllUsersAreListNames(current: set<string>, files: seq<string>)
    requires forall x :: x in current ==> ListName(x)
    ensures forall x :: x in AllUsers(current, files) ==> ListName(x)
  {
    if files != [] {
      AllUsersAreListNames(current, files[..|files| - 1]);
      FileNamesAreListNames(files[|files| - 1]);
    }
  }

  /** A list file read back as an existing file gives its names. */
  lemma ListFileRoundTrip(s: set<string>)
    requires forall x :: x in s ==> ListName(x)
    ensures FileNames(ListFile(s)) == s
  {
    var xs := SortedList(s);
    forall i | 0 <= i < |xs| ensures ListName(xs[i]) {
      assert xs[i] in Elems(xs);
    }
    ParseTerminated(xs, '\n');
  }

  /**
   * Feeding the merged file back in as one more existing list leaves the merged set as it
   * was, as long as the cohort's names are themselves plain list names.
   */
  lemma MergeIdempotent(current: set<string>, files: seq<string>)
    requires forall x :: x in current ==> ListName(x)
    ensures AllUsers(current, files + [ListFile(AllUsers(current, files))]) == AllUsers(current, files)
  {
    var all := AllUsers(current, files);
    AllUsersAreListNames(current, files);
    ListFileRoundTrip(all);
    assert (files + [ListFile(all)])[..|files|] == files;
  }

  /** The inner loop over one existing file: each line stripped, the non-empty ones added. */
  method AddFile(before: set<string>, text: string) returns (all: set<string>)
    ensures all == before + FileNames(text)
  {
    all := before;
    var lns := SplitOn(text, '\n');
    for j := 0 to |lns|
      invariant all == before + Kept(lns[..j])
    {
      var ln := Strip(lns[j]);
      KeptStep(lns, j);
      if ln != [] {
        all := all + {ln};
      }
    }
    assert lns[..|lns|] == lns;
  }

  /** The second loop: every existing file in turn. */
  method MergeExisting(current: set<string>, files: seq<string>) returns (all: set<string>)
    ensures all == AllUsers(current, files)
  {
    all := current;
    for i := 0 to |files|
      invariant all == AllUsers(current, files[..i])
    {
      all := AddFile(all, files[i]);
      assert files[..i + 1][..i] == files[..i];
    }
    assert files[..|files|] == files;
  }

  // ---------------------------------------------------------------------------
  // The script

  /** The two files written and the two sets behind them. */
  datatype Lists = Lists(current: set<string>, thisTxt: string, all: set<string>, merged: string)

  /**
   * The script: the cohort's authors and their file, then the merge with the existing
   * files (glob patterns already expanded) and the merged file.
   */
  method Run(cohort: seq<Line>, existing: seq<string>) returns (r: Lists)
    ensures r.current == Authors(cohort) && r.thisTxt == ListFile(r.current)
    ensures r.all == AllUsers(r.current, existing) && r.current <= r.all
    ensures r.merged == ListFile(r.all)
  {
    var current := CollectAuthors(cohort);
    var thisTxt := WriteLines(SortedList(current));
    var all := MergeExisting(current, existing);
    CurrentKept(current, existing);
    var merged := WriteLines(SortedList(all));
    r := Lists(current, thisTxt, all, merged);
  }
}
