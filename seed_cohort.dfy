/**
 * scripts/filter_seed_cohort.py: one pass over monthly dumps that collects the authors of
 * seed-subreddit comments and, in the same pass, writes every comment of a seed
 * subreddit and every later comment of an author already collected.
 */
module SeedCohort {
  import opened Base
  import opened Records
  import opened Text
  import opened StringOrder

  /** `--seeds` / `--bad-users`: comma split, strip, drop the empty names. */
  function NameList(arg: string): (names: set<string>)
    ensures forall x :: x in names ==> x != [] && Trimmed(x)
  {
    ParseNameList(arg, ',')
  }

  /** A list of plain names written with commas reads back as the same set. */
  lemma NameListJoin(xs: seq<string>)
    requires forall i :: 0 <= i < |xs| ==> xs[i] != [] && Trimmed(xs[i]) && ',' !in xs[i]
    ensures NameList(JoinWith(xs, ',')) == Elems(xs)
  {
    ParseJoin(xs, ',');
  }

  /** `x in S` for a value that `rec.get` may have returned as `None`. */
  predicate In(x: Option<string>, s: set<string>) {
    x.Some? && x.value in s
  }

  /** The object written for a kept comment: the input's three fields, `null` where absent. */
  datatype Out = Out(author: Option<string>, subreddit: Option<string>, created: Option<int>)

  function OutOf(r: Raw): (o: Out)
    ensures o.author == r.author && o.subreddit == r.subreddit && o.created == r.created
  {
    Out(r.author, r.subreddit, r.created)
  }

  /** The state of the scan: `authors` (which may hold `None`) and the cohort lines written. */
  datatype Scan = Scan(authors: set<Option<string>>, out: seq<Out>)

  /** One line of the scan. */
  function Step(s: Scan, l: Line, seeds: set<string>, bad: set<string>): (t: Scan)
    ensures s.authors <= t.authors
    ensures s.out <= t.out && |t.out| <= |s.out| + 1
  {
    match l.json
    case None => s
    case Some(r) =>
      if In(r.author, bad) then s
      else if In(r.subreddit, seeds) then Scan(s.authors + {r.author}, s.out + [OutOf(r)])
      else if r.author in s.authors then Scan(s.authors, s.out + [OutOf(r)])
      else s
  }

  /** The state after the lines `lines`, from an empty author set. */
  function ScanOf(lines: seq<Line>, seeds: set<string>, bad: set<string>): (s: Scan)
    ensures |s.out| <= |lines|
  {
    if lines == [] then Scan({}, [])
    else Step(ScanOf(lines[..|lines| - 1], seeds, bad), lines[|lines| - 1], seeds, bad)
  }

  /** A decoded comment in a seed subreddit by an author who is not excluded. */
  predicate SeedLine(l: Line, seeds: set<string>, bad: set<string>) {
    l.json.Some? && !In(l.json.value.author, bad) && In(l.json.value.subreddit, seeds)
  }

  /** The authors of the seed comments among `lines`. */
  function SeedAuthors(lines: seq<Line>, seeds: set<string>, bad: set<string>): set<Option<string>> {
    set i | 0 <= i < |lines| && SeedLine(lines[i], seeds, bad) :: lines[i].json.value.author
  }

  /** Whether line `l` is written after the lines whose seed authors are `known`. */
  predicate Writes(l: Line, known: set<Option<string>>, seeds: set<string>, bad: set<string>) {
    && l.json.Some? && !In(l.json.value.author, bad)
    && (In(l.json.value.subreddit, seeds) || l.json.value.author in known)
  }

  /** Undecodable lines and comments of excluded users change nothing. */
  lemma SkippedLines(s: Scan, l: Line, seeds: set<string>, bad: set<string>)
    requires l.json.None? || In(l.json.value.author, bad)
    ensures Step(s, l, seeds, bad) == s
  {
  }

  /** After every line, `authors` is the set of authors with a seed comment so far. */
  lemma {:induction false} ScanAuthors(lines: seq<Line>, seeds: set<string>, bad: set<string>)
    ensures ScanOf(lines, seeds, bad).authors == SeedAuthors(lines, seeds, bad)
  {
    if lines != [] {
      var n := |lines| - 1;
      ScanAuthors(lines[..n], seeds, bad);
      SeedAuthorsSnoc(lines, seeds, bad);
    }
  }

  lemma SeedAuthorsSnoc(lines: seq<Line>, seeds: set<string>, bad: set<string>)
    requires lines != []
    ensures var n := |lines| - 1;
            SeedAuthors(lines, seeds, bad)
            == SeedAuthors(lines[..n], seeds, bad)
               + (if SeedLine(lines[n], seeds, bad) then {lines[n].json.value.author} else {})
  {
    var n := |lines| - 1;
    assert forall i :: 0 <= i < n ==> lines[..n][i] == lines[i];
  }

  /**
   * A line is written exactly when it decodes, its author is not excluded, and it is a
   * seed comment or its author had a seed comment on an earlier line; it is written
   * with its own three fields.
   */
  lemma WrittenLines(lines: seq<Line>, l: Line, seeds: set<string>, bad: set<string>)
    ensures ScanOf(lines + [l], seeds, bad).out
         == ScanOf(lines, seeds, bad).out + (if Writes(l, SeedAuthors(lines, seeds, bad), seeds, bad) then [OutOf(l.json.value)] else [])
  {
    assert (lines + [l])[..|lines|] == lines;
    ScanAuthors(lines, seeds, bad);
  }

  /** Every written comment is by one of the collected authors. */
  lemma {:induction false} WrittenByAuthors(lines: seq<Line>, seeds: set<string>, bad: set<string>)
    ensures forall o :: o in ScanOf(lines, seeds, bad).out ==> o.author in ScanOf(lines, seeds, bad).authors
  {
    if lines != [] {
      WrittenByAuthors(lines[..|lines| - 1], seeds, bad);
    }
  }

  /**
   * What is written depends on the order of the comments: a non-seed comment before its
   * author's first seed comment is dropped, the same comment after it is kept.
   */
  lemma OrderMatters(u: string, seed: string, other: string)
    requires other != seed
    ensures var a := Line([], Some(Raw(Some(u), Some(other), Some(0), None)));
            var b := Line([], Some(Raw(Some(u), Some(seed), Some(0), None)));
            && |ScanOf([a, b], {seed}, {}).out| == 1
            && |ScanOf([b, a], {seed}, {}).out| == 2
  {
    var a := Line([], Some(Raw(Some(u), Some(other), Some(0), None)));
    var b := Line([], Some(Raw(Some(u), Some(seed), Some(0), None)));
    assert [a, b][..1] == [a] && [b, a][..1] == [b];
    assert [a][..0] == [] && [b][..0] == [];
    assert ScanOf([a], {seed}, {}) == Scan({}, []);
    assert ScanOf([b], {seed}, {}) == Scan({Some(u)}, [OutOf(b.json.value)]);
  }

  /**
   * The scan: every line of every month file in turn. `line_ct` counts every line read,
   * undecodable ones included.
   */
  method Filter(files: seq<seq<Line>>, seeds: set<string>, bad: set<string>)
    returns (authors: set<Option<string>>, out: seq<Out>, lineCt: nat)
    ensures Scan(authors, out) == ScanOf(Flatten(files), seeds, bad)
    ensures lineCt == |Flatten(files)|
  {
    authors, out, lineCt := {}, [], 0;
    for i := 0 to |files|
      invariant Scan(authors, out) == ScanOf(Flatten(files[..i]), seeds, bad)
      invariant lineCt == |Flatten(files[..i])|
    {
      ghost var before := Flatten(files[..i]);
      var lines := files[i];
      assert before + lines[..0] == before;
      for j := 0 to |lines|
        invariant Scan(authors, out) == ScanOf(before + lines[..j], seeds, bad)
        invariant lineCt == |before| + j
      {
        lineCt := lineCt + 1;
        assert (before + lines[..j + 1])[..|before| + j] == before + lines[..j];
        match lines[j].json {
          case None =>
          case Some(r) =>
            var user := r.author;
            if !In(user, bad) {
              var sub := r.subreddit;
              if In(sub, seeds) {
                authors := authors + {user};
                out := out + [Out(user, sub, r.created)];
              } else if user in authors {
                out := out + [Out(user, sub, r.created)];
              }
            }
        }
      }
      assert lines[..|lines|] == lines;
      assert files[..i + 1][..i] == files[..i];
    }
    assert files[..|files|] == files;
  }

  /** `sorted(authors)` fails on `None`, and so does `'\n'.join` of it. */
  datatype TypeError = TypeError

  /** The names among the collected authors. */
  function Names(authors: set<Option<string>>): set<string> {
    set x | x in authors && x.Some? :: x.value
  }

  /** The userlist file: the authors sorted and newline-joined, or the failure on `None`. */
  function Userlist(authors: set<Option<string>>): (r: Result<string, TypeError>)
    ensures r.Err? <==> None in authors
  {
    if None in authors then Err(TypeError) else Ok(SortedLines(Names(authors)))
  }

  /**
   * The userlist, split at newlines, is every collected author once, ascending, as long
   * as there is an author and no name holds a newline.
   */
  lemma UserlistLines(authors: set<Option<string>>)
    requires None !in authors && authors != {}
    requires forall a :: Some(a) in authors ==> '\n' !in a
    ensures SplitOn(Userlist(authors).value, '\n') == SortedList(Names(authors))
    ensures StrictlySorted(SortedList(Names(authors))) && Elems(SortedList(Names(authors))) == Names(authors)
  {
    var x :| x in authors;
    assert x.value in Names(authors);
    SortedLinesSplit(Names(authors));
  }

  /** Without `None`, the userlist has one line per collected author. */
  lemma NamesCard(authors: set<Option<string>>)
    requires None !in authors
    ensures |Names(authors)| == |authors|
  {
    forall o | o in authors ensures o in set a | a in Names(authors) :: Some(a) {
      assert o.value in Names(authors);
    }
    assert authors == set a | a in Names(authors) :: Some(a);
    SomeCard(Names(authors));
  }

  lemma {:induction false} SomeCard(s: set<string>)
    ensures |(set a | a in s :: Some(a))| == |s|
  {
    if s != {} {
      var x :| x in s;
      SomeCard(s - {x});
      assert (set a | a in s :: Some(a)) == (set a | a in s - {x} :: Some(a)) + {Some(x)};
    }
  }

  /** The script: the scan, then the userlist. */
  method Run(files: seq<seq<Line>>, seedsArg: string, badArg: string)
    returns (out: seq<Out>, userlist: Result<string, TypeError>, lineCt: nat)
    ensures var s := ScanOf(Flatten(files), NameList(seedsArg), NameList(badArg));
            && out == s.out && userlist == Userlist(s.authors)
            && s.authors == SeedAuthors(Flatten(files), NameList(seedsArg), NameList(badArg))
    ensures lineCt == |Flatten(files)|
  {
    var seeds := NameList(seedsArg);
    var bad := NameList(badArg);
    var authors;
    authors, out, lineCt := Filter(files, seeds, bad);
    ScanAuthors(Flatten(files), seeds, bad);
    if None in authors {
      userlist := Err(TypeError);
    } else {
      userlist := Ok(SortedLines(Names(authors)));
    }
  }
}
