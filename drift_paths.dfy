/**
 * scripts/compute_user_drift_paths.py: for every author who commented in a seed
 * subreddit, the subreddits they used before their first seed comment (T0), one
 * row per subreddit, followed by one row for T0 itself.
 */
module DriftPaths {
  import opened Base
  import opened Records
  import opened Text
  import opened StringOrder

  const SecondsPerDay: int := 86400

  /** The conditions under which the script exits without writing output. */
  datatype Failure = EmptySeedList | NoInputFiles | NoSeedPosters

  /** An author's reference point: the time and the seed subreddit of their earliest seed comment. */
  datatype T0 = T0(ts: int, sub: string)

  /** One row of user_paths.csv. */
  datatype PathRow = PathRow(author: string, subreddit: string, firstTs: int, count: nat, relDays: int)

  /**
   * The seed argument: when it names a file (`file` holds its text), the stripped
   * non-empty lines of that file; otherwise the stripped non-empty pieces of a comma list.
   */
  function SeedSet(arg: string, file: Option<string>): (seeds: set<string>)
    ensures forall x :: x in seeds ==> x != [] && Trimmed(x)
  {
    match file
    case Some(text) => ParseNameList(text, '\n')
    case None => ParseNameList(arg, ',')
  }

  predicate IsSeedOf(e: Event, seeds: set<string>, a: string) {
    e.author == a && e.subreddit in seeds
  }

  /**
   * The earliest seed comment of `a`. Among several at the same second the first one
   * in input order is taken, as pandas' sort on two columns is stable.
   */
  function FirstSeed(es: seq<Event>, seeds: set<string>, a: string): (t: Option<T0>)
    ensures t.None? <==> forall i :: 0 <= i < |es| ==> !IsSeedOf(es[i], seeds, a)
    ensures t.Some? ==> t.value.sub in seeds && Event(a, t.value.sub, t.value.ts) in es
    ensures t.Some? ==> forall i :: 0 <= i < |es| && IsSeedOf(es[i], seeds, a) ==> t.value.ts <= es[i].ts
  {
    if es == [] then None
    else
      var rest := FirstSeed(es[1..], seeds, a);
      assert forall i :: 1 <= i < |es| ==> es[i] == es[1..][i - 1];
      if IsSeedOf(es[0], seeds, a) && (rest.None? || es[0].ts <= rest.value.ts)
      then Some(T0(es[0].ts, es[0].subreddit))
      else rest
  }

  /** The authors with at least one seed comment. */
  function SeedPosters(es: seq<Event>, seeds: set<string>): set<string> {
    set e | e in es && e.subreddit in seeds :: e.author
  }

  /** `seed_df`: T0 of every seed poster, the earliest of their seed comments. */
  function SeedTable(es: seq<Event>, seeds: set<string>): (t0s: map<string, T0>)
    ensures t0s.Keys == SeedPosters(es, seeds)
    ensures forall a :: a in t0s ==> t0s[a].sub in seeds && Event(a, t0s[a].sub, t0s[a].ts) in es
    ensures forall a, i :: a in t0s && 0 <= i < |es| && IsSeedOf(es[i], seeds, a) ==> t0s[a].ts <= es[i].ts
  {
    map a | a in SeedPosters(es, seeds) :: FirstSeed(es, seeds, a).value
  }

  predicate BeforeT0(e: Event, t0s: map<string, T0>) {
    e.author in t0s && e.ts < t0s[e.author].ts
  }

  /** `pre_df`: the comments of seed posters made strictly before their T0, in input order. */
  function PreEvents(es: seq<Event>, t0s: map<string, T0>): (pre: seq<Event>)
    ensures forall i :: 0 <= i < |pre| ==> BeforeT0(pre[i], t0s)
  {
    if es == [] then []
    else (if BeforeT0(es[0], t0s) then [es[0]] else []) + PreEvents(es[1..], t0s)
  }

  lemma {:induction false} PreEventsMember(es: seq<Event>, t0s: map<string, T0>, e: Event)
    ensures e in PreEvents(es, t0s) <==> e in es && BeforeT0(e, t0s)
  {
    if es != [] {
      PreEventsMember(es[1..], t0s, e);
      assert es == [es[0]] + es[1..];
    }
  }

  function PreOf(es: seq<Event>, seeds: set<string>): seq<Event> {
    PreEvents(es, SeedTable(es, seeds))
  }

  predicate InGroup(e: Event, a: string, s: string) {
    e.author == a && e.subreddit == s
  }

  /** The size of the group `(a, s)`. */
  function Count(pre: seq<Event>, a: string, s: string): nat {
    if pre == [] then 0 else (if InGroup(pre[0], a, s) then 1 else 0) + Count(pre[1..], a, s)
  }

  lemma {:induction false} CountPositive(pre: seq<Event>, a: string, s: string)
    ensures Count(pre, a, s) > 0 <==> exists e :: e in pre && InGroup(e, a, s)
  {
    if pre != [] {
      CountPositive(pre[1..], a, s);
      assert pre == [pre[0]] + pre[1..];
    }
  }

  function Min(x: int, y: int): int {
    if x <= y then x else y
  }

  /** `first_ts_here`: the earliest timestamp of the group `(a, s)`. */
  function MinTs(pre: seq<Event>, a: string, s: string): (m: int)
    requires Count(pre, a, s) > 0
    ensures exists e :: e in pre && InGroup(e, a, s) && e.ts == m
    ensures forall e :: e in pre && InGroup(e, a, s) ==> m <= e.ts
  {
    var rest := pre[1..];
    assert pre == [pre[0]] + rest;
    if InGroup(pre[0], a, s) then
      if Count(rest, a, s) > 0 then Min(pre[0].ts, MinTs(rest, a, s))
      else CountPositive(rest, a, s); pre[0].ts
    else MinTs(rest, a, s)
  }

  /** The authors that have at least one pre-T0 comment. */
  function GroupAuthors(pre: seq<Event>): set<string> {
    set e | e in pre :: e.author
  }

  /** The subreddits in which `a` commented before T0. */
  function GroupSubs(pre: seq<Event>, a: string): set<string> {
    set e | e in pre && e.author == a :: e.subreddit
  }

  lemma GroupSubsCount(pre: seq<Event>, a: string)
    ensures forall s :: s in GroupSubs(pre, a) <==> Count(pre, a, s) > 0
  {
    forall s ensures s in GroupSubs(pre, a) <==> Count(pre, a, s) > 0 {
      CountPositive(pre, a, s);
      if Count(pre, a, s) > 0 {
        var e :| e in pre && InGroup(e, a, s);
        assert s in GroupSubs(pre, a);
      }
    }
  }

  /** `rel_days`: the whole days from `first` to `t0`, rounded down. */
  function RelDays(t0: int, first: int): (d: int)
    ensures d * SecondsPerDay <= t0 - first < (d + 1) * SecondsPerDay
  {
    (t0 - first) / SecondsPerDay
  }

  /** `rel_days` counts the complete days in the gap, and is never negative for a comment before T0. */
  lemma RelDaysBounds(t0: int, first: int)
    requires first < t0
    ensures RelDays(t0, first) >= 0
    ensures RelDays(t0, first) * SecondsPerDay <= t0 - first < (RelDays(t0, first) + 1) * SecondsPerDay
  {
  }

  /** The `--min-comments` filter, applied only when the threshold exceeds 1. */
  predicate Keep(count: nat, minComments: int) {
    !(minComments > 1) || count >= minComments
  }

  function GroupRow(pre: seq<Event>, t0s: map<string, T0>, a: string, s: string): PathRow
    requires a in t0s && Count(pre, a, s) > 0
  {
    var first := MinTs(pre, a, s);
    PathRow(a, s, first, Count(pre, a, s), RelDays(t0s[a].ts, first))
  }

  /** The rows of one author, one per subreddit of `subs` that passes the filter, in that order. */
  function AuthorRows(pre: seq<Event>, t0s: map<string, T0>, a: string, subs: seq<string>, minComments: int): seq<PathRow>
    requires a in t0s
    requires forall i :: 0 <= i < |subs| ==> Count(pre, a, subs[i]) > 0
  {
    if subs == [] then []
    else
      (if Keep(Count(pre, a, subs[0]), minComments) then [GroupRow(pre, t0s, a, subs[0])] else [])
      + AuthorRows(pre, t0s, a, subs[1..], minComments)
  }

  /** The grouped rows of the given authors, each author's subreddits in ascending order. */
  function PreRowsOf(pre: seq<Event>, t0s: map<string, T0>, authors: seq<string>, minComments: int): seq<PathRow>
    requires forall i :: 0 <= i < |authors| ==> authors[i] in t0s
  {
    if authors == [] then []
    else
      var a := authors[0];
      GroupSubsCount(pre, a);
      AuthorRows(pre, t0s, a, SortedList(GroupSubs(pre, a)), minComments)
      + PreRowsOf(pre, t0s, authors[1..], minComments)
  }

  lemma GroupAuthorsPosters(pre: seq<Event>, t0s: map<string, T0>)
    requires forall i :: 0 <= i < |pre| ==> BeforeT0(pre[i], t0s)
    ensures GroupAuthors(pre) <= t0s.Keys
  {
  }

  /** `agg` after the filter: the pre-T0 groups ordered by author, then subreddit. */
  function PreRows(es: seq<Event>, seeds: set<string>, minComments: int): seq<PathRow> {
    var t0s := SeedTable(es, seeds);
    var pre := PreEvents(es, t0s);
    GroupAuthorsPosters(pre, t0s);
    PreRowsOf(pre, t0s, SortedList(GroupAuthors(pre)), minComments)
  }

  function T0Row(t0s: map<string, T0>, a: string): PathRow
    requires a in t0s
  {
    PathRow(a, t0s[a].sub, t0s[a].ts, 1, 0)
  }

  /** `t0_rows`: one row per seed poster, ordered by author. */
  function T0Rows(t0s: map<string, T0>): (rows: seq<PathRow>)
    ensures |rows| == |t0s|
    ensures forall i :: 0 <= i < |rows| ==> rows[i].author in t0s && rows[i] == T0Row(t0s, rows[i].author)
    ensures forall i, j :: 0 <= i < j < |rows| ==> rows[i].author != rows[j].author
    ensures forall a :: a in t0s ==> exists i :: 0 <= i < |rows| && rows[i].author == a
  {
    var authors := SortedList(t0s.Keys);
    AuthorsInTable(t0s, authors);
    var rows := seq(|authors|, i requires 0 <= i < |authors| => T0Row(t0s, authors[i]));
    T0RowsFacts(t0s, authors, rows);
    rows
  }

  lemma AuthorsInTable(t0s: map<string, T0>, authors: seq<string>)
    requires authors == SortedList(t0s.Keys)
    ensures forall i :: 0 <= i < |authors| ==> authors[i] in t0s
  {
    forall i | 0 <= i < |authors| ensures authors[i] in t0s {
      assert authors[i] in Elems(authors);
    }
  }

  lemma T0RowsFacts(t0s: map<string, T0>, authors: seq<string>, rows: seq<PathRow>)
    requires authors == SortedList(t0s.Keys) && forall i :: 0 <= i < |authors| ==> authors[i] in t0s
    requires |rows| == |authors| && forall i :: 0 <= i < |rows| ==> rows[i] == T0Row(t0s, authors[i])
    ensures |rows| == |t0s|
    ensures forall i :: 0 <= i < |rows| ==> rows[i].author in t0s && rows[i] == T0Row(t0s, rows[i].author)
    ensures forall i, j :: 0 <= i < j < |rows| ==> rows[i].author != rows[j].author
    ensures forall a :: a in t0s ==> exists i :: 0 <= i < |rows| && rows[i].author == a
  {
    SortedListDistinct(t0s.Keys);
    assert |t0s.Keys| == |t0s|;
    forall i | 0 <= i < |rows| ensures rows[i].author == authors[i] && rows[i].author in t0s {
      assert rows[i] == T0Row(t0s, authors[i]);
    }
    forall i, j | 0 <= i < j < |rows| ensures rows[i].author != rows[j].author {
      assert authors[i] != authors[j];
    }
    forall a | a in t0s ensures exists i :: 0 <= i < |rows| && rows[i].author == a {
      assert a in Elems(authors);
      var i :| 0 <= i < |authors| && authors[i] == a;
      assert rows[i].author == a;
    }
  }

  /** `out`: the filtered pre-T0 rows followed by the T0 rows. */
  function Output(es: seq<Event>, seeds: set<string>, minComments: int): (rows: seq<PathRow>)
    ensures |rows| >= |SeedTable(es, seeds)|
    ensures forall i :: |rows| - |SeedTable(es, seeds)| <= i < |rows| ==>
              rows[i].author in SeedTable(es, seeds) && rows[i].count == 1 && rows[i].relDays == 0
  {
    T0Tail(PreRows(es, seeds, minComments), SeedTable(es, seeds));
    PreRows(es, seeds, minComments) + T0Rows(SeedTable(es, seeds))
  }

  lemma T0Tail(pre: seq<PathRow>, t0s: map<string, T0>)
    ensures forall i :: |pre| <= i < |pre| + |t0s| ==>
              (pre + T0Rows(t0s))[i].author in t0s && (pre + T0Rows(t0s))[i].count == 1
              && (pre + T0Rows(t0s))[i].relDays == 0
  {
    var t0 := T0Rows(t0s);
    forall i | |pre| <= i < |pre| + |t0s|
      ensures (pre + t0)[i].author in t0s && (pre + t0)[i].count == 1 && (pre + t0)[i].relDays == 0
    {
      assert (pre + t0)[i] == t0[i - |pre|];
    }
  }

  /** Everything after the records are loaded: the exit when nobody posted in a seed subreddit, else the table. */
  function Paths(es: seq<Event>, seeds: set<string>, minComments: int): (r: Result<seq<PathRow>, Failure>)
    ensures r.Err? <==> SeedPosters(es, seeds) == {}
    ensures r.Err? ==> r.error == NoSeedPosters
    ensures r.Ok? ==> r.value == Output(es, seeds, minComments) && r.value != []
  {
    var t0s := SeedTable(es, seeds);
    assert t0s == map[] <==> t0s.Keys == {};
    if t0s == map[] then Err(NoSeedPosters) else Ok(Output(es, seeds, minComments))
  }

  /**
   * The whole script: the seed list is checked before any input is read, then the
   * file list, then the records are loaded and the table is built.
   */
  method Run(seedArg: string, seedFile: Option<string>, files: seq<seq<Line>>, minComments: int)
    returns (r: Result<seq<PathRow>, Failure>)
    ensures SeedSet(seedArg, seedFile) == {} ==> r == Err(EmptySeedList)
    ensures SeedSet(seedArg, seedFile) != {} && files == [] ==> r == Err(NoInputFiles)
    ensures SeedSet(seedArg, seedFile) != {} && files != [] ==>
              r == Paths(Events(Flatten(files)), SeedSet(seedArg, seedFile), minComments)
  {
    var seeds := SeedSet(seedArg, seedFile);
    if seeds == {} {
      return Err(EmptySeedList);
    }
    if files == [] {
      return Err(NoInputFiles);
    }
    var records := LoadRecords(files);
    r := Paths(records, seeds, minComments);
  }

  // ---------------------------------------------------------------------------
  // Properties of the table

  /** The number of rows with key `(a, s)`. */
  function KeyCount(rows: seq<PathRow>, a: string, s: string): nat {
    if rows == [] then 0
    else (if rows[0].author == a && rows[0].subreddit == s then 1 else 0) + KeyCount(rows[1..], a, s)
  }

  lemma {:induction false} KeyCountAppend(x: seq<PathRow>, y: seq<PathRow>, a: string, s: string)
    ensures KeyCount(x + y, a, s) == KeyCount(x, a, s) + KeyCount(y, a, s)
  {
    if x != [] {
      KeyCountAppend(x[1..], y, a, s);
      assert (x + y)[1..] == x[1..] + y;
    } else {
      assert x + y == y;
    }
  }

  lemma {:induction false} AuthorRowsKeyCount(pre: seq<Event>, t0s: map<string, T0>, b: string, subs: seq<string>,
                                              minComments: int, a: string, s: string)
    requires b in t0s
    requires forall i :: 0 <= i < |subs| ==> Count(pre, b, subs[i]) > 0
    requires Distinct(subs)
    ensures KeyCount(AuthorRows(pre, t0s, b, subs, minComments), a, s)
            == if b == a && s in subs && Keep(Count(pre, a, s), minComments) then 1 else 0
  {
    if subs != [] {
      var head := if Keep(Count(pre, b, subs[0]), minComments) then [GroupRow(pre, t0s, b, subs[0])] else [];
      assert Distinct(subs[1..]);
      AuthorRowsKeyCount(pre, t0s, b, subs[1..], minComments, a, s);
      KeyCountAppend(head, AuthorRows(pre, t0s, b, subs[1..], minComments), a, s);
      assert subs == [subs[0]] + subs[1..];
    }
  }

  lemma {:induction false} PreRowsOfKeyCount(pre: seq<Event>, t0s: map<string, T0>, authors: seq<string>,
                                             minComments: int, a: string, s: string)
    requires forall i :: 0 <= i < |authors| ==> authors[i] in t0s
    requires Distinct(authors)
    ensures KeyCount(PreRowsOf(pre, t0s, authors, minComments), a, s)
            == if a in authors && s in GroupSubs(pre, a) && Keep(Count(pre, a, s), minComments) then 1 else 0
  {
    if authors != [] {
      var b := authors[0];
      var subs := SortedList(GroupSubs(pre, b));
      GroupSubsCount(pre, b);
      SortedListDistinct(GroupSubs(pre, b));
      AuthorRowsKeyCount(pre, t0s, b, subs, minComments, a, s);
      assert Distinct(authors[1..]);
      PreRowsOfKeyCount(pre, t0s, authors[1..], minComments, a, s);
      KeyCountAppend(AuthorRows(pre, t0s, b, subs, minComments), PreRowsOf(pre, t0s, authors[1..], minComments), a, s);
      assert authors == [b] + authors[1..];
      assert s in subs <==> s in GroupSubs(pre, b);
    }
  }

  /**
   * Each `(author, subreddit)` group of pre-T0 comments gives exactly one row when
   * its size reaches the threshold and 1, and no row otherwise; no other row exists.
   * With a threshold of 1 or less every group is kept.
   */
  lemma PreRowsExact(es: seq<Event>, seeds: set<string>, minComments: int, a: string, s: string)
    ensures KeyCount(PreRows(es, seeds, minComments), a, s)
            == if Count(PreOf(es, seeds), a, s) >= 1 && Count(PreOf(es, seeds), a, s) >= minComments then 1 else 0
  {
    var t0s := SeedTable(es, seeds);
    var pre := PreEvents(es, t0s);
    GroupAuthorsPosters(pre, t0s);
    var authors := SortedList(GroupAuthors(pre));
    SortedListDistinct(GroupAuthors(pre));
    PreRowsOfKeyCount(pre, t0s, authors, minComments, a, s);
    GroupSubsCount(pre, a);
    if s in GroupSubs(pre, a) {
      var e :| e in pre && e.author == a && e.subreddit == s;
      assert a in GroupAuthors(pre);
    }
  }

  lemma {:induction false} AuthorRowsMember(pre: seq<Event>, t0s: map<string, T0>, a: string, subs: seq<string>,
                                            minComments: int, r: PathRow)
    requires a in t0s
    requires forall i :: 0 <= i < |subs| ==> Count(pre, a, subs[i]) > 0
    requires r in AuthorRows(pre, t0s, a, subs, minComments)
    ensures exists i :: 0 <= i < |subs| && Keep(Count(pre, a, subs[i]), minComments) && r == GroupRow(pre, t0s, a, subs[i])
  {
    var head := if Keep(Count(pre, a, subs[0]), minComments) then [GroupRow(pre, t0s, a, subs[0])] else [];
    if r !in head {
      AuthorRowsMember(pre, t0s, a, subs[1..], minComments, r);
      var i :| 0 <= i < |subs[1..]| && Keep(Count(pre, a, subs[1..][i]), minComments)
               && r == GroupRow(pre, t0s, a, subs[1..][i]);
      assert subs[1..][i] == subs[i + 1];
    }
  }

  lemma {:induction false} PreRowsOfMember(pre: seq<Event>, t0s: map<string, T0>, authors: seq<string>,
                                           minComments: int, r: PathRow)
    requires forall i :: 0 <= i < |authors| ==> authors[i] in t0s
    requires r in PreRowsOf(pre, t0s, authors, minComments)
    ensures r.author in t0s && Count(pre, r.author, r.subreddit) > 0 && Keep(r.count, minComments)
    ensures r == GroupRow(pre, t0s, r.author, r.subreddit)
  {
    var b := authors[0];
    GroupSubsCount(pre, b);
    var subs := SortedList(GroupSubs(pre, b));
    if r in AuthorRows(pre, t0s, b, subs, minComments) {
      AuthorRowsMember(pre, t0s, b, subs, minComments, r);
    } else {
      PreRowsOfMember(pre, t0s, authors[1..], minComments, r);
    }
  }

  /**
   * What every pre-T0 row says: its author is a seed poster, its subreddit is not a
   * seed subreddit, `first_ts_here` is the earliest of the group and lies strictly
   * before T0, `comment_count` is the group's size (at least 1, and at least the
   * threshold when one is applied), and `rel_days` is the whole days between the two.
   */
  lemma PreRowFacts(es: seq<Event>, seeds: set<string>, minComments: int, r: PathRow)
    requires r in PreRows(es, seeds, minComments)
    ensures r.author in SeedTable(es, seeds)
    ensures r.subreddit !in seeds
    ensures r.count == Count(PreOf(es, seeds), r.author, r.subreddit) >= 1
    ensures minComments > 1 ==> r.count >= minComments
    ensures r.firstTs < SeedTable(es, seeds)[r.author].ts
    ensures Event(r.author, r.subreddit, r.firstTs) in es
    ensures forall e :: (e in es && e.author == r.author && e.subreddit == r.subreddit
                         && e.ts < SeedTable(es, seeds)[r.author].ts) ==> r.firstTs <= e.ts
    ensures r.relDays == RelDays(SeedTable(es, seeds)[r.author].ts, r.firstTs) >= 0
  {
    var t0s := SeedTable(es, seeds);
    var pre := PreEvents(es, t0s);
    GroupAuthorsPosters(pre, t0s);
    PreRowsOfMember(pre, t0s, SortedList(GroupAuthors(pre)), minComments, r);
    var a, s := r.author, r.subreddit;
    var e :| e in pre && InGroup(e, a, s) && e.ts == r.firstTs;
    PreEventsMember(es, t0s, e);
    assert BeforeT0(e, t0s);
    forall e' | e' in es && e'.author == a && e'.subreddit == s && e'.ts < t0s[a].ts
      ensures r.firstTs <= e'.ts
    {
      PreEventsMember(es, t0s, e');
    }
    PreNotSeed(es, seeds, e);
  }

  /** A comment made before its author's T0 is never in a seed subreddit: T0 is the earliest seed comment. */
  lemma PreNotSeed(es: seq<Event>, seeds: set<string>, e: Event)
    requires e in es && BeforeT0(e, SeedTable(es, seeds))
    ensures e.subreddit !in seeds
  {
    var t0s := SeedTable(es, seeds);
    var i :| 0 <= i < |es| && es[i] == e;
    assert t0s[e.author].ts <= es[i].ts || !IsSeedOf(es[i], seeds, e.author);
  }

  /** Every seed poster has exactly one T0 row: their earliest seed comment, with count 1 and rel_days 0. */
  lemma T0RowsExact(es: seq<Event>, seeds: set<string>, a: string)
    requires a in SeedPosters(es, seeds)
    ensures exists i :: 0 <= i < |T0Rows(SeedTable(es, seeds))|
                        && T0Rows(SeedTable(es, seeds))[i] == PathRow(a, SeedTable(es, seeds)[a].sub, SeedTable(es, seeds)[a].ts, 1, 0)
    ensures forall i, j :: 0 <= i < j < |T0Rows(SeedTable(es, seeds))| ==>
              T0Rows(SeedTable(es, seeds))[i].author != T0Rows(SeedTable(es, seeds))[j].author
  {
    var rows := T0Rows(SeedTable(es, seeds));
    var i :| 0 <= i < |rows| && rows[i].author == a;
    assert rows[i] == T0Row(SeedTable(es, seeds), a);
  }

  /**
   * The authors of the table are exactly the seed posters: every seed poster appears,
   * and an author without a seed comment contributes no row.
   */
  lemma OutputAuthors(es: seq<Event>, seeds: set<string>, minComments: int)
    ensures forall r :: r in Output(es, seeds, minComments) ==> r.author in SeedPosters(es, seeds)
    ensures forall a :: a in SeedPosters(es, seeds) ==> exists r :: r in Output(es, seeds, minComments) && r.author == a
  {
    var out := Output(es, seeds, minComments);
    var rows := T0Rows(SeedTable(es, seeds));
    forall r | r in out ensures r.author in SeedPosters(es, seeds) {
      if r in PreRows(es, seeds, minComments) {
        PreRowFacts(es, seeds, minComments, r);
      }
    }
    forall a | a in SeedPosters(es, seeds) ensures exists r :: r in out && r.author == a {
      var i :| 0 <= i < |rows| && rows[i].author == a;
      assert rows[i] in out;
    }
  }

  lemma {:induction false} KeyCountMember(rows: seq<PathRow>, a: string, s: string)
    requires KeyCount(rows, a, s) > 0
    ensures exists r :: r in rows && r.author == a && r.subreddit == s
  {
    if !(rows[0].author == a && rows[0].subreddit == s) {
      KeyCountMember(rows[1..], a, s);
    }
  }

  /** A group that passes the threshold has a row. */
  lemma PreRowExists(es: seq<Event>, seeds: set<string>, minComments: int, a: string, s: string)
    requires Count(PreOf(es, seeds), a, s) >= 1 && Count(PreOf(es, seeds), a, s) >= minComments
    ensures exists r :: r in PreRows(es, seeds, minComments) && r.author == a && r.subreddit == s
  {
    PreRowsExact(es, seeds, minComments, a, s);
    KeyCountMember(PreRows(es, seeds, minComments), a, s);
  }

  lemma RelDaysZero(t0: int, first: int)
    requires 0 <= t0 - first < SecondsPerDay
    ensures RelDays(t0, first) == 0
  {
  }

  /** The row of a group starts at the group's earliest comment. */
  lemma PreRowStartsAtEarliest(es: seq<Event>, seeds: set<string>, minComments: int, r: PathRow, e: Event)
    requires r in PreRows(es, seeds, minComments)
    requires e in es && BeforeT0(e, SeedTable(es, seeds)) && InGroup(e, r.author, r.subreddit)
    requires forall e' :: e' in es && InGroup(e', r.author, r.subreddit) ==> e.ts <= e'.ts
    ensures r.firstTs == e.ts
  {
    PreRowFacts(es, seeds, minComments, r);
    var first := Event(r.author, r.subreddit, r.firstTs);
    assert first in es && InGroup(first, r.author, r.subreddit);
  }

  /**
   * When an author's earliest comment in a subreddit falls less than a day before their T0,
   * that subreddit's pre-T0 row has `rel_days` 0, the same value as the T0 row itself.
   */
  lemma SameDayPreRow(es: seq<Event>, seeds: set<string>, minComments: int, e: Event)
    requires e in es && BeforeT0(e, SeedTable(es, seeds))
    requires SeedTable(es, seeds)[e.author].ts - e.ts < SecondsPerDay
    requires forall e' :: e' in es && InGroup(e', e.author, e.subreddit) ==> e.ts <= e'.ts
    requires Count(PreOf(es, seeds), e.author, e.subreddit) >= minComments
    ensures exists r :: r in PreRows(es, seeds, minComments)
                        && r.author == e.author && r.subreddit == e.subreddit && r.relDays == 0
  {
    var t0s := SeedTable(es, seeds);
    PreEventsMember(es, t0s, e);
    CountPositive(PreOf(es, seeds), e.author, e.subreddit);
    assert e in PreOf(es, seeds) && InGroup(e, e.author, e.subreddit);
    PreRowExists(es, seeds, minComments, e.author, e.subreddit);
    var r :| r in PreRows(es, seeds, minComments) && r.author == e.author && r.subreddit == e.subreddit;
    PreRowStartsAtEarliest(es, seeds, minComments, r, e);
    PreRowFacts(es, seeds, minComments, r);
    RelDaysZero(t0s[r.author].ts, r.firstTs);
  }
}
