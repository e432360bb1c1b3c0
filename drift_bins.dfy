/**
 * scripts/user_drift_paths.py: the same drift table as compute_user_drift_paths.py
 * without the comment threshold, plus the optional `--bins` aggregation of the
 * pre-T0 rows into time-before-T0 buckets.
 */
module DriftBins {
  import opened Base
  import opened Records
  import opened StringOrder
  import opened DriftPaths

  /** The categories of `pd.cut`, in their declared order. */
  datatype Label = UnderOneMonth | OneToTwoMonths | TwoToThreeMonths | ThreeToSixMonths
                 | SixToTwelveMonths | TwelveToTwentyFourMonths | OverTwentyFourMonths

  /** The bin edges; bucket `i` is the right-closed interval `(Edges[i], Edges[i+1]]`. */
  const Edges: seq<int> := [-1, 30, 60, 90, 180, 365, 730, 1000000000]
  const Labels: seq<Label> := [UnderOneMonth, OneToTwoMonths, TwoToThreeMonths, ThreeToSixMonths,
                               SixToTwelveMonths, TwelveToTwentyFourMonths, OverTwentyFourMonths]

  /** The text of each category as it appears in `aggregate_bins.csv`. */
  function Name(l: Label): string {
    match l
    case UnderOneMonth => "<1M"
    case OneToTwoMonths => "1-2M"
    case TwoToThreeMonths => "2-3M"
    case ThreeToSixMonths => "3-6M"
    case SixToTwelveMonths => "6-12M"
    case TwelveToTwentyFourMonths => "12-24M"
    case OverTwentyFourMonths => ">24M"
  }

  function Index(l: Label): (i: nat)
    ensures i < |Labels| && Labels[i] == l
  {
    match l
    case UnderOneMonth => 0
    case OneToTwoMonths => 1
    case TwoToThreeMonths => 2
    case ThreeToSixMonths => 3
    case SixToTwelveMonths => 4
    case TwelveToTwentyFourMonths => 5
    case OverTwentyFourMonths => 6
  }

  /** `pd.cut(..., right=True)`: the bucket of `d`, none outside `(-1, 1e9]`. */
  function Bin(d: int): (b: Option<Label>)
    ensures b.Some? <==> Edges[0] < d <= Edges[|Edges| - 1]
    ensures b.Some? ==> Edges[Index(b.value)] < d <= Edges[Index(b.value) + 1]
  {
    if d <= -1 then None
    else if d <= 30 then Some(UnderOneMonth)
    else if d <= 60 then Some(OneToTwoMonths)
    else if d <= 90 then Some(TwoToThreeMonths)
    else if d <= 180 then Some(ThreeToSixMonths)
    else if d <= 365 then Some(SixToTwelveMonths)
    else if d <= 730 then Some(TwelveToTwentyFourMonths)
    else if d <= 1000000000 then Some(OverTwentyFourMonths)
    else None
  }

  /** A value in bucket `i`'s interval gets that bucket's label, so the buckets do not overlap. */
  lemma BinOfInterval(i: nat, d: int)
    requires i + 1 < |Edges| && Edges[i] < d <= Edges[i + 1]
    ensures Bin(d) == Some(Labels[i])
  {
  }

  /** One line of `aggregate_bins.csv`; `pct_of_seed_posters` is `users / seedPosters`. */
  datatype BinRow = BinRow(bin: Label, subreddit: string, users: nat, seedPosters: nat)

  /** The rows that survive `bin.notnull() and rel_days > 0` in bucket `l`. */
  predicate InBin(r: PathRow, l: Label) {
    r.relDays > 0 && Bin(r.relDays) == Some(l)
  }

  /** The distinct authors of the group `(l, s)`: `n_users`. */
  function Users(out: seq<PathRow>, l: Label, s: string): set<string> {
    set r | r in out && InBin(r, l) && r.subreddit == s :: r.author
  }

  function BinSubs(out: seq<PathRow>, l: Label): set<string> {
    set r | r in out && InBin(r, l) :: r.subreddit
  }

  function LabelRows(out: seq<PathRow>, l: Label, subs: seq<string>, seedPosters: nat): seq<BinRow> {
    if subs == [] then []
    else [BinRow(l, subs[0], |Users(out, l, subs[0])|, seedPosters)] + LabelRows(out, l, subs[1..], seedPosters)
  }

  function TableOf(out: seq<PathRow>, labels: seq<Label>, seedPosters: nat): seq<BinRow> {
    if labels == [] then []
    else LabelRows(out, labels[0], SortedList(BinSubs(out, labels[0])), seedPosters)
         + TableOf(out, labels[1..], seedPosters)
  }

  /** `bin_df` with `rel_days` kept: observed groups ordered by bucket, then subreddit. */
  function BinTable(out: seq<PathRow>, seedPosters: nat): seq<BinRow> {
    TableOf(out, Labels, seedPosters)
  }

  /** The number of rows with key `(l, s)`. */
  function BinKeyCount(rows: seq<BinRow>, l: Label, s: string): nat {
    if rows == [] then 0
    else (if rows[0].bin == l && rows[0].subreddit == s then 1 else 0) + BinKeyCount(rows[1..], l, s)
  }

  lemma {:induction false} BinKeyCountAppend(x: seq<BinRow>, y: seq<BinRow>, l: Label, s: string)
    ensures BinKeyCount(x + y, l, s) == BinKeyCount(x, l, s) + BinKeyCount(y, l, s)
  {
    if x != [] {
      BinKeyCountAppend(x[1..], y, l, s);
      assert (x + y)[1..] == x[1..] + y;
    } else {
      assert x + y == y;
    }
  }

  lemma {:induction false} LabelRowsKeyCount(out: seq<PathRow>, b: Label, subs: seq<string>, n: nat,
                                             l: Label, s: string)
    requires Distinct(subs)
    ensures BinKeyCount(LabelRows(out, b, subs, n), l, s) == if b == l && s in subs then 1 else 0
  {
    if subs != [] {
      assert Distinct(subs[1..]);
      LabelRowsKeyCount(out, b, subs[1..], n, l, s);
      BinKeyCountAppend([BinRow(b, subs[0], |Users(out, b, subs[0])|, n)], LabelRows(out, b, subs[1..], n), l, s);
      assert subs == [subs[0]] + subs[1..];
    }
  }

  /** One bucket's rows hold each of its observed subreddits exactly once. */
  lemma BucketKeyCount(out: seq<PathRow>, b: Label, n: nat, l: Label, s: string)
    ensures BinKeyCount(LabelRows(out, b, SortedList(BinSubs(out, b)), n), l, s)
         == if b == l && s in BinSubs(out, l) then 1 else 0
  {
    var subs := SortedList(BinSubs(out, b));
    SortedListDistinct(BinSubs(out, b));
    LabelRowsKeyCount(out, b, subs, n, l, s);
    assert s in subs <==> s in Elems(subs);
  }

  /**
   * The table over `labels` holds each observed `(l, s)` once per occurrence of `l` in
   * `labels`, and nothing else.
   */
  lemma {:induction false} TableOfKeyCount(out: seq<PathRow>, labels: seq<Label>, n: nat, l: Label, s: string)
    ensures BinKeyCount(TableOf(out, labels, n), l, s) == if s in BinSubs(out, l) then multiset(labels)[l] else 0
  {
    if labels != [] {
      var b, rest := labels[0], labels[1..];
      var here := LabelRows(out, b, SortedList(BinSubs(out, b)), n);
      var x, y := BinKeyCount(here, l, s), BinKeyCount(TableOf(out, rest, n), l, s);
      assert BinKeyCount(TableOf(out, labels, n), l, s) == x + y by {
        BinKeyCountAppend(here, TableOf(out, rest, n), l, s);
      }
      assert x == if b == l && s in BinSubs(out, l) then 1 else 0 by {
        BucketKeyCount(out, b, n, l, s);
      }
      assert y == if s in BinSubs(out, l) then multiset(rest)[l] else 0 by {
        TableOfKeyCount(out, rest, n, l, s);
      }
      assert multiset(labels)[l] == (if b == l then 1 else 0) + multiset(rest)[l] by {
        assert labels == [b] + rest;
      }
    }
  }

  /**
   * Each `(bucket, subreddit)` that some pre-T0 row with a positive `rel_days`
   * falls into has exactly one line; no other line exists.
   */
  lemma BinTableExact(out: seq<PathRow>, n: nat, l: Label, s: string)
    ensures BinKeyCount(BinTable(out, n), l, s) == if s in BinSubs(out, l) then 1 else 0
  {
    TableOfKeyCount(out, Labels, n, l, s);
    assert Labels[Index(l)] == l;
    assert Distinct(Labels);
    DistinctMultiset(Labels);
  }

  lemma {:induction false} LabelRowsMember(out: seq<PathRow>, l: Label, subs: seq<string>, n: nat, r: BinRow)
    requires r in LabelRows(out, l, subs, n)
    ensures r == BinRow(l, r.subreddit, |Users(out, l, r.subreddit)|, n) && r.subreddit in subs
  {
    if r != LabelRows(out, l, subs, n)[0] {
      LabelRowsMember(out, l, subs[1..], n, r);
    }
  }

  lemma {:induction false} TableOfMember(out: seq<PathRow>, labels: seq<Label>, n: nat, r: BinRow)
    requires r in TableOf(out, labels, n)
    ensures r == BinRow(r.bin, r.subreddit, |Users(out, r.bin, r.subreddit)|, n)
    ensures r.subreddit in BinSubs(out, r.bin)
  {
    var subs := SortedList(BinSubs(out, labels[0]));
    if r in LabelRows(out, labels[0], subs, n) {
      LabelRowsMember(out, labels[0], subs, n, r);
    } else {
      TableOfMember(out, labels[1..], n, r);
    }
  }

  /**
   * Every line counts the distinct authors of its group, which is never empty, and
   * carries the number of seed posters as the denominator of its percentage.
   */
  lemma BinRowFacts(out: seq<PathRow>, n: nat, r: BinRow)
    requires r in BinTable(out, n)
    ensures r.users == |Users(out, r.bin, r.subreddit)| >= 1
    ensures r.seedPosters == n
    ensures exists p :: p in out && InBin(p, r.bin) && p.subreddit == r.subreddit
  {
    TableOfMember(out, Labels, n, r);
    var p :| p in out && InBin(p, r.bin) && p.subreddit == r.subreddit;
    assert p.author in Users(out, r.bin, r.subreddit);
  }

  /**
   * On the drift table of a run, every user counted in a bucket is a seed poster, so
   * `n_users` never exceeds `len(seed_df)` and `pct_of_seed_posters` is at most 1.
   */
  lemma BinUsersBound(es: seq<Event>, seeds: set<string>, l: Label, s: string)
    ensures Users(Output(es, seeds, 1), l, s) <= SeedPosters(es, seeds)
    ensures |Users(Output(es, seeds, 1), l, s)| <= |SeedTable(es, seeds)|
  {
    var out := Output(es, seeds, 1);
    OutputAuthors(es, seeds, 1);
    assert Users(out, l, s) <= SeedPosters(es, seeds);
    SubsetCard(Users(out, l, s), SeedTable(es, seeds).Keys);
  }

  /** The T0 rows have `rel_days` 0 and so never reach a bucket. */
  lemma T0RowsNotBinned(es: seq<Event>, seeds: set<string>, l: Label, s: string)
    ensures Users(Output(es, seeds, 1), l, s)
            == set r | r in PreRows(es, seeds, 1) && InBin(r, l) && r.subreddit == s :: r.author
  {
    var t0s := SeedTable(es, seeds);
    forall r | r in T0Rows(t0s) ensures r.relDays == 0 {
      var i :| 0 <= i < |T0Rows(t0s)| && T0Rows(t0s)[i] == r;
    }
  }

  /** Without `--min-comments` every non-empty pre-T0 group has exactly one row. */
  lemma UnfilteredRows(es: seq<Event>, seeds: set<string>, a: string, s: string)
    ensures KeyCount(PreRows(es, seeds, 1), a, s) == if Count(PreOf(es, seeds), a, s) >= 1 then 1 else 0
  {
    PreRowsExact(es, seeds, 1, a, s);
  }

  /** What the `--bins` step produces after `user_paths.csv` is written. */
  datatype BinStep = NotRequested | Crashed(undefinedName: string) | Table(rows: seq<BinRow>)

  datatype Outcome = Outcome(paths: seq<PathRow>, bins: BinStep)

  /** The names the query `bin.notnull() and rel_days > 0` looks up, in the order it reads them. */
  const QueryNames: seq<string> := ["bin", "rel_days"]

  /** The columns of `out` put beside `bin` in the frame given to `query`, as written. */
  const WrittenColumns: seq<string> := ["author", "subreddit"]

  /** The same with `rel_days` kept, as the query needs. */
  const IntendedColumns: seq<string> := ["author", "subreddit", "rel_days"]

  /**
   * `DataFrame.query` resolves a bare name only among the frame's columns: the first
   * name it cannot resolve raises `UndefinedVariableError`.
   */
  function FirstUndefined(names: seq<string>, columns: set<string>): (u: Option<string>)
    ensures u.None? <==> forall i :: 0 <= i < |names| ==> names[i] in columns
    ensures u.Some? ==> exists i :: 0 <= i < |names| && names[i] == u.value && u.value !in columns
                                    && forall j :: 0 <= j < i ==> names[j] in columns
  {
    if names == [] then None
    else if names[0] !in columns then Some(names[0])
    else
      var u := FirstUndefined(names[1..], columns);
      assert forall i :: 1 <= i < |names| ==> names[i] == names[1..][i - 1];
      u
  }

  /**
   * The `--bins` step on the frame made of the columns `kept` of `out` and the
   * `bin` column: it runs only on request and for a non-empty `out`; the query
   * raises on the first name that is not a column, and otherwise the groups of the
   * rows with positive `rel_days` are counted.
   */
  function BinStepOf(out: seq<PathRow>, seedPosters: nat, wantBins: bool, kept: seq<string>): (b: BinStep)
    ensures b.NotRequested? <==> !wantBins || out == []
    ensures b.Crashed? <==> wantBins && out != []
                            && exists i :: 0 <= i < |QueryNames| && QueryNames[i] !in Elems(kept) + {"bin"}
    ensures b.Crashed? ==> b.undefinedName in QueryNames && b.undefinedName !in Elems(kept) + {"bin"}
    ensures b.Table? ==> b.rows == BinTable(out, seedPosters)
  {
    if !wantBins || out == [] then NotRequested
    else
      match FirstUndefined(QueryNames, Elems(kept) + {"bin"})
      case Some(name) => Crashed(name)
      case None => Table(BinTable(out, seedPosters))
  }

  /** The step as written: the frame given to `query` holds only `author`, `subreddit` and `bin`. */
  function BinsAsWritten(out: seq<PathRow>, seedPosters: nat, wantBins: bool): (b: BinStep)
    ensures wantBins && out != [] ==> b == Crashed("rel_days")
    ensures !wantBins || out == [] ==> b == NotRequested
  {
    var cols := Elems(WrittenColumns) + {"bin"};
    assert "bin" in cols && "rel_days" !in cols;
    assert FirstUndefined(QueryNames, cols) == Some("rel_days");
    BinStepOf(out, seedPosters, wantBins, WrittenColumns)
  }

  /** The step with `rel_days` kept beside the bucket, as the query evidently intends. */
  function BinsCorrected(out: seq<PathRow>, seedPosters: nat, wantBins: bool): (b: BinStep)
    ensures wantBins && out != [] ==> b == Table(BinTable(out, seedPosters))
    ensures !wantBins || out == [] ==> b == NotRequested
  {
    var cols := Elems(IntendedColumns) + {"bin"};
    assert "bin" in cols && "rel_days" in cols;
    BinStepOf(out, seedPosters, wantBins, IntendedColumns)
  }

  /** The script after the records are loaded, as written: the drift table, then the `--bins` step. */
  function Drift(es: seq<Event>, seeds: set<string>, wantBins: bool): (r: Result<Outcome, Failure>)
    ensures r.Err? <==> SeedTable(es, seeds) == map[]
    ensures r.Ok? ==> r.value.paths == Output(es, seeds, 1)
                      && r.value.bins == BinsAsWritten(r.value.paths, |SeedTable(es, seeds)|, wantBins)
  {
    match Paths(es, seeds, 1)
    case Err(f) => Err(f)
    case Ok(out) => Ok(Outcome(out, BinsAsWritten(out, |SeedTable(es, seeds)|, wantBins)))
  }

  /** The same with the corrected `--bins` step. */
  function DriftCorrected(es: seq<Event>, seeds: set<string>, wantBins: bool): (r: Result<Outcome, Failure>)
    ensures r.Err? <==> SeedTable(es, seeds) == map[]
    ensures r.Ok? ==> r.value.paths == Output(es, seeds, 1)
                      && r.value.bins == BinsCorrected(r.value.paths, |SeedTable(es, seeds)|, wantBins)
  {
    match Paths(es, seeds, 1)
    case Err(f) => Err(f)
    case Ok(out) => Ok(Outcome(out, BinsCorrected(out, |SeedTable(es, seeds)|, wantBins)))
  }

  /**
   * As written, every run with `--bins` that finds a seed poster writes the drift
   * table and then stops on the undefined name `rel_days`.
   */
  lemma BinsAsWrittenAlwaysCrash(es: seq<Event>, seeds: set<string>)
    ensures Drift(es, seeds, true).Ok? ==> Drift(es, seeds, true).value.bins == Crashed("rel_days")
    ensures Drift(es, seeds, true).Ok? <==> SeedPosters(es, seeds) != {}
  {
    var t0s := SeedTable(es, seeds);
    if t0s != map[] {
      var out := Output(es, seeds, 1);
      assert |T0Rows(t0s)| == |t0s| > 0;
      assert out != [];
    }
  }

  /** The corrected step keeps the drift table and adds the bucket table of it. */
  lemma BinsCorrectedProduceTable(es: seq<Event>, seeds: set<string>)
    ensures DriftCorrected(es, seeds, true).Ok? <==> Drift(es, seeds, true).Ok?
    ensures DriftCorrected(es, seeds, true).Ok? ==>
              DriftCorrected(es, seeds, true).value.paths == Drift(es, seeds, true).value.paths
              && DriftCorrected(es, seeds, true).value.bins
                 == Table(BinTable(Output(es, seeds, 1), |SeedTable(es, seeds)|))
  {
    var t0s := SeedTable(es, seeds);
    if t0s != map[] {
      assert |T0Rows(t0s)| == |t0s| > 0;
    }
  }

  /** The script end to end: seed list, input files, drift table, then the optional buckets. */
  method Run(seedArg: string, seedFile: Option<string>, files: seq<seq<Line>>, wantBins: bool)
    returns (r: Result<Outcome, Failure>)
    ensures SeedSet(seedArg, seedFile) == {} ==> r == Err(EmptySeedList)
    ensures SeedSet(seedArg, seedFile) != {} && files == [] ==> r == Err(NoInputFiles)
    ensures SeedSet(seedArg, seedFile) != {} && files != [] ==>
              r == Drift(Events(Flatten(files)), SeedSet(seedArg, seedFile), wantBins)
  {
    var paths := DriftPaths.Run(seedArg, seedFile, files, 1);
    match paths
    case Err(f) =>
      r := Err(f);
    case Ok(out) =>
      var es := Events(Flatten(files));
      var seeds := SeedSet(seedArg, seedFile);
      r := Ok(Outcome(out, BinsAsWritten(out, |SeedTable(es, seeds)|, wantBins)));
  }
}
