/**
 * scripts/compute_cohort_stats.py: the comments of one or more cohort files, tagged with
 * the cohort's name and the month of each comment, counted per cohort and subreddit
 * (comments and distinct authors), overall and per month.
 */
module CohortStats {
  import opened Base
  import opened Records
  import opened StringOrder
  import opened Paths

  /** The cohort a file stands for: its base name without the last extension. */
  function CohortName(path: string): (c: string)
    ensures '/' !in c && |c| <= |path|
  {
    var b := Basename(path);
    var c := StemOf(b);
    assert forall k :: 0 <= k < |c| ==> c[k] == b[k];
    c
  }

  /**
   * A cohort file `dir/stem.ext` is the cohort `stem`, whatever the directory, when
   * the extension has no dot and the stem is not made only of dots.
   */
  lemma CohortNameOfFile(dir: string, stem: string, ext: string)
    requires '/' !in stem && '/' !in ext && '.' !in ext && !AllDots(stem)
    ensures CohortName(dir + "/" + stem + "." + ext) == stem
  {
    var name := stem + "." + ext;
    assert '/' !in name by {
      forall k | 0 <= k < |name| ensures name[k] != '/' {
        if k < |stem| { assert name[k] == stem[k]; }
        else if k > |stem| { assert name[k] == ext[k - |stem| - 1]; }
      }
    }
    assert dir + "/" + stem + "." + ext == dir + "/" + name;
    BasenameAfterSlash(dir, name);
    StemDropsExtension(stem, ext);
  }

  // ---------------------------------------------------------------------------
  // The read loop

  /** One entry of `all_records`. */
  datatype Rec = Rec(cohort: string, month: string, subreddit: string, author: string)

  /** A cohort file: its path and its decoded lines. */
  datatype File = File(path: string, lines: seq<Line>)

  /** The entry for a usable comment of cohort `c`; `month` maps a timestamp to its `YYYY-MM` period. */
  function ToRec(c: string, e: Event, month: int -> string): Rec {
    Rec(c, month(e.ts), e.subreddit, e.author)
  }

  /** The entries of the lines `ls` of cohort `c`. */
  function FileRecs(c: string, ls: seq<Line>, month: int -> string): (rs: seq<Rec>)
    ensures |rs| <= |ls|
  {
    if ls == [] then []
    else
      var rest := FileRecs(c, ls[..|ls| - 1], month);
      match AsEvent(ls[|ls| - 1])
      case Some(e) => rest + [ToRec(c, e, month)]
      case None => rest
  }

  /** `all_records` after the files `files`. */
  function AllRecs(files: seq<File>, month: int -> string): seq<Rec> {
    if files == [] then []
    else
      var f := files[|files| - 1];
      AllRecs(files[..|files| - 1], month) + FileRecs(CohortName(f.path), f.lines, month)
  }

  /** The entries of a file are exactly those of its usable lines, tagged with the file's cohort. */
  lemma {:induction false} FileRecsMembers(c: string, ls: seq<Line>, month: int -> string, r: Rec)
    ensures r in FileRecs(c, ls, month) <==>
              exists j :: 0 <= j < |ls| && AsEvent(ls[j]).Some? && r == ToRec(c, AsEvent(ls[j]).value, month)
  {
    if ls != [] {
      var n := |ls| - 1;
      FileRecsMembers(c, ls[..n], month, r);
      assert forall j :: 0 <= j < n ==> ls[..n][j] == ls[j];
    }
  }

  /** A file yields no entry exactly when none of its lines is a usable comment. */
  lemma {:induction false} FileNoRecs(c: string, ls: seq<Line>, month: int -> string)
    ensures FileRecs(c, ls, month) == [] <==> forall j :: 0 <= j < |ls| ==> AsEvent(ls[j]).None?
  {
    if ls != [] {
      var n := |ls| - 1;
      FileNoRecs(c, ls[..n], month);
      assert forall j :: 0 <= j < n ==> ls[..n][j] == ls[j];
    }
  }

  /** No entry at all exactly when no line of any file is a usable comment. */
  lemma {:induction false} NoRecords(files: seq<File>, month: int -> string)
    ensures AllRecs(files, month) == [] <==>
              forall i, j :: 0 <= i < |files| && 0 <= j < |files[i].lines| ==> AsEvent(files[i].lines[j]).None?
  {
    if files != [] {
      var n := |files| - 1;
      var f := files[n];
      var init := files[..n];
      NoRecords(init, month);
      var own := FileRecs(CohortName(f.path), f.lines, month);
      FileNoRecs(CohortName(f.path), f.lines, month);
      assert AllRecs(files, month) == AllRecs(init, month) + own;
      if AllRecs(files, month) == [] {
        assert |AllRecs(init, month)| + |own| == 0;
        assert own == [] && AllRecs(init, month) == [];
        forall i, j | 0 <= i < |files| && 0 <= j < |files[i].lines| ensures AsEvent(files[i].lines[j]).None? {
          if i < n {
            assert init[i] == files[i];
            assert AsEvent(init[i].lines[j]).None?;
          } else {
            assert files[i] == f;
          }
        }
      } else if AllRecs(init, month) != [] {
        var i, j :| 0 <= i < |init| && 0 <= j < |init[i].lines| && AsEvent(init[i].lines[j]).Some?;
        assert init[i] == files[i];
        assert AsEvent(files[i].lines[j]).Some?;
      } else {
        var j :| 0 <= j < |f.lines| && AsEvent(f.lines[j]).Some?;
        assert AsEvent(files[n].lines[j]).Some?;
      }
    }
  }

  lemma FileRecsStep(c: string, ls: seq<Line>, j: nat, month: int -> string)
    requires j < |ls|
    ensures FileRecs(c, ls[..j + 1], month)
         == FileRecs(c, ls[..j], month) + if AsEvent(ls[j]).Some? then [ToRec(c, AsEvent(ls[j]).value, month)] else []
  {
    assert ls[..j + 1][..j] == ls[..j];
  }

  /** The inner loop over one file's lines. */
  method ReadFile(before: seq<Rec>, f: File, month: int -> string) returns (records: seq<Rec>)
    ensures records == before + FileRecs(CohortName(f.path), f.lines, month)
  {
    var c := CohortName(f.path);
    records := before;
    for j := 0 to |f.lines|
      invariant records == before + FileRecs(c, f.lines[..j], month)
    {
      FileRecsStep(c, f.lines, j, month);
      match AsEvent(f.lines[j]) {
        case None =>
        case Some(e) =>
          records := records + [Rec(c, month(e.ts), e.subreddit, e.author)];
          assert records == before + (FileRecs(c, f.lines[..j], month) + [ToRec(c, e, month)]);
      }
    }
    assert f.lines[..|f.lines|] == f.lines;
  }

  /** The read loop over the input files. */
  method Collect(files: seq<File>, month: int -> string) returns (records: seq<Rec>)
    ensures records == AllRecs(files, month)
  {
    records := [];
    for i := 0 to |files|
      invariant records == AllRecs(files[..i], month)
    {
      records := ReadFile(records, files[i], month);
      assert files[..i + 1][..i] == files[..i];
    }
    assert files[..|files|] == files;
  }

  // ---------------------------------------------------------------------------
  // The group-by counts

  predicate InGroup(r: Rec, c: string, s: string) {
    r.cohort == c && r.subreddit == s
  }

  predicate InMonth(r: Rec, c: string, m: string, s: string) {
    InGroup(r, c, s) && r.month == m
  }

  /** `.size()` of group `(c, s)`. */
  function Count(rs: seq<Rec>, c: string, s: string): nat {
    if rs == [] then 0
    else Count(rs[..|rs| - 1], c, s) + if InGroup(rs[|rs| - 1], c, s) then 1 else 0
  }

  /** The authors of group `(c, s)`; `nunique` is its size. */
  function Active(rs: seq<Rec>, c: string, s: string): set<string> {
    if rs == [] then {}
    else Active(rs[..|rs| - 1], c, s) + if InGroup(rs[|rs| - 1], c, s) then {rs[|rs| - 1].author} else {}
  }

  /** `.size()` of group `(c, m, s)`. */
  function CountM(rs: seq<Rec>, c: string, m: string, s: string): nat {
    if rs == [] then 0
    else CountM(rs[..|rs| - 1], c, m, s) + if InMonth(rs[|rs| - 1], c, m, s) then 1 else 0
  }

  /** The authors of group `(c, m, s)`. */
  function ActiveM(rs: seq<Rec>, c: string, m: string, s: string): set<string> {
    if rs == [] then {}
    else ActiveM(rs[..|rs| - 1], c, m, s) + if InMonth(rs[|rs| - 1], c, m, s) then {rs[|rs| - 1].author} else {}
  }

  /** The `(cohort, subreddit)` keys present. */
  function Groups(rs: seq<Rec>): set<(string, string)> {
    set i | 0 <= i < |rs| :: (rs[i].cohort, rs[i].subreddit)
  }

  /** The `(cohort, month, subreddit)` keys present. */
  function GroupsM(rs: seq<Rec>): set<(string, string, string)> {
    set i | 0 <= i < |rs| :: (rs[i].cohort, rs[i].month, rs[i].subreddit)
  }

  /** The months in which group `(c, s)` has comments. */
  function MonthsOf(rs: seq<Rec>, c: string, s: string): set<string> {
    if rs == [] then {}
    else MonthsOf(rs[..|rs| - 1], c, s) + if InGroup(rs[|rs| - 1], c, s) then {rs[|rs| - 1].month} else {}
  }

  /** The four tables, as maps from group key to value. */
  datatype Stats = Stats(
    comments: map<(string, string), nat>,
    active: map<(string, string), nat>,
    commentsMonthly: map<(string, string, string), nat>,
    activeMonthly: map<(string, string, string), nat>)

  function StatsOf(rs: seq<Rec>): Stats {
    Stats(
      map g | g in Groups(rs) :: Count(rs, g.0, g.1),
      map g | g in Groups(rs) :: |Active(rs, g.0, g.1)|,
      map g | g in GroupsM(rs) :: CountM(rs, g.0, g.1, g.2),
      map g | g in GroupsM(rs) :: |ActiveM(rs, g.0, g.1, g.2)|)
  }

  /** A group is present exactly when it has a comment. */
  lemma {:induction false} CountPositive(rs: seq<Rec>, c: string, s: string)
    ensures (c, s) in Groups(rs) <==> Count(rs, c, s) > 0
  {
    if rs != [] {
      var n := |rs| - 1;
      CountPositive(rs[..n], c, s);
      assert forall i :: 0 <= i < n ==> rs[..n][i] == rs[i];
      assert Groups(rs) == Groups(rs[..n]) + {(rs[n].cohort, rs[n].subreddit)};
    }
  }

  /** A group's distinct authors are at most its comments, and there is one when there is a comment. */
  lemma {:induction false} ActiveBound(rs: seq<Rec>, c: string, s: string)
    ensures |Active(rs, c, s)| <= Count(rs, c, s)
    ensures Count(rs, c, s) > 0 ==> |Active(rs, c, s)| > 0
  {
    if rs != [] {
      var n := |rs| - 1;
      ActiveBound(rs[..n], c, s);
      var a0 := Active(rs[..n], c, s);
      if InGroup(rs[n], c, s) {
        assert |a0 + {rs[n].author}| <= |a0| + 1;
        assert rs[n].author in Active(rs, c, s);
      }
    }
  }

  /** A monthly group's authors are among its group's authors. */
  lemma {:induction false} ActiveMonthSubset(rs: seq<Rec>, c: string, m: string, s: string)
    ensures ActiveM(rs, c, m, s) <= Active(rs, c, s)
    ensures |ActiveM(rs, c, m, s)| <= |Active(rs, c, s)|
  {
    if rs != [] {
      ActiveMonthSubset(rs[..|rs| - 1], c, m, s);
    }
    SubsetCard(ActiveM(rs, c, m, s), Active(rs, c, s));
  }

  /** The monthly keys of group `(c, s)` are its months. */
  lemma {:induction false} MonthlyKeys(rs: seq<Rec>, c: string, m: string, s: string)
    ensures (c, m, s) in GroupsM(rs) <==> m in MonthsOf(rs, c, s)
  {
    if rs != [] {
      var n := |rs| - 1;
      MonthlyKeys(rs[..n], c, m, s);
      assert forall i :: 0 <= i < n ==> rs[..n][i] == rs[i];
      assert GroupsM(rs) == GroupsM(rs[..n]) + {(rs[n].cohort, rs[n].month, rs[n].subreddit)};
    }
  }

  // ---------------------------------------------------------------------------
  // Sums over months

  /** The sum of the monthly comment counts of group `(c, s)` over the months `ms`. */
  function SumComments(ms: seq<string>, rs: seq<Rec>, c: string, s: string): nat {
    if ms == [] then 0 else CountM(rs, c, ms[0], s) + SumComments(ms[1..], rs, c, s)
  }

  /** The sum of the monthly distinct-author counts of group `(c, s)` over the months `ms`. */
  function SumActive(ms: seq<string>, rs: seq<Rec>, c: string, s: string): nat {
    if ms == [] then 0 else |ActiveM(rs, c, ms[0], s)| + SumActive(ms[1..], rs, c, s)
  }

  /** The comments of group `(c, s)` in the months `M`. */
  function CountIn(rs: seq<Rec>, c: string, s: string, M: set<string>): nat {
    if rs == [] then 0
    else CountIn(rs[..|rs| - 1], c, s, M) + if InGroup(rs[|rs| - 1], c, s) && rs[|rs| - 1].month in M then 1 else 0
  }

  /** The authors of group `(c, s)` in the months `M`. */
  function ActiveIn(rs: seq<Rec>, c: string, s: string, M: set<string>): set<string> {
    if rs == [] then {}
    else ActiveIn(rs[..|rs| - 1], c, s, M) + if InGroup(rs[|rs| - 1], c, s) && rs[|rs| - 1].month in M then {rs[|rs| - 1].author} else {}
  }

  lemma {:induction false} CountInAdd(rs: seq<Rec>, c: string, s: string, M: set<string>, m: string)
    requires m !in M
    ensures CountIn(rs, c, s, M + {m}) == CountM(rs, c, m, s) + CountIn(rs, c, s, M)
  {
    if rs != [] {
      CountInAdd(rs[..|rs| - 1], c, s, M, m);
    }
  }

  lemma {:induction false} ActiveInAdd(rs: seq<Rec>, c: string, s: string, M: set<string>, m: string)
    ensures ActiveIn(rs, c, s, M + {m}) == ActiveM(rs, c, m, s) + ActiveIn(rs, c, s, M)
  {
    if rs != [] {
      ActiveInAdd(rs[..|rs| - 1], c, s, M, m);
    }
  }

  lemma {:induction false} CountInAll(rs: seq<Rec>, c: string, s: string, M: set<string>)
    requires MonthsOf(rs, c, s) <= M
    ensures CountIn(rs, c, s, M) == Count(rs, c, s)
  {
    if rs != [] {
      CountInAll(rs[..|rs| - 1], c, s, M);
    }
  }

  lemma {:induction false} ActiveInAll(rs: seq<Rec>, c: string, s: string, M: set<string>)
    requires MonthsOf(rs, c, s) <= M
    ensures ActiveIn(rs, c, s, M) == Active(rs, c, s)
  {
    if rs != [] {
      ActiveInAll(rs[..|rs| - 1], c, s, M);
    }
  }

  lemma {:induction false} SumCommentsIn(ms: seq<string>, rs: seq<Rec>, c: string, s: string)
    requires Distinct(ms)
    ensures SumComments(ms, rs, c, s) == CountIn(rs, c, s, Elems(ms))
  {
    if ms == [] {
      assert Elems(ms) == {};
      CountInNone(rs, c, s);
    } else {
      assert Distinct(ms[1..]) by {
        forall i, j | 0 <= i < j < |ms[1..]| ensures ms[1..][i] != ms[1..][j] {
          assert ms[1..][i] == ms[i + 1] && ms[1..][j] == ms[j + 1];
        }
      }
      SumCommentsIn(ms[1..], rs, c, s);
      assert ms == [ms[0]] + ms[1..];
      assert Elems(ms) == Elems(ms[1..]) + {ms[0]};
      assert ms[0] !in Elems(ms[1..]) by {
        forall k | 0 <= k < |ms[1..]| ensures ms[1..][k] != ms[0] {
          assert ms[1..][k] == ms[k + 1];
        }
      }
      CountInAdd(rs, c, s, Elems(ms[1..]), ms[0]);
    }
  }

  lemma {:induction false} CountInNone(rs: seq<Rec>, c: string, s: string)
    ensures CountIn(rs, c, s, {}) == 0
  {
    if rs != [] {
      CountInNone(rs[..|rs| - 1], c, s);
    }
  }

  lemma {:induction false} ActiveInNone(rs: seq<Rec>, c: string, s: string)
    ensures ActiveIn(rs, c, s, {}) == {}
  {
    if rs != [] {
      ActiveInNone(rs[..|rs| - 1], c, s);
    }
  }

  lemma {:induction false} SumActiveIn(ms: seq<string>, rs: seq<Rec>, c: string, s: string)
    ensures |ActiveIn(rs, c, s, Elems(ms))| <= SumActive(ms, rs, c, s)
  {
    if ms == [] {
      assert Elems(ms) == {};
      ActiveInNone(rs, c, s);
    } else {
      SumActiveIn(ms[1..], rs, c, s);
      assert ms == [ms[0]] + ms[1..];
      assert Elems(ms) == Elems(ms[1..]) + {ms[0]};
      ActiveInAdd(rs, c, s, Elems(ms[1..]), ms[0]);
      var a := ActiveM(rs, c, ms[0], s);
      var b := ActiveIn(rs, c, s, Elems(ms[1..]));
      assert |a + b| <= |a| + |b| by {
        assert |a + b| == |a| + |b| - |a * b|;
      }
    }
  }

  /** The months of group `(c, s)`, in ascending order, each once. */
  function Months(rs: seq<Rec>, c: string, s: string): (ms: seq<string>)
    ensures Distinct(ms) && Elems(ms) == MonthsOf(rs, c, s)
  {
    SortedListDistinct(MonthsOf(rs, c, s));
    SortedList(MonthsOf(rs, c, s))
  }

  /** The monthly comment counts of a group add up to its total. */
  lemma MonthlyCommentsSum(rs: seq<Rec>, c: string, s: string)
    ensures SumComments(Months(rs, c, s), rs, c, s) == Count(rs, c, s)
  {
    var ms := Months(rs, c, s);
    SumCommentsIn(ms, rs, c, s);
    CountInAll(rs, c, s, Elems(ms));
  }

  /**
   * Each month's distinct authors are at most the group's, and the months together have
   * at least as many (an author active in two months is counted in both).
   */
  lemma MonthlyActiveBounds(rs: seq<Rec>, c: string, s: string)
    ensures forall m :: |ActiveM(rs, c, m, s)| <= |Active(rs, c, s)|
    ensures |Active(rs, c, s)| <= SumActive(Months(rs, c, s), rs, c, s)
  {
    forall m ensures |ActiveM(rs, c, m, s)| <= |Active(rs, c, s)| {
      ActiveMonthSubset(rs, c, m, s);
    }
    var ms := Months(rs, c, s);
    SumActiveIn(ms, rs, c, s);
    ActiveInAll(rs, c, s, Elems(ms));
  }

  /** The overall tables: one entry per group present, and distinct authors never exceed comments. */
  lemma StatsBounds(rs: seq<Rec>)
    ensures var st := StatsOf(rs);
            && st.comments.Keys == st.active.Keys == Groups(rs)
            && forall g :: g in st.comments ==> 0 < st.active[g] <= st.comments[g]
  {
    var st := StatsOf(rs);
    forall g | g in st.comments ensures 0 < st.active[g] <= st.comments[g] {
      CountPositive(rs, g.0, g.1);
      ActiveBound(rs, g.0, g.1);
    }
  }

  /** The monthly tables: the same per `(cohort, month, subreddit)`. */
  lemma MonthlyStatsBounds(rs: seq<Rec>)
    ensures var st := StatsOf(rs);
            && st.commentsMonthly.Keys == st.activeMonthly.Keys == GroupsM(rs)
            && forall g :: g in st.commentsMonthly ==> 0 < st.activeMonthly[g] <= st.commentsMonthly[g]
  {
    var st := StatsOf(rs);
    forall g | g in st.commentsMonthly ensures 0 < st.activeMonthly[g] <= st.commentsMonthly[g] {
      MonthBound(rs, g.0, g.1, g.2);
    }
  }

  /** A monthly group present has a comment, and at most as many authors as comments. */
  lemma {:induction false} MonthBound(rs: seq<Rec>, c: string, m: string, s: string)
    requires (c, m, s) in GroupsM(rs)
    ensures 0 < |ActiveM(rs, c, m, s)| <= CountM(rs, c, m, s)
  {
    var n := |rs| - 1;
    var p := rs[..n];
    assert forall i :: 0 <= i < n ==> p[i] == rs[i];
    var a0 := ActiveM(p, c, m, s);
    if (c, m, s) in GroupsM(p) {
      MonthBound(p, c, m, s);
    } else {
      assert InMonth(rs[n], c, m, s);
      MonthAbsent(p, c, m, s);
    }
    if InMonth(rs[n], c, m, s) {
      assert |a0 + {rs[n].author}| <= |a0| + 1;
      assert rs[n].author in ActiveM(rs, c, m, s);
    }
  }

  lemma {:induction false} MonthAbsent(rs: seq<Rec>, c: string, m: string, s: string)
    requires (c, m, s) !in GroupsM(rs)
    ensures ActiveM(rs, c, m, s) == {} && CountM(rs, c, m, s) == 0
  {
    if rs != [] {
      var n := |rs| - 1;
      assert forall i :: 0 <= i < n ==> rs[..n][i] == rs[i];
      assert (rs[n].cohort, rs[n].month, rs[n].subreddit) in GroupsM(rs);
      MonthAbsent(rs[..n], c, m, s);
    }
  }

  // ---------------------------------------------------------------------------
  // The script

  /** `raise ValueError(...)` when no usable comment was read. */
  datatype ValueError = NoValidRecords

  /** The script: the read loop, the check for an empty result, then the four tables. */
  method Run(files: seq<File>, month: int -> string) returns (r: Result<Stats, ValueError>)
    ensures r.Err? <==> AllRecs(files, month) == []
    ensures r.Ok? ==> r.value == StatsOf(AllRecs(files, month))
  {
    var records := Collect(files, month);
    if records == [] {
      return Err(NoValidRecords);
    }
    return Ok(StatsOf(records));
  }
}
