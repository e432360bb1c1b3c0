/**
 * scripts/filter_seed.py: one pass over a monthly dump that copies, line for line, the
 * comments of one seed subreddit (bots and deleted authors excluded) and saves the sorted
 * list of their authors. A positive `--max-lines` stops the pass early.
 */
module SeedFilter {
  import opened Base
  import opened Records
  import opened StringOrder

  /** The two author names the filters always exclude. */
  predicate Bot(a: string) {
    a == "AutoModerator" || a == "[deleted]"
  }

  // ---------------------------------------------------------------------------
  // The --max-lines cut-off

  /**
   * The lines the loop examines: with a positive limit the counter reaches it on line
   * number `maxLines`, and the loop stops before examining that line.
   */
  function Examined(lines: seq<Line>, maxLines: int): (r: seq<Line>)
    ensures r <= lines
  {
    if maxLines > 0 && |lines| >= maxLines then lines[..maxLines - 1] else lines
  }

  /** The final value of the line counter. */
  function Counted(lines: seq<Line>, maxLines: int): nat {
    if maxLines > 0 && |lines| >= maxLines then maxLines else |lines|
  }

  /** `--max-lines N` with `N > 0` examines at most `N - 1` lines; `0` examines them all. */
  lemma ExaminedCount(lines: seq<Line>, maxLines: int)
    ensures maxLines <= 0 ==> Examined(lines, maxLines) == lines
    ensures maxLines > 0 ==> |Examined(lines, maxLines)| == if |lines| < maxLines then |lines| else maxLines - 1
    ensures |Examined(lines, maxLines)| < Counted(lines, maxLines) || Examined(lines, maxLines) == lines
  {
  }

  // ---------------------------------------------------------------------------
  // The seed predicate

  /** `rec.get("subreddit") == SEED_SUB`: a decoded comment of the seed subreddit. */
  predicate Matches(l: Line, seed: string) {
    l.json.Some? && l.json.value.subreddit == Some(seed)
  }

  /** A seed comment with an author who is not excluded: its line is copied. */
  predicate Written(l: Line, seed: string) {
    Matches(l, seed) && l.json.value.author.Some? && !Bot(l.json.value.author.value)
  }

  /** `rec["author"]` on a seed comment without that key, at the given line number. */
  datatype MissingAuthor = MissingAuthor(line: nat)

  /** The copied lines, the author set and `matcher_cnt`. */
  datatype SeedState = SeedState(out: seq<string>, authors: set<string>, matcherCnt: nat)

  /** The state after examining `ls`, or the first seed comment without author. */
  function ScanSeed(ls: seq<Line>, seed: string): (r: Result<SeedState, MissingAuthor>)
  {
    if ls == [] then Ok(SeedState([], {}, 0))
    else
      match ScanSeed(ls[..|ls| - 1], seed)
      case Err(e) => Err(e)
      case Ok(s) =>
        var l := ls[|ls| - 1];
        if !Matches(l, seed) then Ok(s)
        else if l.json.value.author.None? then Err(MissingAuthor(|ls|))
        else if Bot(l.json.value.author.value) then Ok(s)
        else Ok(SeedState(s.out + [l.text], s.authors + {l.json.value.author.value}, s.matcherCnt + 1))
  }

  /** Without a failure, `matcher_cnt` counts the copied lines and bounds the number of authors. */
  lemma {:induction false} SeedCounts(ls: seq<Line>, seed: string)
    requires ScanSeed(ls, seed).Ok?
    ensures var s := ScanSeed(ls, seed).value;
            s.matcherCnt == |s.out| && |s.authors| <= s.matcherCnt
  {
    if ls != [] {
      var n := |ls| - 1;
      SeedCounts(ls[..n], seed);
      var s := ScanSeed(ls[..n], seed).value;
      if Written(ls[n], seed) {
        assert |s.authors + {ls[n].json.value.author.value}| <= |s.authors| + 1;
      }
    }
  }

  /** Without a failure, exactly the `Written` lines are copied, verbatim. */
  lemma {:induction false} SeedCopies(ls: seq<Line>, seed: string)
    requires ScanSeed(ls, seed).Ok?
    ensures forall t :: t in ScanSeed(ls, seed).value.out <==> exists i :: 0 <= i < |ls| && Written(ls[i], seed) && ls[i].text == t
  {
    if ls != [] {
      var n := |ls| - 1;
      SeedCopies(ls[..n], seed);
      assert forall i :: 0 <= i < n ==> ls[..n][i] == ls[i];
    }
  }

  /** Without a failure, `authors` is the set of authors of the copied lines. */
  lemma {:induction false} SeedAuthors(ls: seq<Line>, seed: string)
    requires ScanSeed(ls, seed).Ok?
    ensures ScanSeed(ls, seed).value.authors == set i | 0 <= i < |ls| && Written(ls[i], seed) :: ls[i].json.value.author.value
  {
    if ls != [] {
      var n := |ls| - 1;
      var p := ls[..n];
      SeedAuthors(p, seed);
      assert forall i :: 0 <= i < n ==> p[i] == ls[i];
      assert (set i | 0 <= i < |ls| && Written(ls[i], seed) :: ls[i].json.value.author.value)
          == (set i | 0 <= i < n && Written(p[i], seed) :: p[i].json.value.author.value)
             + (if Written(ls[n], seed) then {ls[n].json.value.author.value} else {});
    }
  }

  /** Once the pass has failed, later lines do not change the outcome. */
  lemma {:induction false} SeedFailureStays(ls: seq<Line>, k: nat, seed: string)
    requires k <= |ls| && ScanSeed(ls[..k], seed).Err?
    ensures ScanSeed(ls, seed) == ScanSeed(ls[..k], seed)
  {
    if k < |ls| {
      var n := |ls| - 1;
      assert ls[..n][..k] == ls[..k];
      SeedFailureStays(ls[..n], k, seed);
    } else {
      assert ls[..k] == ls;
    }
  }

  /** The pass fails exactly when a seed comment lacks `author`, at the first such line. */
  lemma {:induction false} SeedFails(ls: seq<Line>, seed: string)
    ensures ScanSeed(ls, seed).Err? <==> exists i :: 0 <= i < |ls| && Matches(ls[i], seed) && ls[i].json.value.author.None?
    ensures ScanSeed(ls, seed).Err? ==>
              var k := ScanSeed(ls, seed).error.line;
              && 1 <= k <= |ls| && Matches(ls[k - 1], seed) && ls[k - 1].json.value.author.None?
              && forall i :: 0 <= i < k - 1 ==> !(Matches(ls[i], seed) && ls[i].json.value.author.None?)
  {
    if ls != [] {
      var n := |ls| - 1;
      SeedFails(ls[..n], seed);
      assert forall i :: 0 <= i < n ==> ls[..n][i] == ls[i];
    }
  }

  /** What an undecodable line or a comment of another subreddit changes: nothing. */
  lemma OtherLines(ls: seq<Line>, l: Line, seed: string)
    requires !Matches(l, seed)
    ensures ScanSeed(ls + [l], seed) == ScanSeed(ls, seed)
  {
    assert (ls + [l])[..|ls|] == ls;
  }

  // ---------------------------------------------------------------------------
  // The script

  /** What a completed pass leaves: the copied lines, the userlist file and the counters. */
  datatype SeedRun = SeedRun(out: seq<string>, userlist: string, matcherCnt: nat, lineCnt: nat, authors: set<string>)

  /**
   * The pass with its early stop, then the userlist: exactly the examined lines go
   * through the seed predicate, and the userlist is the sorted author set.
   */
  method Run(lines: seq<Line>, seed: string, maxLines: int) returns (r: Result<SeedRun, MissingAuthor>)
    ensures var spec := ScanSeed(Examined(lines, maxLines), seed);
            && (r.Err? <==> spec.Err?)
            && (r.Err? ==> r.error == spec.error)
            && (r.Ok? ==> && r.value.out == spec.value.out && r.value.authors == spec.value.authors
                          && r.value.matcherCnt == spec.value.matcherCnt
                          && r.value.userlist == SortedLines(spec.value.authors)
                          && r.value.lineCnt == Counted(lines, maxLines))
  {
    var out: seq<string> := [];
    var authors: set<string> := {};
    var matcherCnt, lineCnt := 0, 0;
    var i := 0;
    while i < |lines|
      invariant 0 <= i <= |lines| && lineCnt == i
      invariant maxLines > 0 ==> i < maxLines
      invariant ScanSeed(lines[..i], seed) == Ok(SeedState(out, authors, matcherCnt))
    {
      var l := lines[i];
      lineCnt := lineCnt + 1;
      if maxLines > 0 && lineCnt >= maxLines {
        break;
      }
      assert lines[..i + 1][..i] == lines[..i];
      match l.json {
        case None =>
        case Some(rec) =>
          if rec.subreddit == Some(seed) {
            if rec.author.None? {
              assert Examined(lines, maxLines)[..i + 1] == lines[..i + 1];
              SeedFailureStays(Examined(lines, maxLines), i + 1, seed);
              return Err(MissingAuthor(i + 1));
            }
            if !Bot(rec.author.value) {
              matcherCnt := matcherCnt + 1;
              authors := authors + {rec.author.value};
              out := out + [l.text];
            }
          }
      }
      i := i + 1;
    }
    assert lines[..i] == Examined(lines, maxLines);
    return Ok(SeedRun(out, SortedLines(authors), matcherCnt, lineCnt, authors));
  }
}
