/**
 * scripts/filter_cohort.py: one pass over a monthly dump that keeps the comments of the
 * users named in a userlist file (bots and deleted authors excluded) and writes each as
 * a slim object with author, subreddit, creation time and, on request, the body.
 */
module CohortFilter {
  import opened Base
  import opened Records
  import opened Text
  import opened StringOrder
  import opened SeedFilter

  /** `set(text.split())`: the names of a userlist file. */
  function Users(text: string): (users: set<string>)
    ensures forall u :: u in users ==> IsWord(u)
  {
    Elems(Tokens(text))
  }

  /** A userlist written by the seed filters reads back as the same author set. */
  lemma UsersOfUserlist(authors: set<string>)
    requires forall a :: a in authors ==> IsWord(a)
    ensures Users(SortedLines(authors)) == authors
  {
    SortedLinesTokens(authors);
  }

  /** `rec[key]` on a decoded line without that key, with the line number. */
  datatype MissingKey = MissingKey(line: nat, key: string)

  /** The slim object written for a kept comment. */
  datatype CohortOut = CohortOut(author: string, subreddit: string, created: int, body: Option<string>)

  /** A decoded comment whose author is a listed user and not excluded. */
  predicate Kept(l: Line, users: set<string>) {
    l.json.Some? && l.json.value.author.Some? && l.json.value.author.value in users && !Bot(l.json.value.author.value)
  }

  /**
   * What line number `n` contributes: nothing when it does not decode or is not kept, the
   * slim object when it is kept, and the first missing key otherwise; `author` is looked up
   * on every decoded line, `subreddit` and `created_utc` on kept ones.
   */
  function OutOf(l: Line, n: nat, users: set<string>, keepBody: bool): (r: Result<Option<CohortOut>, MissingKey>)
    ensures r.Ok? && r.value.Some? <==>
              Kept(l, users) && l.json.value.subreddit.Some? && l.json.value.created.Some?
    ensures r.Ok? && r.value.Some? ==>
              var raw := l.json.value;
              r.value.value == CohortOut(raw.author.value, raw.subreddit.value, raw.created.value,
                                         if keepBody then raw.body else None)
    ensures r.Err? <==> l.json.Some? && (l.json.value.author.None? || (Kept(l, users) && (l.json.value.subreddit.None? || l.json.value.created.None?)))
    ensures r.Err? ==> r.error.line == n
    ensures r.Err? ==> r.error.key == if l.json.value.author.None? then "author"
                                      else if l.json.value.subreddit.None? then "subreddit" else "created_utc"
  {
    match l.json
    case None => Ok(None)
    case Some(raw) =>
      if raw.author.None? then Err(MissingKey(n, "author"))
      else if raw.author.value !in users || Bot(raw.author.value) then Ok(None)
      else if raw.subreddit.None? then Err(MissingKey(n, "subreddit"))
      else if raw.created.None? then Err(MissingKey(n, "created_utc"))
      else Ok(Some(CohortOut(raw.author.value, raw.subreddit.value, raw.created.value, if keepBody then raw.body else None)))
  }

  /** The objects written for the lines `ls`, or the first missing key. */
  function ScanCohort(ls: seq<Line>, users: set<string>, keepBody: bool): (r: Result<seq<CohortOut>, MissingKey>)
    ensures r.Ok? ==> |r.value| <= |ls|
  {
    if ls == [] then Ok([])
    else
      match ScanCohort(ls[..|ls| - 1], users, keepBody)
      case Err(e) => Err(e)
      case Ok(out) =>
        match OutOf(ls[|ls| - 1], |ls|, users, keepBody)
        case Err(e) => Err(e)
        case Ok(None) => Ok(out)
        case Ok(Some(o)) => Ok(out + [o])
  }

  /** Without a failure, one object is written per kept line. */
  lemma {:induction false} CohortCount(ls: seq<Line>, users: set<string>, keepBody: bool)
    requires ScanCohort(ls, users, keepBody).Ok?
    ensures |ScanCohort(ls, users, keepBody).value| == |set i | 0 <= i < |ls| && Kept(ls[i], users)|
  {
    if ls != [] {
      var n := |ls| - 1;
      CohortCount(ls[..n], users, keepBody);
      assert forall i :: 0 <= i < n ==> ls[..n][i] == ls[i];
      assert (set i | 0 <= i < |ls| && Kept(ls[i], users))
          == (set i | 0 <= i < n && Kept(ls[..n][i], users)) + (if Kept(ls[n], users) then {n} else {});
    }
  }

  /** Without a failure, each object written is the projection of a kept line, and conversely. */
  lemma {:induction false} CohortWritten(ls: seq<Line>, users: set<string>, keepBody: bool)
    requires ScanCohort(ls, users, keepBody).Ok?
    ensures forall o :: o in ScanCohort(ls, users, keepBody).value <==>
              exists i :: 0 <= i < |ls| && OutOf(ls[i], i + 1, users, keepBody) == Ok(Some(o))
  {
    if ls != [] {
      var n := |ls| - 1;
      CohortWritten(ls[..n], users, keepBody);
      assert forall i :: 0 <= i < n ==> ls[..n][i] == ls[i];
    }
  }

  /** The pass fails exactly when some line's lookup fails, with the first such line's error. */
  lemma {:induction false} CohortFails(ls: seq<Line>, users: set<string>, keepBody: bool)
    ensures ScanCohort(ls, users, keepBody).Err? <==> exists i :: 0 <= i < |ls| && OutOf(ls[i], i + 1, users, keepBody).Err?
    ensures ScanCohort(ls, users, keepBody).Err? ==>
              var k := ScanCohort(ls, users, keepBody).error.line;
              && 1 <= k <= |ls| && OutOf(ls[k - 1], k, users, keepBody) == Err(ScanCohort(ls, users, keepBody).error)
              && forall i :: 0 <= i < k - 1 ==> OutOf(ls[i], i + 1, users, keepBody).Ok?
  {
    CohortFailsSome(ls, users, keepBody);
    if ScanCohort(ls, users, keepBody).Err? {
      CohortFailsFirst(ls, users, keepBody);
    }
  }

  lemma {:induction false} CohortFailsSome(ls: seq<Line>, users: set<string>, keepBody: bool)
    ensures ScanCohort(ls, users, keepBody).Err? <==> exists i :: 0 <= i < |ls| && OutOf(ls[i], i + 1, users, keepBody).Err?
  {
    if ls != [] {
      var n := |ls| - 1;
      CohortFailsSome(ls[..n], users, keepBody);
      assert forall i :: 0 <= i < n ==> ls[..n][i] == ls[i];
      if ScanCohort(ls[..n], users, keepBody).Err? {
        var i :| 0 <= i < n && OutOf(ls[..n][i], i + 1, users, keepBody).Err?;
        assert OutOf(ls[i], i + 1, users, keepBody).Err?;
      } else {
        assert ScanCohort(ls, users, keepBody).Err? <==> OutOf(ls[n], n + 1, users, keepBody).Err?;
      }
    }
  }

  lemma {:induction false} CohortFailsFirst(ls: seq<Line>, users: set<string>, keepBody: bool)
    requires ScanCohort(ls, users, keepBody).Err?
    ensures var k := ScanCohort(ls, users, keepBody).error.line;
            && 1 <= k <= |ls| && OutOf(ls[k - 1], k, users, keepBody) == Err(ScanCohort(ls, users, keepBody).error)
            && forall i :: 0 <= i < k - 1 ==> OutOf(ls[i], i + 1, users, keepBody).Ok?
  {
    var n := |ls| - 1;
    var prev := ScanCohort(ls[..n], users, keepBody);
    assert forall i :: 0 <= i < n ==> ls[..n][i] == ls[i];
    if prev.Err? {
      CohortFailsFirst(ls[..n], users, keepBody);
      assert ScanCohort(ls, users, keepBody) == prev;
    } else {
      CohortFailsSome(ls[..n], users, keepBody);
      assert ScanCohort(ls, users, keepBody) == Err(OutOf(ls[n], n + 1, users, keepBody).error);
      assert forall i :: 0 <= i < n ==> OutOf(ls[..n][i], i + 1, users, keepBody).Ok?;
    }
  }

  /** Once the pass has failed, later lines do not change the outcome. */
  lemma {:induction false} CohortFailureStays(ls: seq<Line>, k: nat, users: set<string>, keepBody: bool)
    requires k <= |ls| && ScanCohort(ls[..k], users, keepBody).Err?
    ensures ScanCohort(ls, users, keepBody) == ScanCohort(ls[..k], users, keepBody)
  {
    if k < |ls| {
      var n := |ls| - 1;
      assert ls[..n][..k] == ls[..k];
      CohortFailureStays(ls[..n], k, users, keepBody);
    } else {
      assert ls[..k] == ls;
    }
  }

  /** What a completed pass leaves: the objects written and the counters. */
  datatype CohortRun = CohortRun(out: seq<CohortOut>, matchCt: nat, lineCt: nat)

  /**
   * The pass with its early stop: exactly the examined lines are filtered against the
   * userlist's names, and `match_ct` is the number of objects written.
   */
  method Run(lines: seq<Line>, userlist: string, keepBody: bool, maxLines: int) returns (r: Result<CohortRun, MissingKey>)
    ensures var spec := ScanCohort(Examined(lines, maxLines), Users(userlist), keepBody);
            && (r.Err? <==> spec.Err?)
            && (r.Err? ==> r.error == spec.error)
            && (r.Ok? ==> r.value.out == spec.value && r.value.matchCt == |spec.value|
                          && r.value.lineCt == Counted(lines, maxLines))
  {
    var users := Users(userlist);
    var out: seq<CohortOut> := [];
    var lineCt, matchCt := 0, 0;
    var i := 0;
    while i < |lines|
      invariant 0 <= i <= |lines| && lineCt == i
      invariant maxLines > 0 ==> i < maxLines
      invariant ScanCohort(lines[..i], users, keepBody) == Ok(out) && matchCt == |out|
    {
      lineCt := lineCt + 1;
      if maxLines > 0 && lineCt >= maxLines {
        break;
      }
      assert lines[..i + 1][..i] == lines[..i];
      var step := OutOf(lines[i], i + 1, users, keepBody);
      match step {
        case Err(e) =>
          assert Examined(lines, maxLines)[..i + 1] == lines[..i + 1];
          CohortFailureStays(Examined(lines, maxLines), i + 1, users, keepBody);
          return Err(e);
        case Ok(None) =>
        case Ok(Some(o)) =>
          matchCt := matchCt + 1;
          out := out + [o];
      }
      i := i + 1;
    }
    assert lines[..i] == Examined(lines, maxLines);
    return Ok(CohortRun(out, matchCt, lineCt));
  }
}
