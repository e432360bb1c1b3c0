/**
 * scripts/build_windowed_graph.py and its identical copy scripts/make_windowed_graph.py:
 * every comment becomes a row `(uid, subreddit, ts)` with the author replaced by a hash,
 * the rows are sorted by `(uid, ts)`, and each pair of adjacent rows of one user adds 1
 * to the weight of the directed edge from the first subreddit to the second.
 */
module WindowedGraph {
  import opened Base
  import opened Records
  import opened StringOrder

  /** Why the read loop stops: `json.loads` rejects a line, or a key lookup raises. */
  datatype LoadError = NotJson(line: nat) | MissingKey(line: nat, key: string)

  /**
   * `rec = json.loads(ln)` and the tuple `(rec["author"], rec["subreddit"], rec["created_utc"])`,
   * whose lookups run left to right; `n` is the line's position.
   */
  function Parse(l: Line, n: nat): (r: Result<Event, LoadError>)
    ensures r.Ok? <==> AsEvent(l).Some?
    ensures r.Ok? ==> r.value == AsEvent(l).value
    ensures r.Err? ==> r.error.line == n
    ensures r == Err(NotJson(n)) <==> l.json.None?
    ensures r.Err? && r.error.MissingKey? ==> r.error.key in {"author", "subreddit", "created_utc"}
  {
    match l.json
    case None => Err(NotJson(n))
    case Some(raw) =>
      if raw.author.None? then Err(MissingKey(n, "author"))
      else if raw.subreddit.None? then Err(MissingKey(n, "subreddit"))
      else if raw.created.None? then Err(MissingKey(n, "created_utc"))
      else Ok(Event(raw.author.value, raw.subreddit.value, raw.created.value))
  }

  /** The read loop: every line must yield a record, and none is skipped. */
  method Load(lines: seq<Line>) returns (r: Result<seq<Event>, LoadError>)
    ensures r.Ok? <==> forall i :: 0 <= i < |lines| ==> AsEvent(lines[i]).Some?
    ensures r.Ok? ==> r.value == Events(lines) && |r.value| == |lines|
    ensures r.Err? ==> exists i :: 0 <= i < |lines| && Parse(lines[i], i) == Err(r.error)
                                   && forall j :: 0 <= j < i ==> AsEvent(lines[j]).Some?
  {
    var rows := [];
    var i := 0;
    while i < |lines|
      invariant 0 <= i <= |lines|
      invariant forall j :: 0 <= j < i ==> AsEvent(lines[j]).Some?
      invariant rows == Events(lines[..i]) && |rows| == i
    {
      assert lines[..i + 1][..i] == lines[..i];
      match Parse(lines[i], i) {
        case Err(e) =>
          return Err(e);
        case Ok(ev) =>
          rows := rows + [ev];
      }
      i := i + 1;
    }
    assert lines[..i] == lines;
    return Ok(rows);
  }

  /** A row after anonymisation: `uid` is the hash of the author. */
  datatype Row = Row(uid: string, subreddit: string, ts: int)

  /** `[(sha256(a).hexdigest(), s, t) for a, s, t in rows]`, with the hash as a parameter. */
  function Anonymise(es: seq<Event>, hash: string -> string): (rows: seq<Row>)
    ensures |rows| == |es|
    ensures forall i :: 0 <= i < |es| ==> rows[i] == Row(hash(es[i].author), es[i].subreddit, es[i].ts)
  {
    seq(|es|, i requires 0 <= i < |es| => Row(hash(es[i].author), es[i].subreddit, es[i].ts))
  }

  // ---------------------------------------------------------------------------
  // rows.sort(key=lambda x: (x[0], x[2])): Python's sort is stable

  /** The sort key of `x` is at most that of `y`. */
  predicate KeyLeq(x: Row, y: Row) {
    Less(x.uid, y.uid) || (x.uid == y.uid && x.ts <= y.ts)
  }

  lemma KeyLeqTransitive(x: Row, y: Row, z: Row)
    requires KeyLeq(x, y) && KeyLeq(y, z)
    ensures KeyLeq(x, z)
  {
    if Less(x.uid, y.uid) && Less(y.uid, z.uid) {
      LessTransitive(x.uid, y.uid, z.uid);
    }
  }

  lemma KeyLeqTotal(x: Row, y: Row)
    ensures KeyLeq(x, y) || KeyLeq(y, x)
  {
    if x.uid != y.uid {
      LessTotal(x.uid, y.uid);
    }
  }

  predicate SortedByKey(s: seq<Row>) {
    forall i, j :: 0 <= i < j < |s| ==> KeyLeq(s[i], s[j])
  }

  /** Inserts `x` before the first row whose key is not below it, so ahead of its equals. */
  function Insert(x: Row, s: seq<Row>): (r: seq<Row>)
    requires SortedByKey(s)
    ensures SortedByKey(r) && multiset(r) == multiset(s) + multiset{x}
  {
    if s == [] then [x]
    else if KeyLeq(x, s[0]) then
      InsertFront(x, s);
      [x] + s
    else
      var rest := Insert(x, s[1..]);
      KeyLeqTotal(x, s[0]);
      InsertLater(x, s, rest);
      assert s == [s[0]] + s[1..];
      [s[0]] + rest
  }

  lemma InsertFront(x: Row, s: seq<Row>)
    requires SortedByKey(s) && s != [] && KeyLeq(x, s[0])
    ensures SortedByKey([x] + s)
  {
    forall j | 0 < j < |s| ensures KeyLeq(x, s[j]) {
      KeyLeqTransitive(x, s[0], s[j]);
    }
  }

  lemma InsertLater(x: Row, s: seq<Row>, rest: seq<Row>)
    requires SortedByKey(s) && s != [] && KeyLeq(s[0], x)
    requires SortedByKey(rest) && multiset(rest) == multiset(s[1..]) + multiset{x}
    ensures SortedByKey([s[0]] + rest)
  {
    forall j | 0 <= j < |rest| ensures KeyLeq(s[0], rest[j]) {
      assert rest[j] in multiset(rest);
      if rest[j] != x {
        assert rest[j] in multiset(s[1..]);
        var k :| 0 <= k < |s[1..]| && s[1..][k] == rest[j];
        assert s[k + 1] == rest[j];
      }
    }
  }

  /** The sorted rows. */
  function SortByKey(s: seq<Row>): (r: seq<Row>)
    ensures SortedByKey(r) && multiset(r) == multiset(s)
  {
    if s == [] then []
    else
      assert s == [s[0]] + s[1..];
      Insert(s[0], SortByKey(s[1..]))
  }

  /** The rows whose key is `(uid, ts)`, in order. */
  function WithKey(s: seq<Row>, uid: string, ts: int): (r: seq<Row>)
    ensures forall i :: 0 <= i < |r| ==> r[i].uid == uid && r[i].ts == ts
  {
    if s == [] then []
    else (if s[0].uid == uid && s[0].ts == ts then [s[0]] else []) + WithKey(s[1..], uid, ts)
  }

  lemma WithKeyCons(a: Row, rest: seq<Row>, uid: string, ts: int)
    ensures WithKey([a] + rest, uid, ts) == (if a.uid == uid && a.ts == ts then [a] else []) + WithKey(rest, uid, ts)
  {
    assert ([a] + rest)[1..] == rest;
  }

  lemma {:induction false} InsertWithKey(x: Row, s: seq<Row>, uid: string, ts: int)
    requires SortedByKey(s)
    ensures WithKey(Insert(x, s), uid, ts)
         == (if x.uid == uid && x.ts == ts then [x] else []) + WithKey(s, uid, ts)
  {
    if s == [] {
      WithKeyCons(x, [], uid, ts);
    } else if KeyLeq(x, s[0]) {
      WithKeyCons(x, s, uid, ts);
    } else {
      assert SortedByKey(s[1..]);
      InsertWithKey(x, s[1..], uid, ts);
      WithKeyCons(s[0], Insert(x, s[1..]), uid, ts);
      WithKeyCons(s[0], s[1..], uid, ts);
      assert s == [s[0]] + s[1..];
    }
  }

  /** Stability: the rows sharing a key keep their input order. */
  lemma {:induction false} SortByKeyStable(s: seq<Row>, uid: string, ts: int)
    ensures WithKey(SortByKey(s), uid, ts) == WithKey(s, uid, ts)
  {
    if s != [] {
      SortByKeyStable(s[1..], uid, ts);
      InsertWithKey(s[0], SortByKey(s[1..]), uid, ts);
    }
  }

  // ---------------------------------------------------------------------------
  // for (uid1, sub1, _), (uid2, sub2, _) in zip(rows, rows[1:])

  /** Rows `i` and `i + 1` belong to one user and step from `e.0` to `e.1`. */
  predicate StepAt(rows: seq<Row>, i: int, e: (string, string))
    requires 0 <= i && i + 1 < |rows|
  {
    rows[i].uid == rows[i + 1].uid && e == (rows[i].subreddit, rows[i + 1].subreddit)
  }

  /** The steps counted among the first `k` rows: one per adjacent same-user pair. */
  function PairsUpTo(rows: seq<Row>, k: nat): multiset<(string, string)>
    requires k <= |rows|
  {
    if k < 2 then multiset{}
    else
      PairsUpTo(rows, k - 1)
        + if rows[k - 2].uid == rows[k - 1].uid then multiset{(rows[k - 2].subreddit, rows[k - 1].subreddit)}
          else multiset{}
  }

  /** The steps counted over all rows. */
  function SamePairs(rows: seq<Row>): multiset<(string, string)> {
    PairsUpTo(rows, |rows|)
  }

  /** The weights of the steps counted: `G[a][b]['weight']` for each edge `(a, b)`. */
  function Weights(m: multiset<(string, string)>): map<(string, string), nat> {
    map e | e in m :: m[e]
  }

  /** One more counted step: the edge gets `old + 1`, or 1 if it is new. */
  lemma WeightsAdd(m: multiset<(string, string)>, e: (string, string))
    ensures Weights(m + multiset{e}) == Weights(m)[e := if e in Weights(m) then Weights(m)[e] + 1 else 1]
  {
  }

  lemma PairsUpToNext(rows: seq<Row>, i: nat)
    requires i + 1 < |rows|
    ensures PairsUpTo(rows, i + 2)
         == PairsUpTo(rows, i + 1)
            + if rows[i].uid == rows[i + 1].uid then multiset{(rows[i].subreddit, rows[i + 1].subreddit)}
              else multiset{}
  {
  }

  /**
   * The pair loop: `add_edge` with weight `old + 1`, or 1 for a new edge; a pair of two
   * users is skipped (`continue`).
   */
  method CountPairs(rows: seq<Row>) returns (w: map<(string, string), nat>)
    ensures w == Weights(SamePairs(rows))
  {
    w := map[];
    if |rows| < 2 {
      return;
    }
    ghost var counted := multiset{};
    var i := 0;
    while i + 1 < |rows|
      invariant 0 <= i < |rows|
      invariant counted == PairsUpTo(rows, i + 1)
      invariant w == Weights(counted)
    {
      var uid1, sub1 := rows[i].uid, rows[i].subreddit;
      var uid2, sub2 := rows[i + 1].uid, rows[i + 1].subreddit;
      PairsUpToNext(rows, i);
      if uid1 == uid2 {
        WeightsAdd(counted, (sub1, sub2));
        w := w[(sub1, sub2) := if (sub1, sub2) in w then w[(sub1, sub2)] + 1 else 1];
        counted := counted + multiset{(sub1, sub2)};
      }
      i := i + 1;
    }
  }

  lemma {:induction false} PairsUpToMember(rows: seq<Row>, k: nat, e: (string, string))
    requires k <= |rows|
    ensures e in PairsUpTo(rows, k) <==> exists i :: 0 <= i && i + 1 < k && StepAt(rows, i, e)
  {
    if k >= 2 {
      PairsUpToMember(rows, k - 1, e);
      if e in PairsUpTo(rows, k) && e !in PairsUpTo(rows, k - 1) {
        assert StepAt(rows, k - 2, e);
      }
    }
  }

  /**
   * A step is counted exactly when some adjacent pair of one user takes it; pairs that
   * straddle two users count nothing, and a repeated subreddit gives a self-loop.
   */
  lemma SamePairsMember(rows: seq<Row>, e: (string, string))
    ensures e in SamePairs(rows) <==> exists i :: 0 <= i && i + 1 < |rows| && StepAt(rows, i, e)
  {
    PairsUpToMember(rows, |rows|, e);
  }

  /** Every saved weight is at least 1 and is the number of pairs taking that step. */
  lemma WeightsPositive(m: multiset<(string, string)>, e: (string, string))
    requires e in Weights(m)
    ensures Weights(m)[e] >= 1 && Weights(m)[e] == m[e]
  {
  }

  /** The users among the first `k` rows. */
  function UidsUpTo(rows: seq<Row>, k: nat): set<string>
    requires k <= |rows|
  {
    set i | 0 <= i < k :: rows[i].uid
  }

  /** The users of the rows. */
  function Uids(rows: seq<Row>): set<string> {
    UidsUpTo(rows, |rows|)
  }

  /** The adjacent pairs among the first `k` rows that straddle two users. */
  function BoundariesUpTo(rows: seq<Row>, k: nat): nat
    requires k <= |rows|
  {
    if k < 2 then 0
    else BoundariesUpTo(rows, k - 1) + if rows[k - 2].uid != rows[k - 1].uid then 1 else 0
  }

  /** Each adjacent pair is either counted or a boundary. */
  lemma {:induction false} PairsSplit(rows: seq<Row>, k: nat)
    requires 1 <= k <= |rows|
    ensures |PairsUpTo(rows, k)| + BoundariesUpTo(rows, k) == k - 1
  {
    if k >= 2 {
      PairsSplit(rows, k - 1);
    }
  }

  /** In sorted rows a change of user brings a user not seen before. */
  lemma NextUidNew(rows: seq<Row>, k: nat)
    requires 2 <= k <= |rows| && SortedByKey(rows) && rows[k - 2].uid != rows[k - 1].uid
    ensures rows[k - 1].uid !in UidsUpTo(rows, k - 1)
  {
    var u, v := rows[k - 2].uid, rows[k - 1].uid;
    assert KeyLeq(rows[k - 2], rows[k - 1]);
    LessAsymmetric(u, v);
    forall j | 0 <= j < k - 1 ensures rows[j].uid != v {
      if j < k - 2 {
        assert KeyLeq(rows[j], rows[k - 2]);
      }
    }
  }

  lemma UidsUpToNext(rows: seq<Row>, k: nat)
    requires 1 <= k <= |rows|
    ensures UidsUpTo(rows, k) == UidsUpTo(rows, k - 1) + {rows[k - 1].uid}
  {
  }

  /** Rows grouped by user have one boundary fewer than users. */
  lemma {:induction false} BoundariesSorted(rows: seq<Row>, k: nat)
    requires 1 <= k <= |rows| && SortedByKey(rows)
    ensures BoundariesUpTo(rows, k) + 1 == |UidsUpTo(rows, k)|
  {
    UidsUpToNext(rows, k);
    if k == 1 {
      assert UidsUpTo(rows, 0) == {};
    } else {
      BoundariesSorted(rows, k - 1);
      if rows[k - 2].uid != rows[k - 1].uid {
        NextUidNew(rows, k);
      } else {
        assert rows[k - 2].uid in UidsUpTo(rows, k - 1);
        assert UidsUpTo(rows, k) == UidsUpTo(rows, k - 1);
      }
    }
  }

  /** The authors of the records. */
  function AuthorsOf(es: seq<Event>): set<string> {
    set e | e in es :: e.author
  }

  ghost predicate Injective(hash: string -> string) {
    forall a, b :: hash(a) == hash(b) ==> a == b
  }

  /** An injective function keeps the size of a set. */
  lemma {:induction false} ImageCard(s: set<string>, hash: string -> string)
    requires Injective(hash)
    ensures |(set a | a in s :: hash(a))| == |s|
  {
    if s != {} {
      var x :| x in s;
      ImageCard(s - {x}, hash);
      assert (set a | a in s :: hash(a)) == (set a | a in s - {x} :: hash(a)) + {hash(x)};
    }
  }

  lemma UidsAnonymise(es: seq<Event>, hash: string -> string)
    requires Injective(hash)
    ensures |Uids(SortByKey(Anonymise(es, hash)))| == |AuthorsOf(es)|
  {
    var rows := Anonymise(es, hash);
    var sorted := SortByKey(rows);
    assert |sorted| == |multiset(sorted)| == |rows|;
    forall u ensures u in UidsUpTo(sorted, |es|) <==> u in (set a | a in AuthorsOf(es) :: hash(a)) {
      if u in UidsUpTo(sorted, |es|) {
        var k :| 0 <= k < |es| && sorted[k].uid == u;
        var r := sorted[k];
        assert r in multiset(rows);
        var i :| 0 <= i < |rows| && rows[i] == r;
        assert es[i] in es;
      }
      if u in (set a | a in AuthorsOf(es) :: hash(a)) {
        var a :| a in AuthorsOf(es) && hash(a) == u;
        var e :| e in es && e.author == a;
        var i :| 0 <= i < |es| && es[i] == e;
        assert rows[i] in multiset(sorted);
      }
    }
    assert UidsUpTo(sorted, |es|) == (set a | a in AuthorsOf(es) :: hash(a));
    ImageCard(AuthorsOf(es), hash);
  }

  /**
   * The counted pairs, one per unit of weight in the saved graph, number the rows minus
   * the distinct authors, when the hash sends different authors to different uids.
   */
  lemma TotalWeight(es: seq<Event>, hash: string -> string)
    requires Injective(hash)
    ensures |SamePairs(SortByKey(Anonymise(es, hash)))| == |es| - |AuthorsOf(es)|
  {
    if es == [] {
      assert AuthorsOf(es) == {};
    } else {
      var sorted := SortByKey(Anonymise(es, hash));
      assert |sorted| == |multiset(sorted)| == |Anonymise(es, hash)|;
      PairsSplit(sorted, |sorted|);
      BoundariesSorted(sorted, |sorted|);
      UidsAnonymise(es, hash);
    }
  }

  /** The whole script up to saving the graph: the edge weights, or the error that stops the read. */
  method Run(lines: seq<Line>, hash: string -> string) returns (r: Result<map<(string, string), nat>, LoadError>)
    ensures r.Ok? <==> forall i :: 0 <= i < |lines| ==> AsEvent(lines[i]).Some?
    ensures r.Ok? ==> r.value == Weights(SamePairs(SortByKey(Anonymise(Events(lines), hash))))
    ensures r.Err? ==> exists i :: 0 <= i < |lines| && Parse(lines[i], i) == Err(r.error)
                                   && forall j :: 0 <= j < i ==> AsEvent(lines[j]).Some?
  {
    var loaded := Load(lines);
    if loaded.Err? {
      return Err(loaded.error);
    }
    var rows := Anonymise(loaded.value, hash);
    rows := SortByKey(rows);
    var w := CountPairs(rows);
    return Ok(w);
  }
}
