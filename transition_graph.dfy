/**
 * scripts/build_transition_graph.py: a directed graph over subreddits built from the
 * drift table `user_paths.csv`. Each author's rows, ordered from the oldest visit to
 * T0, form a path; nodes count the users who entered a subreddit and edges count the
 * consecutive steps between two subreddits.
 */
module TransitionGraph {
  import opened Base
  import opened StringOrder

  /** The columns of `user_paths.csv` the graph uses. */
  datatype PathsRow = PathsRow(author: string, subreddit: string, relDays: int)

  /** The CSV as read: its column names and its rows. */
  datatype Table = Table(columns: set<string>, rows: seq<PathsRow>)

  datatype Failure = MissingDateColumn | MissingColumns(missing: set<string>)

  const Required: set<string> := {"author", "subreddit", "rel_days", "comment_count"}

  /**
   * `read_csv(parse_dates=["first_ts_here"])` fails when that column is absent;
   * otherwise the run stops naming the required columns that are missing.
   */
  function CheckColumns(columns: set<string>): (f: Option<Failure>)
    ensures f == None <==> "first_ts_here" in columns && Required <= columns
    ensures f == Some(MissingDateColumn) <==> "first_ts_here" !in columns
    ensures "first_ts_here" in columns && !(Required <= columns) ==> f == Some(MissingColumns(Required - columns))
    ensures f.Some? && f.value.MissingColumns? ==> f.value.missing != {}
  {
    if "first_ts_here" !in columns then Some(MissingDateColumn)
    else if Required <= columns then None
    else
      assert Required - columns != {} by {
        var x :| x in Required && x !in columns;
        assert x in Required - columns;
      }
      Some(MissingColumns(Required - columns))
  }

  // ---------------------------------------------------------------------------
  // sort_values(["author", "rel_days"], ascending=[True, False])

  /** `x` may precede `y`: a smaller author, or the same author and at least as many days before T0. */
  predicate RowLeq(x: PathsRow, y: PathsRow) {
    Less(x.author, y.author) || (x.author == y.author && x.relDays >= y.relDays)
  }

  lemma RowLeqTransitive(x: PathsRow, y: PathsRow, z: PathsRow)
    requires RowLeq(x, y) && RowLeq(y, z)
    ensures RowLeq(x, z)
  {
    if Less(x.author, y.author) && Less(y.author, z.author) {
      LessTransitive(x.author, y.author, z.author);
    }
  }

  lemma RowLeqTotal(x: PathsRow, y: PathsRow)
    ensures RowLeq(x, y) || RowLeq(y, x)
  {
    if x.author != y.author {
      LessTotal(x.author, y.author);
    }
  }

  predicate SortedRows(s: seq<PathsRow>) {
    forall i, j :: 0 <= i < j < |s| ==> RowLeq(s[i], s[j])
  }

  function Insert(x: PathsRow, s: seq<PathsRow>): (r: seq<PathsRow>)
    requires SortedRows(s)
    ensures SortedRows(r) && multiset(r) == multiset(s) + multiset{x}
  {
    if s == [] then [x]
    else if RowLeq(x, s[0]) then
      InsertFront(x, s);
      [x] + s
    else
      var rest := Insert(x, s[1..]);
      RowLeqTotal(x, s[0]);
      InsertLater(x, s, rest);
      assert s == [s[0]] + s[1..];
      [s[0]] + rest
  }

  lemma InsertFront(x: PathsRow, s: seq<PathsRow>)
    requires SortedRows(s) && s != [] && RowLeq(x, s[0])
    ensures SortedRows([x] + s)
  {
    forall j | 0 < j < |s| ensures RowLeq(x, s[j]) {
      RowLeqTransitive(x, s[0], s[j]);
    }
  }

  lemma InsertLater(x: PathsRow, s: seq<PathsRow>, rest: seq<PathsRow>)
    requires SortedRows(s) && s != [] && RowLeq(s[0], x)
    requires SortedRows(rest) && multiset(rest) == multiset(s[1..]) + multiset{x}
    ensures SortedRows([s[0]] + rest)
  {
    forall j | 0 <= j < |rest| ensures RowLeq(s[0], rest[j]) {
      assert rest[j] in multiset(rest);
      if rest[j] != x {
        assert rest[j] in multiset(s[1..]);
        var k :| 0 <= k < |s[1..]| && s[1..][k] == rest[j];
        assert s[k + 1] == rest[j];
      }
    }
  }

  /** The sorted table: ordered by author, each author's rows by non-increasing `rel_days`. */
  function SortRows(s: seq<PathsRow>): (r: seq<PathsRow>)
    ensures SortedRows(r) && multiset(r) == multiset(s)
  {
    if s == [] then []
    else
      assert s == [s[0]] + s[1..];
      Insert(s[0], SortRows(s[1..]))
  }

  /** The rows of an author with a given `rel_days`, in their order in `s`. */
  function WithKey(s: seq<PathsRow>, author: string, relDays: int): (r: seq<PathsRow>)
    ensures forall i :: 0 <= i < |r| ==> r[i].author == author && r[i].relDays == relDays
  {
    if s == [] then []
    else (if s[0].author == author && s[0].relDays == relDays then [s[0]] else []) + WithKey(s[1..], author, relDays)
  }

  lemma WithKeyCons(a: PathsRow, rest: seq<PathsRow>, author: string, relDays: int)
    ensures WithKey([a] + rest, author, relDays)
         == (if a.author == author && a.relDays == relDays then [a] else []) + WithKey(rest, author, relDays)
  {
    assert ([a] + rest)[1..] == rest;
  }

  lemma {:induction false} InsertWithKey(x: PathsRow, s: seq<PathsRow>, author: string, relDays: int)
    requires SortedRows(s)
    ensures WithKey(Insert(x, s), author, relDays)
         == (if x.author == author && x.relDays == relDays then [x] else []) + WithKey(s, author, relDays)
  {
    if s == [] {
      WithKeyCons(x, [], author, relDays);
    } else if RowLeq(x, s[0]) {
      WithKeyCons(x, s, author, relDays);
    } else {
      assert SortedRows(s[1..]);
      InsertWithKey(x, s[1..], author, relDays);
      WithKeyCons(s[0], Insert(x, s[1..]), author, relDays);
      WithKeyCons(s[0], s[1..], author, relDays);
      assert s == [s[0]] + s[1..];
    }
  }

  /** The sort is stable: rows of one author with equal `rel_days` keep their input order. */
  lemma {:induction false} SortRowsStable(s: seq<PathsRow>, author: string, relDays: int)
    ensures WithKey(SortRows(s), author, relDays) == WithKey(s, author, relDays)
  {
    if s != [] {
      SortRowsStable(s[1..], author, relDays);
      InsertWithKey(s[0], SortRows(s[1..]), author, relDays);
    }
  }

  // ---------------------------------------------------------------------------
  // groupby("author", sort=False)

  /** The distinct authors in order of first appearance. */
  function Authors(s: seq<PathsRow>): seq<string> {
    if s == [] then []
    else
      var prefix := Authors(s[..|s| - 1]);
      if s[|s| - 1].author in prefix then prefix else prefix + [s[|s| - 1].author]
  }

  lemma {:induction false} AuthorsMember(s: seq<PathsRow>, a: string)
    ensures a in Authors(s) <==> exists i :: 0 <= i < |s| && s[i].author == a
  {
    if s != [] {
      var p := s[..|s| - 1];
      AuthorsMember(p, a);
      if exists i :: 0 <= i < |p| && p[i].author == a {
        var i :| 0 <= i < |p| && p[i].author == a;
        assert s[i].author == a;
      }
      if exists i :: 0 <= i < |s| && s[i].author == a {
        var i :| 0 <= i < |s| && s[i].author == a;
        assert i < |p| ==> p[i].author == a;
      }
    }
  }

  lemma {:induction false} AuthorsDistinct(s: seq<PathsRow>)
    ensures Distinct(Authors(s))
  {
    if s != [] {
      AuthorsDistinct(s[..|s| - 1]);
    }
  }

  /** On sorted rows the groups come in ascending author order. */
  lemma {:induction false} AuthorsAscending(s: seq<PathsRow>)
    requires SortedRows(s)
    ensures StrictlySorted(Authors(s))
  {
    if s != [] {
      var p := s[..|s| - 1];
      var last := s[|s| - 1];
      assert SortedRows(p);
      AuthorsAscending(p);
      var prefix := Authors(p);
      if last.author !in prefix {
        forall k | 0 <= k < |prefix| ensures Less(prefix[k], last.author) {
          assert prefix[k] in prefix;
          AuthorsMember(p, prefix[k]);
          var i :| 0 <= i < |p| && p[i].author == prefix[k];
          assert RowLeq(s[i], s[|s| - 1]);
        }
      }
    }
  }

  /** The rows of author `a`, in table order. */
  function RowsOf(s: seq<PathsRow>, a: string): (r: seq<PathsRow>)
    ensures forall i :: 0 <= i < |r| ==> r[i].author == a
  {
    if s == [] then []
    else (if s[0].author == a then [s[0]] else []) + RowsOf(s[1..], a)
  }

  lemma {:induction false} RowsOfMember(s: seq<PathsRow>, a: string, x: PathsRow)
    ensures x in RowsOf(s, a) <==> x in s && x.author == a
  {
    if s != [] {
      RowsOfMember(s[1..], a, x);
      assert s == [s[0]] + s[1..];
    }
  }

  lemma {:induction false} RowsOfSorted(s: seq<PathsRow>, a: string)
    requires SortedRows(s)
    ensures SortedRows(RowsOf(s, a))
  {
    if s != [] {
      assert SortedRows(s[1..]);
      RowsOfSorted(s[1..], a);
      var rest := RowsOf(s[1..], a);
      forall j | 0 <= j < |rest| ensures RowLeq(s[0], rest[j]) {
        assert rest[j] in rest;
        RowsOfMember(s[1..], a, rest[j]);
        var k :| 0 <= k < |s[1..]| && s[1..][k] == rest[j];
        assert s[k + 1] == rest[j];
      }
    }
  }

  /** On sorted rows each author's path runs from the most days before T0 to the fewest. */
  lemma RowsOfDescending(s: seq<PathsRow>, a: string)
    requires SortedRows(s)
    ensures forall i, j :: 0 <= i < j < |RowsOf(s, a)| ==> RowsOf(s, a)[i].relDays >= RowsOf(s, a)[j].relDays
  {
    RowsOfSorted(s, a);
    var r := RowsOf(s, a);
    forall i, j | 0 <= i < j < |r| ensures r[i].relDays >= r[j].relDays {
      assert RowLeq(r[i], r[j]);
      LessIrreflexive(a);
    }
  }

  function Subreddits(rows: seq<PathsRow>): (subs: seq<string>)
    ensures |subs| == |rows| && forall i :: 0 <= i < |rows| ==> subs[i] == rows[i].subreddit
  {
    seq(|rows|, i requires 0 <= i < |rows| => rows[i].subreddit)
  }

  /** One author and the subreddits of their path, in visiting order. */
  datatype Group = Group(author: string, subs: seq<string>)

  function Groups(s: seq<PathsRow>): (gs: seq<Group>)
    ensures |gs| == |Authors(s)|
    ensures forall i :: 0 <= i < |gs| ==> gs[i] == Group(Authors(s)[i], Subreddits(RowsOf(s, Authors(s)[i])))
  {
    var authors := Authors(s);
    seq(|authors|, i requires 0 <= i < |authors| => Group(authors[i], Subreddits(RowsOf(s, authors[i]))))
  }

  /** Distinct groups belong to distinct authors. */
  predicate AuthorsDiffer(gs: seq<Group>) {
    forall i, j :: 0 <= i < j < |gs| ==> gs[i].author != gs[j].author
  }

  /** The groups of a table: one per author, none empty, all authors different. */
  lemma GroupsFacts(s: seq<PathsRow>)
    ensures AuthorsDiffer(Groups(s))
    ensures forall i :: 0 <= i < |Groups(s)| ==> Groups(s)[i].subs != []
  {
    AuthorsDistinct(s);
    var gs := Groups(s);
    forall i | 0 <= i < |gs| ensures gs[i].subs != [] {
      var a := Authors(s)[i];
      AuthorsMember(s, a);
      var k :| 0 <= k < |s| && s[k].author == a;
      RowsOfMember(s, a, s[k]);
    }
  }

  // ---------------------------------------------------------------------------
  // The accumulators: defaultdict(set) as a map to sets, Counter as a multiset.

  /** A defaultdict(set) lookup: the empty set for a missing key. */
  function Get<K>(m: map<K, set<string>>, k: K): set<string> {
    if k in m then m[k] else {}
  }

  /** `m[k].add(a)` for each `k` of `keys` in turn. */
  function AddAll<K>(m: map<K, set<string>>, a: string, keys: seq<K>): map<K, set<string>> {
    if keys == [] then m
    else
      var prev := AddAll(m, a, keys[..|keys| - 1]);
      var k := keys[|keys| - 1];
      prev[k := Get(prev, k) + {a}]
  }

  lemma {:induction false} AddAllFacts<K>(m: map<K, set<string>>, a: string, keys: seq<K>, k: K)
    ensures k in AddAll(m, a, keys) <==> k in m || k in keys
    ensures Get(AddAll(m, a, keys), k) == Get(m, k) + (if k in keys then {a} else {})
  {
    if keys != [] {
      var init := keys[..|keys| - 1];
      AddAllFacts(m, a, init, k);
      assert keys == init + [keys[|keys| - 1]];
    }
  }

  lemma AddAllSnoc<K>(m: map<K, set<string>>, a: string, keys: seq<K>, k: K)
    ensures AddAll(m, a, keys + [k]) == var prev := AddAll(m, a, keys); prev[k := Get(prev, k) + {a}]
  {
    assert (keys + [k])[..|keys|] == keys;
  }

  /** `zip(subs, subs[1:])`: the consecutive steps of a path. */
  function Pairs(subs: seq<string>): (ps: seq<(string, string)>)
    ensures |ps| == if subs == [] then 0 else |subs| - 1
  {
    if |subs| < 2 then [] else [(subs[0], subs[1])] + Pairs(subs[1..])
  }

  lemma {:induction false} PairsAt(subs: seq<string>, k: nat)
    requires k + 1 < |subs|
    ensures Pairs(subs)[k] == (subs[k], subs[k + 1])
  {
    if k > 0 {
      PairsAt(subs[1..], k - 1);
    }
  }

  lemma PairsMember(subs: seq<string>, x: string, y: string)
    requires (x, y) in Pairs(subs)
    ensures x in subs && y in subs
  {
    var i :| 0 <= i < |Pairs(subs)| && Pairs(subs)[i] == (x, y);
    PairsAt(subs, i);
  }

  /** One author and the keys they register, one `add` per key. */
  datatype Visit<K> = Visit(author: string, keys: seq<K>)

  /** A defaultdict(set) after `d[k].add(v.author)` for every key of every visit in turn. */
  function Collect<K>(vs: seq<Visit<K>>): map<K, set<string>> {
    if vs == [] then map[]
    else
      var v := vs[|vs| - 1];
      AddAll(Collect(vs[..|vs| - 1]), v.author, v.keys)
  }

  /** A Counter after `c[k] += 1` for every key of every visit in turn. */
  function Tally<K>(vs: seq<Visit<K>>): multiset<K> {
    if vs == [] then multiset{} else Tally(vs[..|vs| - 1]) + multiset(vs[|vs| - 1].keys)
  }

  lemma CollectStep<K>(vs: seq<Visit<K>>, i: nat)
    requires i < |vs|
    ensures Collect(vs[..i + 1]) == AddAll(Collect(vs[..i]), vs[i].author, vs[i].keys)
    ensures Tally(vs[..i + 1]) == Tally(vs[..i]) + multiset(vs[i].keys)
  {
    assert vs[..i + 1][..i] == vs[..i];
  }

  /** A key's set holds exactly the authors of the visits that register it. */
  lemma {:induction false} CollectFacts<K>(vs: seq<Visit<K>>, k: K, x: string)
    ensures k in Collect(vs) <==> exists i :: 0 <= i < |vs| && k in vs[i].keys
    ensures x in Get(Collect(vs), k) <==> exists i :: 0 <= i < |vs| && vs[i].author == x && k in vs[i].keys
  {
    if vs != [] {
      var p, v := vs[..|vs| - 1], vs[|vs| - 1];
      CollectFacts(p, k, x);
      AddAllFacts(Collect(p), v.author, v.keys, k);
      assert forall i :: 0 <= i < |p| ==> p[i] == vs[i];
    }
  }

  /** A key is counted exactly when some visit registers it. */
  lemma {:induction false} TallyFacts<K>(vs: seq<Visit<K>>, k: K)
    ensures Tally(vs)[k] > 0 <==> exists i :: 0 <= i < |vs| && k in vs[i].keys
  {
    if vs != [] {
      var p := vs[..|vs| - 1];
      TallyFacts(p, k);
      assert forall i :: 0 <= i < |p| ==> p[i] == vs[i];
    }
  }

  /** Every author in a key's set added at least one count to it. */
  lemma {:induction false} CollectAtMostTally<K>(vs: seq<Visit<K>>, k: K)
    ensures |Get(Collect(vs), k)| <= Tally(vs)[k]
  {
    if vs != [] {
      var p, v := vs[..|vs| - 1], vs[|vs| - 1];
      CollectAtMostTally(p, k);
      AddAllFacts(Collect(p), v.author, v.keys, k);
      if k in v.keys {
        assert multiset(v.keys)[k] >= 1;
      }
    }
  }

  /** The paths as the node loop sees them. */
  function NodeVisits(gs: seq<Group>): (vs: seq<Visit<string>>)
    ensures |vs| == |gs| && forall i :: 0 <= i < |gs| ==> vs[i] == Visit(gs[i].author, gs[i].subs)
  {
    seq(|gs|, i requires 0 <= i < |gs| => Visit(gs[i].author, gs[i].subs))
  }

  /** The paths as the edge loop sees them: each author with their steps. */
  function StepVisits(gs: seq<Group>): (vs: seq<Visit<(string, string)>>)
    ensures |vs| == |gs| && forall i :: 0 <= i < |gs| ==> vs[i] == Visit(gs[i].author, Pairs(gs[i].subs))
  {
    seq(|gs|, i requires 0 <= i < |gs| => Visit(gs[i].author, Pairs(gs[i].subs)))
  }

  /** `node_users` after the given groups. */
  function NodeUsersOf(gs: seq<Group>): map<string, set<string>> {
    Collect(NodeVisits(gs))
  }

  /** `first_entries` after the given groups. */
  function FirstEntriesOf(gs: seq<Group>): multiset<string> {
    if gs == [] then multiset{}
    else FirstEntriesOf(gs[..|gs| - 1]) + FirstOf(gs[|gs| - 1].subs)
  }

  /** What one path adds to `first_entries`. */
  function FirstOf(subs: seq<string>): multiset<string> {
    if subs != [] then multiset{subs[0]} else multiset{}
  }

  /** `edge_users` after the given groups. */
  function EdgeUsersOf(gs: seq<Group>): map<(string, string), set<string>> {
    Collect(StepVisits(gs))
  }

  /** `edge_trans` after the given groups. */
  function TransOf(gs: seq<Group>): multiset<(string, string)> {
    Tally(StepVisits(gs))
  }

  /** `for s in subs: node_users[s].add(author)`. */
  method AddVisits(m: map<string, set<string>>, author: string, subs: seq<string>)
    returns (nodeUsers: map<string, set<string>>)
    ensures nodeUsers == AddAll(m, author, subs)
  {
    nodeUsers := m;
    var j := 0;
    while j < |subs|
      invariant 0 <= j <= |subs|
      invariant nodeUsers == AddAll(m, author, subs[..j])
    {
      AddAllSnoc(m, author, subs[..j], subs[j]);
      assert subs[..j + 1] == subs[..j] + [subs[j]];
      nodeUsers := nodeUsers[subs[j] := Get(nodeUsers, subs[j]) + {author}];
      j := j + 1;
    }
    assert subs[..j] == subs;
  }

  /** `if subs: first_entries[subs[0]] += 1`. */
  method CountFirst(firstEntries: multiset<string>, subs: seq<string>) returns (f: multiset<string>)
    ensures f == firstEntries + FirstOf(subs)
  {
    f := firstEntries;
    if subs != [] {
      f := f + multiset{subs[0]};
    }
  }

  /** `for src, dst in zip(subs, subs[1:])`: register the author and count the step. */
  method AddSteps(m: map<(string, string), set<string>>, trans: multiset<(string, string)>,
                  author: string, subs: seq<string>)
    returns (edgeUsers: map<(string, string), set<string>>, edgeTrans: multiset<(string, string)>)
    ensures edgeUsers == AddAll(m, author, Pairs(subs))
    ensures edgeTrans == trans + multiset(Pairs(subs))
  {
    edgeUsers, edgeTrans := m, trans;
    var k := 0;
    while k + 1 < |subs|
      invariant 0 <= k <= |Pairs(subs)|
      invariant edgeUsers == AddAll(m, author, Pairs(subs)[..k])
      invariant edgeTrans == trans + multiset(Pairs(subs)[..k])
    {
      var src, dst := subs[k], subs[k + 1];
      ghost var done := Pairs(subs)[..k];
      assert Pairs(subs)[..k + 1] == done + [(src, dst)] by {
        PairsAt(subs, k);
      }
      assert AddAll(m, author, done + [(src, dst)]) == edgeUsers[(src, dst) := Get(edgeUsers, (src, dst)) + {author}] by {
        AddAllSnoc(m, author, done, (src, dst));
      }
      assert multiset(done + [(src, dst)]) == multiset(done) + multiset{(src, dst)};
      edgeUsers := edgeUsers[(src, dst) := Get(edgeUsers, (src, dst)) + {author}];
      edgeTrans := edgeTrans + multiset{(src, dst)};
      k := k + 1;
    }
    assert Pairs(subs)[..k] == Pairs(subs);
  }

  /** The visits of a prefix of the groups are the prefix of their visits. */
  lemma VisitsPrefix(gs: seq<Group>, i: nat)
    requires i <= |gs|
    ensures NodeVisits(gs)[..i] == NodeVisits(gs[..i])
    ensures StepVisits(gs)[..i] == StepVisits(gs[..i])
  {
  }

  /** One more group extends each accumulator by that group's path. */
  lemma AccumulatorsStep(gs: seq<Group>, i: nat)
    requires i < |gs|
    ensures NodeUsersOf(gs[..i + 1]) == AddAll(NodeUsersOf(gs[..i]), gs[i].author, gs[i].subs)
    ensures FirstEntriesOf(gs[..i + 1]) == FirstEntriesOf(gs[..i]) + FirstOf(gs[i].subs)
    ensures EdgeUsersOf(gs[..i + 1]) == AddAll(EdgeUsersOf(gs[..i]), gs[i].author, Pairs(gs[i].subs))
    ensures TransOf(gs[..i + 1]) == TransOf(gs[..i]) + multiset(Pairs(gs[i].subs))
  {
    assert gs[..i + 1][..i] == gs[..i];
    VisitsPrefix(gs[..i + 1], i);
  }

  /** The per-author loop filling the four accumulators. */
  method Aggregate(gs: seq<Group>)
    returns (nodeUsers: map<string, set<string>>, firstEntries: multiset<string>,
             edgeUsers: map<(string, string), set<string>>, edgeTrans: multiset<(string, string)>)
    ensures nodeUsers == NodeUsersOf(gs)
    ensures firstEntries == FirstEntriesOf(gs)
    ensures edgeUsers == EdgeUsersOf(gs)
    ensures edgeTrans == TransOf(gs)
  {
    nodeUsers, firstEntries, edgeUsers, edgeTrans := map[], multiset{}, map[], multiset{};
    var i := 0;
    while i < |gs|
      invariant 0 <= i <= |gs|
      invariant nodeUsers == NodeUsersOf(gs[..i])
      invariant firstEntries == FirstEntriesOf(gs[..i])
      invariant edgeUsers == EdgeUsersOf(gs[..i])
      invariant edgeTrans == TransOf(gs[..i])
    {
      var author, subs := gs[i].author, gs[i].subs;
      AccumulatorsStep(gs, i);
      nodeUsers := AddVisits(nodeUsers, author, subs);
      firstEntries := CountFirst(firstEntries, subs);
      edgeUsers, edgeTrans := AddSteps(edgeUsers, edgeTrans, author, subs);
      i := i + 1;
    }
    assert gs[..i] == gs;
  }

  // ---------------------------------------------------------------------------
  // What the accumulators hold

  /** `node_users[c]` holds exactly the authors whose path visits `c`; its keys are the visited subreddits. */
  lemma NodeUsersFacts(gs: seq<Group>, c: string, x: string)
    ensures c in NodeUsersOf(gs) <==> exists i :: 0 <= i < |gs| && c in gs[i].subs
    ensures x in Get(NodeUsersOf(gs), c) <==> exists i :: 0 <= i < |gs| && gs[i].author == x && c in gs[i].subs
  {
    CollectFacts(NodeVisits(gs), c, x);
  }

  /** The path of group `g` takes step `e`. */
  predicate Takes(g: Group, e: (string, string)) {
    e in Pairs(g.subs)
  }

  /** `edge_users[e]` holds exactly the authors whose path takes step `e`. */
  lemma EdgeUsersFacts(gs: seq<Group>, e: (string, string), x: string)
    ensures e in EdgeUsersOf(gs) <==> exists i :: 0 <= i < |gs| && Takes(gs[i], e)
    ensures x in Get(EdgeUsersOf(gs), e) <==> exists i :: 0 <= i < |gs| && gs[i].author == x && Takes(gs[i], e)
  {
    CollectFacts(StepVisits(gs), e, x);
  }

  /** `edge_trans[e]` is positive exactly for the steps some path takes, the keys of `edge_users`. */
  lemma TransFacts(gs: seq<Group>, e: (string, string))
    ensures TransOf(gs)[e] > 0 <==> exists i :: 0 <= i < |gs| && Takes(gs[i], e)
  {
    TallyFacts(StepVisits(gs), e);
  }

  /** Each user of a step took it at least once: `weight_users <= weight_transitions`. */
  lemma EdgeUsersAtMostTrans(gs: seq<Group>, e: (string, string))
    ensures |Get(EdgeUsersOf(gs), e)| <= TransOf(gs)[e]
  {
    CollectAtMostTally(StepVisits(gs), e);
  }

  /** A user of step `(x, y)` visited both `x` and `y`. */
  lemma EdgeUsersWithinNodes(gs: seq<Group>, x: string, y: string)
    ensures Get(EdgeUsersOf(gs), (x, y)) <= Get(NodeUsersOf(gs), x)
    ensures Get(EdgeUsersOf(gs), (x, y)) <= Get(NodeUsersOf(gs), y)
    ensures (x, y) in EdgeUsersOf(gs) ==> x in NodeUsersOf(gs) && y in NodeUsersOf(gs)
  {
    forall u | u in Get(EdgeUsersOf(gs), (x, y))
      ensures u in Get(NodeUsersOf(gs), x) && u in Get(NodeUsersOf(gs), y)
    {
      EdgeUsersFacts(gs, (x, y), u);
      var i :| 0 <= i < |gs| && gs[i].author == u && Takes(gs[i], (x, y));
      PairsMember(gs[i].subs, x, y);
      NodeUsersFacts(gs, x, u);
      NodeUsersFacts(gs, y, u);
    }
    if (x, y) in EdgeUsersOf(gs) {
      EdgeUsersFacts(gs, (x, y), x);
      var i :| 0 <= i < |gs| && Takes(gs[i], (x, y));
      PairsMember(gs[i].subs, x, y);
      NodeUsersFacts(gs, x, x);
      NodeUsersFacts(gs, y, x);
    }
  }

  /** A later author is not among the users of the earlier groups. */
  lemma NewAuthorAbsent(gs: seq<Group>, c: string)
    requires gs != [] && AuthorsDiffer(gs)
    ensures gs[|gs| - 1].author !in Get(NodeUsersOf(gs[..|gs| - 1]), c)
  {
    var p, g := gs[..|gs| - 1], gs[|gs| - 1];
    NodeUsersFacts(p, c, g.author);
    forall i | 0 <= i < |p| ensures p[i].author != g.author {
      assert p[i] == gs[i];
    }
  }

  /** Dropping the last group keeps the authors different. */
  lemma AuthorsDifferPrefix(gs: seq<Group>)
    requires gs != [] && AuthorsDiffer(gs)
    ensures AuthorsDiffer(gs[..|gs| - 1])
  {
  }

  /** With one group per author, a subreddit is first for at most as many users as entered it. */
  lemma {:induction false} FirstEntriesAtMostUsers(gs: seq<Group>, c: string)
    requires AuthorsDiffer(gs)
    ensures FirstEntriesOf(gs)[c] <= |Get(NodeUsersOf(gs), c)|
  {
    if gs != [] {
      var i := |gs| - 1;
      var p, g := gs[..i], gs[i];
      var u, u' := Get(NodeUsersOf(p), c), Get(NodeUsersOf(gs), c);
      AuthorsDifferPrefix(gs);
      FirstEntriesAtMostUsers(p, c);
      AccumulatorsStep(gs, i);
      assert gs[..i + 1] == gs;
      AddAllFacts(NodeUsersOf(p), g.author, g.subs, c);
      assert FirstEntriesOf(gs)[c] == FirstEntriesOf(p)[c] + FirstOf(g.subs)[c];
      if g.subs != [] && g.subs[0] == c {
        NewAuthorAbsent(gs, c);
        assert u' == u + {g.author};
        assert |u'| == |u| + 1;
      } else {
        assert FirstOf(g.subs)[c] == 0;
        SubsetCard(u, u');
      }
    }
  }

  /** The groups that have a first subreddit. */
  function Started(gs: seq<Group>): nat {
    if gs == [] then 0 else Started(gs[..|gs| - 1]) + if gs[|gs| - 1].subs != [] then 1 else 0
  }

  /** `first_entries` gains exactly one count per non-empty path. */
  lemma {:induction false} FirstEntriesTotal(gs: seq<Group>)
    ensures |FirstEntriesOf(gs)| == Started(gs)
  {
    if gs != [] {
      FirstEntriesTotal(gs[..|gs| - 1]);
    }
  }

  /** `Σ (len(path) - 1)` over the non-empty paths. */
  function Steps(gs: seq<Group>): nat {
    if gs == [] then 0
    else
      var g := gs[|gs| - 1];
      Steps(gs[..|gs| - 1]) + if g.subs == [] then 0 else |g.subs| - 1
  }

  /** The total of `edge_trans` is the number of steps of all paths; a one-row path adds none. */
  lemma {:induction false} TransTotal(gs: seq<Group>)
    ensures |TransOf(gs)| == Steps(gs)
  {
    if gs != [] {
      var i := |gs| - 1;
      TransTotal(gs[..i]);
      AccumulatorsStep(gs, i);
      assert gs[..i + 1] == gs;
    }
  }

  // ---------------------------------------------------------------------------
  // The graph: networkx DiGraph attributes as maps from node and edge keys

  /** A node added by `add_node` with its attributes, or one `add_edge` created bare. */
  datatype NodeData = Bare | NodeAttrs(usersTotal: nat, firstEntries: nat)

  /** `weight` is unset until the weight loop runs. */
  datatype EdgeData = EdgeData(weightUsers: nat, weightTransitions: nat, weight: Option<nat>)

  /** `--weight users | transitions`. */
  datatype Mode = Users | Transitions

  datatype Graph = Graph(nodes: map<string, NodeData>, edges: map<(string, string), EdgeData>)

  /** The nodes after the node loop. */
  function NodesOf(nodeUsers: map<string, set<string>>, firstEntries: multiset<string>): map<string, NodeData> {
    map c | c in nodeUsers :: NodeAttrs(|nodeUsers[c]|, firstEntries[c])
  }

  /** The endpoints of a set of edges. */
  function Ends(es: set<(string, string)>): set<string> {
    (set e | e in es :: e.0) + (set e | e in es :: e.1)
  }

  /** `add_edge` creates a bare node for a missing endpoint and leaves existing nodes alone. */
  function WithEnds(nodes: map<string, NodeData>, es: set<(string, string)>): map<string, NodeData> {
    map c | c in nodes.Keys + Ends(es) :: if c in nodes then nodes[c] else Bare
  }

  /** The edges after the edge loop, before any weight is set. */
  function EdgesOf(edgeUsers: map<(string, string), set<string>>, edgeTrans: multiset<(string, string)>)
    : map<(string, string), EdgeData>
  {
    map e | e in edgeUsers :: EdgeData(|edgeUsers[e]|, edgeTrans[e], None)
  }

  /** The main weight an edge gets under a mode. */
  function Select(d: EdgeData, mode: Mode): nat {
    if mode == Users then d.weightUsers else d.weightTransitions
  }

  /** The edges after the weight loop. */
  function Weighted(edges: map<(string, string), EdgeData>, mode: Mode): map<(string, string), EdgeData> {
    map e | e in edges :: edges[e].(weight := Some(Select(edges[e], mode)))
  }

  /** The graph the script saves for the given groups. */
  function GraphOf(gs: seq<Group>, mode: Mode): Graph {
    var edgeUsers := EdgeUsersOf(gs);
    Graph(WithEnds(NodesOf(NodeUsersOf(gs), FirstEntriesOf(gs)), edgeUsers.Keys),
          Weighted(EdgesOf(edgeUsers, TransOf(gs)), mode))
  }

  /** `for sub, userset in node_users.items(): G.add_node(...)`. */
  method AddNodes(nodeUsers: map<string, set<string>>, firstEntries: multiset<string>)
    returns (nodes: map<string, NodeData>)
    ensures nodes == NodesOf(nodeUsers, firstEntries)
  {
    nodes := map[];
    var todo := nodeUsers.Keys;
    while todo != {}
      invariant todo <= nodeUsers.Keys
      invariant nodes == map c | c in nodeUsers.Keys - todo :: NodeAttrs(|nodeUsers[c]|, firstEntries[c])
      decreases |todo|
    {
      var c :| c in todo;
      nodes := nodes[c := NodeAttrs(|nodeUsers[c]|, firstEntries[c])];
      todo := todo - {c};
    }
  }

  /** `add_edge`'s effect on the nodes for one endpoint. */
  function EnsureNode(nodes: map<string, NodeData>, c: string): map<string, NodeData> {
    if c in nodes then nodes else nodes[c := Bare]
  }

  /** One more edge adds its two endpoints. */
  lemma WithEndsStep(nodes: map<string, NodeData>, done: set<(string, string)>, e: (string, string))
    ensures WithEnds(nodes, done + {e}) == EnsureNode(EnsureNode(WithEnds(nodes, done), e.0), e.1)
  {
    assert Ends(done + {e}) == Ends(done) + {e.0, e.1};
  }

  /** One more edge key in the edge map. */
  lemma EdgesOfStep(edgeUsers: map<(string, string), set<string>>, edgeTrans: multiset<(string, string)>,
                    done: set<(string, string)>, e: (string, string))
    requires done + {e} <= edgeUsers.Keys
    ensures (map k | k in done + {e} :: EdgeData(|edgeUsers[k]|, edgeTrans[k], None))
         == (map k | k in done :: EdgeData(|edgeUsers[k]|, edgeTrans[k], None))[e := EdgeData(|edgeUsers[e]|, edgeTrans[e], None)]
  {
  }

  /** `for (src, dst), userset in edge_users.items(): G.add_edge(...)`. */
  method AddEdges(nodes: map<string, NodeData>, edgeUsers: map<(string, string), set<string>>,
                  edgeTrans: multiset<(string, string)>)
    returns (nodes': map<string, NodeData>, edges: map<(string, string), EdgeData>)
    ensures nodes' == WithEnds(nodes, edgeUsers.Keys)
    ensures edges == EdgesOf(edgeUsers, edgeTrans)
  {
    nodes', edges := nodes, map[];
    var todo := edgeUsers.Keys;
    while todo != {}
      invariant todo <= edgeUsers.Keys
      invariant nodes' == WithEnds(nodes, edgeUsers.Keys - todo)
      invariant edges == map k | k in edgeUsers.Keys - todo :: EdgeData(|edgeUsers[k]|, edgeTrans[k], None)
      decreases |todo|
    {
      var e :| e in todo;
      var (src, dst) := e;
      ghost var done := edgeUsers.Keys - todo;
      WithEndsStep(nodes, done, e);
      EdgesOfStep(edgeUsers, edgeTrans, done, e);
      if src !in nodes' {
        nodes' := nodes'[src := Bare];
      }
      if dst !in nodes' {
        nodes' := nodes'[dst := Bare];
      }
      edges := edges[e := EdgeData(|edgeUsers[e]|, edgeTrans[e], None)];
      todo := todo - {e};
      assert edgeUsers.Keys - todo == done + {e};
    }
    assert edgeUsers.Keys - todo == edgeUsers.Keys;
  }

  /** `for u, v, data in G.edges(data=True): data["weight"] = ...`. */
  method SetWeights(edges: map<(string, string), EdgeData>, mode: Mode)
    returns (edges': map<(string, string), EdgeData>)
    ensures edges' == Weighted(edges, mode)
  {
    edges' := edges;
    var todo := edges.Keys;
    while todo != {}
      invariant todo <= edges.Keys && edges'.Keys == edges.Keys
      invariant forall e :: e in todo ==> edges'[e] == edges[e]
      invariant forall e :: e in edges.Keys - todo ==> edges'[e] == edges[e].(weight := Some(Select(edges[e], mode)))
      decreases |todo|
    {
      var e :| e in todo;
      var d := edges'[e];
      edges' := edges'[e := d.(weight := Some(if mode == Users then d.weightUsers else d.weightTransitions))];
      todo := todo - {e};
    }
  }

  /** The three graph loops together. */
  method BuildGraph(gs: seq<Group>, mode: Mode) returns (g: Graph)
    ensures g == GraphOf(gs, mode)
  {
    var nodeUsers, firstEntries, edgeUsers, edgeTrans := Aggregate(gs);
    var nodes := AddNodes(nodeUsers, firstEntries);
    var nodes', edges := AddEdges(nodes, edgeUsers, edgeTrans);
    edges := SetWeights(edges, mode);
    g := Graph(nodes', edges);
  }

  /** The whole script up to saving the graph. */
  method Run(t: Table, mode: Mode) returns (r: Result<Graph, Failure>)
    ensures CheckColumns(t.columns).Some? ==> r == Err(CheckColumns(t.columns).value)
    ensures CheckColumns(t.columns).None? ==> r == Ok(GraphOf(Groups(SortRows(t.rows)), mode))
  {
    var missing := CheckColumns(t.columns);
    if missing.Some? {
      return Err(missing.value);
    }
    var sorted := SortRows(t.rows);
    var g := BuildGraph(Groups(sorted), mode);
    return Ok(g);
  }

  // ---------------------------------------------------------------------------
  // The saved graph in terms of the table's rows

  /** The authors with at least one row in subreddit `c`. */
  function UsersOf(rows: seq<PathsRow>, c: string): set<string> {
    set r | r in rows && r.subreddit == c :: r.author
  }

  /** The authors of the table. */
  function AuthorSet(rows: seq<PathsRow>): set<string> {
    set r | r in rows :: r.author
  }

  /** An author's group visits `c` exactly when the author has a row in `c`. */
  lemma GroupVisits(s: seq<PathsRow>, a: string, c: string)
    ensures (exists i :: 0 <= i < |Groups(s)| && Groups(s)[i].author == a && c in Groups(s)[i].subs)
        <==> exists r :: r in s && r.author == a && r.subreddit == c
  {
    var gs := Groups(s);
    if exists i :: 0 <= i < |gs| && gs[i].author == a && c in gs[i].subs {
      var i :| 0 <= i < |gs| && gs[i].author == a && c in gs[i].subs;
      var own := RowsOf(s, a);
      var k :| 0 <= k < |own| && Subreddits(own)[k] == c;
      RowsOfMember(s, a, own[k]);
    }
    if exists r :: r in s && r.author == a && r.subreddit == c {
      var r :| r in s && r.author == a && r.subreddit == c;
      AuthorsMember(s, a);
      var j :| 0 <= j < |s| && s[j] == r;
      var i :| 0 <= i < |Authors(s)| && Authors(s)[i] == a;
      RowsOfMember(s, a, r);
      var k :| 0 <= k < |RowsOf(s, a)| && RowsOf(s, a)[k] == r;
      assert Subreddits(RowsOf(s, a))[k] == c;
      assert gs[i].author == a && c in gs[i].subs;
    }
  }

  /** Sorting keeps the rows. */
  lemma SortRowsMember(rows: seq<PathsRow>, r: PathsRow)
    ensures r in SortRows(rows) <==> r in rows
  {
    assert r in SortRows(rows) <==> r in multiset(SortRows(rows));
  }

  /** `node_users` of grouped rows: the subreddits of the rows, each with its authors. */
  lemma NodeUsersOfRows(s: seq<PathsRow>, c: string)
    ensures Get(NodeUsersOf(Groups(s)), c) == UsersOf(s, c)
    ensures c in NodeUsersOf(Groups(s)) <==> exists r :: r in s && r.subreddit == c
  {
    NodeUsersOfRowsUsers(s, c);
    NodeUsersOfRowsKeys(s, c);
  }

  lemma NodeUsersOfRowsUsers(s: seq<PathsRow>, c: string)
    ensures Get(NodeUsersOf(Groups(s)), c) == UsersOf(s, c)
  {
    var gs := Groups(s);
    forall x ensures x in Get(NodeUsersOf(gs), c) <==> x in UsersOf(s, c) {
      NodeUsersFacts(gs, c, x);
      GroupVisits(s, x, c);
      UsersOfMember(s, c, x);
    }
  }

  lemma UsersOfMember(s: seq<PathsRow>, c: string, x: string)
    ensures x in UsersOf(s, c) <==> exists r :: r in s && r.author == x && r.subreddit == c
  {
  }

  lemma NodeUsersOfRowsKeys(s: seq<PathsRow>, c: string)
    ensures c in NodeUsersOf(Groups(s)) <==> exists r :: r in s && r.subreddit == c
  {
    var gs := Groups(s);
    NodeUsersFacts(gs, c, "");
    if c in NodeUsersOf(gs) {
      var i :| 0 <= i < |gs| && c in gs[i].subs;
      NodeUsersFacts(gs, c, gs[i].author);
      GroupVisits(s, gs[i].author, c);
    }
    if exists r :: r in s && r.subreddit == c {
      var r :| r in s && r.subreddit == c;
      GroupVisits(s, r.author, c);
      NodeUsersFacts(gs, c, r.author);
    }
  }

  /** `node_users` of the sorted table: the subreddits of the rows, each with its authors. */
  lemma NodeUsersOfTable(rows: seq<PathsRow>, c: string)
    ensures Get(NodeUsersOf(Groups(SortRows(rows))), c) == UsersOf(rows, c)
    ensures c in NodeUsersOf(Groups(SortRows(rows))) <==> exists r :: r in rows && r.subreddit == c
  {
    var s := SortRows(rows);
    NodeUsersOfRows(s, c);
    forall r ensures r in s <==> r in rows {
      SortRowsMember(rows, r);
    }
    assert UsersOf(s, c) == UsersOf(rows, c);
  }

  /** Groups whose paths are all non-empty have all started. */
  lemma {:induction false} StartedAll(gs: seq<Group>)
    requires forall i :: 0 <= i < |gs| ==> gs[i].subs != []
    ensures Started(gs) == |gs|
  {
    if gs != [] {
      StartedAll(gs[..|gs| - 1]);
    }
  }

  /** The groups of the sorted table are one per author of the table. */
  lemma GroupsCount(rows: seq<PathsRow>)
    ensures |Groups(SortRows(rows))| == |AuthorSet(rows)|
  {
    var s := SortRows(rows);
    AuthorsDistinct(s);
    DistinctCard(Authors(s));
    forall a ensures a in Elems(Authors(s)) <==> a in AuthorSet(rows) {
      AuthorsMember(s, a);
      if a in AuthorSet(rows) {
        var r :| r in rows && r.author == a;
        SortRowsMember(rows, r);
      }
      if exists i :: 0 <= i < |s| && s[i].author == a {
        var i :| 0 <= i < |s| && s[i].author == a;
        SortRowsMember(rows, s[i]);
      }
    }
    assert Elems(Authors(s)) == AuthorSet(rows);
  }

  /** Every author adds one first entry: the first entries sum to the number of authors. */
  lemma FirstEntriesOfTable(rows: seq<PathsRow>)
    ensures |FirstEntriesOf(Groups(SortRows(rows)))| == |AuthorSet(rows)|
  {
    var gs := Groups(SortRows(rows));
    GroupsFacts(SortRows(rows));
    FirstEntriesTotal(gs);
    StartedAll(gs);
    GroupsCount(rows);
  }

  /** Every edge endpoint is a subreddit of the table. */
  lemma EndsAreNodes(gs: seq<Group>)
    ensures Ends(EdgeUsersOf(gs).Keys) <= NodeUsersOf(gs).Keys
  {
    forall c | c in Ends(EdgeUsersOf(gs).Keys) ensures c in NodeUsersOf(gs) {
      var e :| e in EdgeUsersOf(gs) && (c == e.0 || c == e.1);
      EdgeUsersWithinNodes(gs, e.0, e.1);
    }
  }

  /**
   * The saved nodes are the subreddits of the table, none of them bare; each counts the
   * authors who entered it and, of those, the ones for whom it was the first station.
   */
  lemma GraphNodes(rows: seq<PathsRow>, mode: Mode, c: string)
    ensures var g := GraphOf(Groups(SortRows(rows)), mode);
      && (c in g.nodes <==> exists r :: r in rows && r.subreddit == c)
      && (c in g.nodes ==>
            && g.nodes[c].NodeAttrs?
            && g.nodes[c].usersTotal == |UsersOf(rows, c)|
            && g.nodes[c].firstEntries == FirstEntriesOf(Groups(SortRows(rows)))[c]
            && g.nodes[c].firstEntries <= g.nodes[c].usersTotal)
  {
    var gs := Groups(SortRows(rows));
    EndsAreNodes(gs);
    NodeUsersOfTable(rows, c);
    GroupsFacts(SortRows(rows));
    FirstEntriesAtMostUsers(gs, c);
  }

  /**
   * The saved edges are the steps some path takes; each has at least one user, no more
   * users than transitions or than either endpoint has, and the weight the mode selects.
   */
  lemma GraphEdges(rows: seq<PathsRow>, mode: Mode, x: string, y: string)
    ensures var gs := Groups(SortRows(rows)); var g := GraphOf(gs, mode);
      && ((x, y) in g.edges <==> exists i :: 0 <= i < |gs| && Takes(gs[i], (x, y)))
      && ((x, y) in g.edges ==>
            var d := g.edges[(x, y)];
            && x in g.nodes && y in g.nodes && g.nodes[x].NodeAttrs? && g.nodes[y].NodeAttrs?
            && 1 <= d.weightUsers <= d.weightTransitions
            && d.weightTransitions == TransOf(gs)[(x, y)]
            && d.weightUsers <= g.nodes[x].usersTotal && d.weightUsers <= g.nodes[y].usersTotal
            && d.weight == Some(if mode == Users then d.weightUsers else d.weightTransitions))
  {
    var gs := Groups(SortRows(rows));
    EndsAreNodes(gs);
    EdgeUsersFacts(gs, (x, y), "");
    if (x, y) in EdgeUsersOf(gs) {
      var i :| 0 <= i < |gs| && Takes(gs[i], (x, y));
      EdgeUsersFacts(gs, (x, y), gs[i].author);
      EdgeUsersAtMostTrans(gs, (x, y));
      EdgeUsersWithinNodes(gs, x, y);
      SubsetCard(Get(EdgeUsersOf(gs), (x, y)), Get(NodeUsersOf(gs), x));
      SubsetCard(Get(EdgeUsersOf(gs), (x, y)), Get(NodeUsersOf(gs), y));
    }
  }

  // ---------------------------------------------------------------------------
  // Total transitions: one per row that is not an author's first

  /** The total length of the paths. */
  function TotalLen(gs: seq<Group>): nat {
    if gs == [] then 0 else TotalLen(gs[..|gs| - 1]) + |gs[|gs| - 1].subs|
  }

  lemma {:induction false} StepsOfStarted(gs: seq<Group>)
    requires forall i :: 0 <= i < |gs| ==> gs[i].subs != []
    ensures Steps(gs) + |gs| == TotalLen(gs)
  {
    if gs != [] {
      StepsOfStarted(gs[..|gs| - 1]);
    }
  }

  /** The rows of the listed authors. */
  function RowsOfAll(s: seq<PathsRow>, authors: seq<string>): nat {
    if authors == [] then 0 else RowsOfAll(s, authors[..|authors| - 1]) + |RowsOf(s, authors[|authors| - 1])|
  }

  lemma {:induction false} RowsOfSnoc(s: seq<PathsRow>, x: PathsRow, a: string)
    ensures RowsOf(s + [x], a) == RowsOf(s, a) + (if x.author == a then [x] else [])
  {
    if s != [] {
      assert (s + [x])[1..] == s[1..] + [x];
      RowsOfSnoc(s[1..], x, a);
    }
  }

  lemma {:induction false} RowsOfAllSnoc(s: seq<PathsRow>, x: PathsRow, authors: seq<string>)
    requires Distinct(authors)
    ensures RowsOfAll(s + [x], authors) == RowsOfAll(s, authors) + if x.author in authors then 1 else 0
  {
    if authors != [] {
      var init, a := authors[..|authors| - 1], authors[|authors| - 1];
      assert Distinct(init);
      RowsOfAllSnoc(s, x, init);
      RowsOfSnoc(s, x, a);
      assert authors == init + [a];
      if x.author == a {
        assert a !in init;
      }
    }
  }

  lemma {:induction false} RowsOfAllAuthors(s: seq<PathsRow>)
    ensures RowsOfAll(s, Authors(s)) == |s|
  {
    if s != [] {
      var p, x := s[..|s| - 1], s[|s| - 1];
      assert s == p + [x];
      RowsOfAllAuthors(p);
      AuthorsDistinct(p);
      RowsOfAllSnoc(p, x, Authors(p));
      if x.author !in Authors(p) {
        var authors := Authors(p) + [x.author];
        assert authors[..|authors| - 1] == Authors(p);
        RowsOfSnoc(p, x, x.author);
        AuthorsMember(p, x.author);
        if RowsOf(p, x.author) != [] {
          RowsOfMember(p, x.author, RowsOf(p, x.author)[0]);
          assert false;
        }
      }
    }
  }

  lemma {:induction false} TotalLenPrefix(s: seq<PathsRow>, k: nat)
    requires k <= |Authors(s)|
    ensures TotalLen(Groups(s)[..k]) == RowsOfAll(s, Authors(s)[..k])
  {
    if k > 0 {
      TotalLenPrefix(s, k - 1);
      assert Groups(s)[..k][..k - 1] == Groups(s)[..k - 1];
      assert Authors(s)[..k][..k - 1] == Authors(s)[..k - 1];
    }
  }

  /** The paths together hold every row once. */
  lemma TotalLenGroups(s: seq<PathsRow>)
    ensures TotalLen(Groups(s)) == |s|
  {
    var gs := Groups(s);
    TotalLenPrefix(s, |gs|);
    assert gs[..|gs|] == gs && Authors(s)[..|gs|] == Authors(s);
    RowsOfAllAuthors(s);
  }

  /** Summed over the saved edges, `weight_transitions` is the number of rows minus the number of authors. */
  lemma TransOfTable(rows: seq<PathsRow>)
    ensures |TransOf(Groups(SortRows(rows)))| == |rows| - |AuthorSet(rows)|
  {
    var s := SortRows(rows);
    var gs := Groups(s);
    TransTotal(gs);
    GroupsFacts(s);
    StepsOfStarted(gs);
    TotalLenGroups(s);
    assert |s| == |multiset(s)| == |multiset(rows)| == |rows|;
    GroupsCount(rows);
  }
}
