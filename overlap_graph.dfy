/**
 * scripts/make_overlap_graph.py: an undirected graph over subreddits in which two
 * subreddits are joined when enough users commented in both. Subreddits get dense
 * integer ids, each user gets the set of ids they commented in, every pair of ids of one
 * user is counted once, and the pairs that pass the shared-user and Jaccard thresholds
 * become edges.
 */
module OverlapGraph {
  import opened Base
  import opened Records

  // ---------------------------------------------------------------------------
  // sid(): sub2id and id2sub

  /** The distinct names of a sequence in order of first appearance. */
  function FirstSeen(xs: seq<string>): (r: seq<string>)
    ensures Distinct(r) && Elems(r) == Elems(xs)
  {
    if xs == [] then []
    else
      var prefix := FirstSeen(xs[..|xs| - 1]);
      var x := xs[|xs| - 1];
      assert Elems(xs) == Elems(xs[..|xs| - 1]) + {x} by {
        assert xs == xs[..|xs| - 1] + [x];
      }
      if x in prefix then prefix else prefix + [x]
  }

  lemma FirstSeenSnoc(xs: seq<string>, x: string)
    ensures FirstSeen(xs + [x]) == if x in FirstSeen(xs) then FirstSeen(xs) else FirstSeen(xs) + [x]
  {
    assert (xs + [x])[..|xs|] == xs;
  }

  /** The subreddit id table, filled on demand by `sid`. */
  class SubIds {
    var sub2id: map<string, nat>
    var id2sub: seq<string>

    /** The two tables are inverse: ids are exactly `0 .. len(id2sub) - 1`. */
    ghost predicate Valid()
      reads this
    {
      && (forall i :: 0 <= i < |id2sub| ==> id2sub[i] in sub2id && sub2id[id2sub[i]] == i)
      && (forall n :: n in sub2id ==> sub2id[n] < |id2sub| && id2sub[sub2id[n]] == n)
    }

    constructor ()
      ensures Valid() && sub2id == map[] && id2sub == []
    {
      sub2id, id2sub := map[], [];
    }

    /** `sid(name)`: the id of `name`, giving a new name the next free id. */
    method Sid(name: string) returns (id: nat)
      requires Valid()
      modifies this
      ensures Valid()
      ensures id < |id2sub| && id2sub[id] == name && sub2id[name] == id
      ensures old(name in sub2id) ==> sub2id == old(sub2id) && id2sub == old(id2sub)
      ensures old(name !in sub2id) ==> sub2id == old(sub2id)[name := id] && id2sub == old(id2sub) + [name]
    {
      if name !in sub2id {
        IdsCard();
        sub2id := sub2id[name := |sub2id|];
        id2sub := id2sub + [name];
      }
      id := sub2id[name];
    }

    /** `len(sub2id) == len(id2sub)`. */
    lemma IdsCard()
      requires Valid()
      ensures |sub2id.Keys| == |id2sub|
    {
      IdsDistinct();
      DistinctCard(id2sub);
      assert Elems(id2sub) == sub2id.Keys;
    }

    /** No name has two ids. */
    lemma IdsDistinct()
      requires Valid()
      ensures Distinct(id2sub)
    {
    }
  }

  // ---------------------------------------------------------------------------
  // The read loop: user_subs[rec["author"]].add(sid(rec["subreddit"]))

  /** The lookup that raises: `rec["author"]` is evaluated before `rec["subreddit"]`. */
  datatype KeyError = KeyError(key: string)

  /** The two fields the graph uses. */
  datatype Post = Post(author: string, subreddit: string)

  /** A line's contribution: nothing for undecodable JSON, a post, or the lookup that fails. */
  function PostOf(l: Line): (r: Result<Option<Post>, KeyError>)
    ensures r == Ok(None) <==> l.json.None?
    ensures r.Ok? && r.value.Some? <==> l.json.Some? && l.json.value.author.Some? && l.json.value.subreddit.Some?
    ensures r.Ok? && r.value.Some? ==> r.value.value == Post(l.json.value.author.value, l.json.value.subreddit.value)
    ensures r.Err? ==> r.error.key == (if l.json.value.author.None? then "author" else "subreddit")
  {
    match l.json
    case None => Ok(None)
    case Some(raw) =>
      if raw.author.None? then Err(KeyError("author"))
      else if raw.subreddit.None? then Err(KeyError("subreddit"))
      else Ok(Some(Post(raw.author.value, raw.subreddit.value)))
  }

  /** The posts of the lines read so far, or the first lookup that fails. */
  function Posts(lines: seq<Line>): (r: Result<seq<Post>, KeyError>)
    ensures r.Ok? ==> |r.value| <= |lines|
  {
    if lines == [] then Ok([])
    else
      match Posts(lines[..|lines| - 1])
      case Err(e) => Err(e)
      case Ok(ps) =>
        match PostOf(lines[|lines| - 1])
        case Err(e) => Err(e)
        case Ok(None) => Ok(ps)
        case Ok(Some(p)) => Ok(ps + [p])
  }

  /** The read fails exactly when some line that decodes lacks a key, and then with that line's error. */
  lemma {:induction false} PostsError(lines: seq<Line>)
    ensures Posts(lines).Err? <==> exists i :: 0 <= i < |lines| && PostOf(lines[i]).Err?
    ensures Posts(lines).Err? ==> exists i :: 0 <= i < |lines| && PostOf(lines[i]) == Err(Posts(lines).error)
                                             && forall j :: 0 <= j < i ==> PostOf(lines[j]).Ok?
  {
    if lines != [] {
      var p := lines[..|lines| - 1];
      PostsError(p);
      assert forall i :: 0 <= i < |p| ==> p[i] == lines[i];
    }
  }

  function Subreddits(ps: seq<Post>): (r: seq<string>)
    ensures |r| == |ps| && forall i :: 0 <= i < |ps| ==> r[i] == ps[i].subreddit
  {
    seq(|ps|, i requires 0 <= i < |ps| => ps[i].subreddit)
  }

  function Authors(ps: seq<Post>): (r: seq<string>)
    ensures |r| == |ps| && forall i :: 0 <= i < |ps| ==> r[i] == ps[i].author
  {
    seq(|ps|, i requires 0 <= i < |ps| => ps[i].author)
  }

  /** The subreddits a user commented in. */
  function SubsOf(ps: seq<Post>, u: string): set<string> {
    set p | p in ps && p.author == u :: p.subreddit
  }

  /** `user_subs` in insertion order: the users, and each user's set of subreddit ids. */
  datatype UserIndex = UserIndex(users: seq<string>, userSubs: map<string, set<nat>>)

  /**
   * `userSubs` holds the posts `ps` under the id table `id2sub`: its users are the
   * authors in order of first appearance, and an id is in a user's set exactly when it
   * names a subreddit that user commented in.
   */
  ghost predicate Indexes(x: UserIndex, ps: seq<Post>, id2sub: seq<string>) {
    && x.users == FirstSeen(Authors(ps))
    && x.userSubs.Keys == Elems(x.users)
    && forall u, k: nat :: u in x.userSubs ==> (k in x.userSubs[u] <==> k < |id2sub| && id2sub[k] in SubsOf(ps, u))
  }

  /** One more line: the posts grow by that line's post, if it has one. */
  lemma PostsStep(lines: seq<Line>, i: nat)
    requires i < |lines| && Posts(lines[..i]).Ok?
    ensures Posts(lines[..i + 1]) == match PostOf(lines[i])
                                     case Err(e) => Err(e)
                                     case Ok(None) => Posts(lines[..i])
                                     case Ok(Some(p)) => Ok(Posts(lines[..i]).value + [p])
  {
    assert lines[..i + 1][..i] == lines[..i];
  }

  lemma PostsSnoc(ps: seq<Post>, p: Post)
    ensures Authors(ps + [p]) == Authors(ps) + [p.author]
    ensures Subreddits(ps + [p]) == Subreddits(ps) + [p.subreddit]
    ensures forall u :: SubsOf(ps + [p], u) == SubsOf(ps, u) + (if u == p.author then {p.subreddit} else {})
  {
    forall u ensures SubsOf(ps + [p], u) == SubsOf(ps, u) + (if u == p.author then {p.subreddit} else {}) {
      assert forall q :: q in ps + [p] <==> q in ps || q == p;
    }
  }

  /** `user_subs[author].add(id)`, with the defaultdict creating a missing entry. */
  function Add(x: UserIndex, author: string, id: nat): UserIndex {
    if author in x.userSubs then UserIndex(x.users, x.userSubs[author := x.userSubs[author] + {id}])
    else UserIndex(x.users + [author], x.userSubs[author := {id}])
  }

  /** A subreddit a user commented in is one of the posts' subreddits. */
  lemma SubsOfWithin(ps: seq<Post>, u: string)
    ensures SubsOf(ps, u) <= Elems(Subreddits(ps))
  {
    forall c | c in SubsOf(ps, u) ensures c in Elems(Subreddits(ps)) {
      var q :| q in ps && q.author == u && q.subreddit == c;
      var i :| 0 <= i < |ps| && ps[i] == q;
      assert Subreddits(ps)[i] == c;
    }
  }

  /** Authors without an entry have no posts. */
  lemma NoEntryNoSubs(x: UserIndex, ps: seq<Post>, u: string)
    requires x.users == FirstSeen(Authors(ps)) && x.userSubs.Keys == Elems(x.users) && u !in x.userSubs
    ensures SubsOf(ps, u) == {}
  {
    if q :| q in ps && q.author == u {
      var i :| 0 <= i < |ps| && ps[i] == q;
      assert Authors(ps)[i] == u;
    }
  }

  /**
   * One entry of the index after one more post: `before` holds the ids naming the
   * subreddits `subs`, and the post adds id `k0` of subreddit `sub` when it is `mine`.
   */
  lemma EntryStep(before: set<nat>, subs: set<string>, id2sub: seq<string>, id2sub': seq<string>,
                  k0: nat, sub: string, mine: bool, k: nat)
    requires forall j: nat :: j in before <==> j < |id2sub| && id2sub[j] in subs
    requires subs <= Elems(id2sub) && Distinct(id2sub')
    requires id2sub' == id2sub || (sub !in id2sub && id2sub' == id2sub + [sub])
    requires k0 < |id2sub'| && id2sub'[k0] == sub
    ensures k in before + (if mine then {k0} else {})
        <==> k < |id2sub'| && id2sub'[k] in subs + (if mine then {sub} else {})
  {
    if k < |id2sub| {
      assert id2sub'[k] == id2sub[k];
      if k != k0 {
        assert id2sub'[k] != sub;
      }
    } else if k < |id2sub'| {
      assert k == k0 && id2sub'[k] !in subs;
    }
  }

  /** One more post keeps the users of the index in step with the posts. */
  lemma UsersStep(x: UserIndex, ps: seq<Post>, p: Post, k0: nat)
    requires x.users == FirstSeen(Authors(ps)) && x.userSubs.Keys == Elems(x.users)
    ensures Add(x, p.author, k0).users == FirstSeen(Authors(ps + [p]))
    ensures Add(x, p.author, k0).userSubs.Keys == Elems(Add(x, p.author, k0).users)
  {
    PostsSnoc(ps, p);
    FirstSeenSnoc(Authors(ps), p.author);
  }

  /** One more post keeps the entries of the index in step with the posts. */
  lemma EntriesStep(x: UserIndex, ps: seq<Post>, id2sub: seq<string>, p: Post, k0: nat, id2sub': seq<string>, u: string)
    requires Indexes(x, ps, id2sub) && Elems(id2sub) == Elems(Subreddits(ps)) && Distinct(id2sub')
    requires id2sub' == id2sub || (p.subreddit !in id2sub && id2sub' == id2sub + [p.subreddit])
    requires k0 < |id2sub'| && id2sub'[k0] == p.subreddit
    requires u in Add(x, p.author, k0).userSubs
    ensures forall k: nat :: k in Add(x, p.author, k0).userSubs[u] <==> k < |id2sub'| && id2sub'[k] in SubsOf(ps + [p], u)
  {
    var before := if u in x.userSubs then x.userSubs[u] else {};
    forall j: nat ensures j in before <==> j < |id2sub| && id2sub[j] in SubsOf(ps, u) {
      if u !in x.userSubs {
        NoEntryNoSubs(x, ps, u);
      }
    }
    SubsOfWithin(ps, u);
    PostsSnoc(ps, p);
    var after := Add(x, p.author, k0).userSubs[u];
    var subs' := SubsOf(ps + [p], u);
    assert subs' == SubsOf(ps, u) + (if u == p.author then {p.subreddit} else {});
    assert after == before + (if u == p.author then {k0} else {});
    forall k: nat ensures k in after <==> k < |id2sub'| && id2sub'[k] in subs' {
      EntryStep(before, SubsOf(ps, u), id2sub, id2sub', k0, p.subreddit, u == p.author, k);
    }
  }

  /** One more post keeps the index in step with the posts. */
  lemma IndexesStep(x: UserIndex, ps: seq<Post>, id2sub: seq<string>, p: Post, k0: nat, id2sub': seq<string>)
    requires Indexes(x, ps, id2sub) && Elems(id2sub) == Elems(Subreddits(ps)) && Distinct(id2sub')
    requires id2sub' == id2sub || (p.subreddit !in id2sub && id2sub' == id2sub + [p.subreddit])
    requires k0 < |id2sub'| && id2sub'[k0] == p.subreddit
    ensures Indexes(Add(x, p.author, k0), ps + [p], id2sub')
  {
    var y := Add(x, p.author, k0);
    UsersStep(x, ps, p, k0);
    forall u | u in y.userSubs
      ensures forall k: nat :: k in y.userSubs[u] <==> k < |id2sub'| && id2sub'[k] in SubsOf(ps + [p], u)
    {
      EntriesStep(x, ps, id2sub, p, k0, id2sub', u);
    }
  }

  /** One post of the read loop: `sid` of its subreddit, then the add to its author's set. */
  method IndexPost(x: UserIndex, ghost ps: seq<Post>, p: Post, ids: SubIds) returns (y: UserIndex)
    requires ids.Valid() && ids.id2sub == FirstSeen(Subreddits(ps)) && Indexes(x, ps, ids.id2sub)
    modifies ids
    ensures ids.Valid() && ids.id2sub == FirstSeen(Subreddits(ps + [p])) && Indexes(y, ps + [p], ids.id2sub)
  {
    ghost var before := ids.id2sub;
    var k := ids.Sid(p.subreddit);
    ids.IdsDistinct();
    PostsSnoc(ps, p);
    FirstSeenSnoc(Subreddits(ps), p.subreddit);
    IndexesStep(x, ps, before, p, k, ids.id2sub);
    y := Add(x, p.author, k);
  }

  /**
   * The read loop: posts are indexed with fresh ids in first-seen order; an undecodable
   * line is skipped and a missing key stops the run.
   */
  method Index(lines: seq<Line>, ids: SubIds) returns (r: Result<UserIndex, KeyError>)
    requires ids.Valid() && ids.id2sub == []
    modifies ids
    ensures ids.Valid()
    ensures r.Err? <==> Posts(lines).Err?
    ensures r.Err? ==> r.error == Posts(lines).error
    ensures r.Ok? ==> ids.id2sub == FirstSeen(Subreddits(Posts(lines).value))
                      && Indexes(r.value, Posts(lines).value, ids.id2sub)
  {
    var x := UserIndex([], map[]);
    var i := 0;
    while i < |lines|
      invariant 0 <= i <= |lines|
      invariant ids.Valid() && Posts(lines[..i]).Ok?
      invariant ids.id2sub == FirstSeen(Subreddits(Posts(lines[..i]).value))
      invariant Indexes(x, Posts(lines[..i]).value, ids.id2sub)
    {
      PostsStep(lines, i);
      match PostOf(lines[i]) {
        case Err(e) =>
          PostsErrorStays(lines, i + 1);
          return Err(e);
        case Ok(None) =>
        case Ok(Some(p)) =>
          x := IndexPost(x, Posts(lines[..i]).value, p, ids);
      }
      i := i + 1;
    }
    assert lines[..i] == lines;
    return Ok(x);
  }

  /** Once a lookup has failed, later lines do not change the outcome. */
  lemma {:induction false} PostsErrorStays(lines: seq<Line>, i: nat)
    requires i <= |lines| && Posts(lines[..i]).Err?
    ensures Posts(lines) == Posts(lines[..i])
  {
    if i < |lines| {
      var n := |lines|;
      assert lines[..n - 1][..i] == lines[..i];
      PostsErrorStays(lines[..n - 1], i);
    } else {
      assert lines[..i] == lines;
    }
  }

  /** The ids naming subreddits in `subs`. */
  function IdsOf(id2sub: seq<string>, subs: set<string>): set<nat> {
    set k: nat | k < |id2sub| && id2sub[k] in subs
  }

  /** The index the read loop builds from the posts `ps`. */
  function IndexOf(ps: seq<Post>): UserIndex {
    var users := FirstSeen(Authors(ps));
    UserIndex(users, map u | u in Elems(users) :: IdsOf(FirstSeen(Subreddits(ps)), SubsOf(ps, u)))
  }

  /** `Indexes` pins the index down: only `IndexOf` satisfies it. */
  lemma IndexesUnique(x: UserIndex, ps: seq<Post>)
    requires Indexes(x, ps, FirstSeen(Subreddits(ps)))
    ensures x == IndexOf(ps)
  {
    var y := IndexOf(ps);
    var id2sub := FirstSeen(Subreddits(ps));
    assert x.userSubs.Keys == y.userSubs.Keys;
    forall u | u in x.userSubs ensures x.userSubs[u] == y.userSubs[u] {
      var ids := IdsOf(id2sub, SubsOf(ps, u));
      assert y.userSubs[u] == ids;
      forall k: nat ensures k in x.userSubs[u] <==> k in ids {
        assert k in x.userSubs[u] <==> k < |id2sub| && id2sub[k] in SubsOf(ps, u);
        assert k in ids <==> k < |id2sub| && id2sub[k] in SubsOf(ps, u);
      }
      assert forall k :: k in x.userSubs[u] ==> k >= 0;
    }
    assert x.userSubs == y.userSubs;
  }

  // ---------------------------------------------------------------------------
  // Overlap counting: sub_usercount, edge_cnt and pair_updates

  /** `user_subs.values()`: the users' id sets in insertion order. */
  function Values(x: UserIndex): (r: seq<set<nat>>)
    ensures |r| == |x.users|
  {
    seq(|x.users|, i requires 0 <= i < |x.users| =>
      if x.users[i] in x.userSubs then x.userSubs[x.users[i]] else {})
  }

  /** The unordered pairs of a set of ids, each written smaller id first. */
  function UPairs(s: set<nat>): set<(nat, nat)> {
    set a, b | a in s && b in s && a < b :: (a, b)
  }

  /** `sub_usercount` after the users `vals`: every user counts once for each of their ids. */
  function SubTally(vals: seq<set<nat>>): multiset<nat> {
    if vals == [] then multiset{}
    else SubTally(vals[..|vals| - 1]) + multiset(vals[|vals| - 1])
  }

  /** `edge_cnt` after the users `vals`: every user counts once for each pair of their ids. */
  function EdgeTally(vals: seq<set<nat>>): multiset<(nat, nat)> {
    if vals == [] then multiset{}
    else EdgeTally(vals[..|vals| - 1]) + multiset(UPairs(vals[|vals| - 1]))
  }

  /** `itertools.combinations(xs, 2)`: every pair of positions `i < j`, in lexicographic order. */
  function Combinations(xs: seq<nat>): seq<(nat, nat)> {
    if xs == [] then [] else Heads(xs[0], xs[1..]) + Combinations(xs[1..])
  }

  /** The pairs `(x, y)` for `y` in `ys`. */
  function Heads(x: nat, ys: seq<nat>): (r: seq<(nat, nat)>)
    ensures |r| == |ys| && forall j :: 0 <= j < |ys| ==> r[j] == (x, ys[j])
  {
    seq(|ys|, j requires 0 <= j < |ys| => (x, ys[j]))
  }

  /** `if a > b: a, b = b, a`. */
  function Norm(e: (nat, nat)): (r: (nat, nat))
    ensures r.0 <= r.1 && {r.0, r.1} == {e.0, e.1}
  {
    if e.0 > e.1 then (e.1, e.0) else e
  }

  /** Every pair of a sequence, normalised. */
  function Normed(cs: seq<(nat, nat)>): (r: seq<(nat, nat)>)
    ensures |r| == |cs| && forall j :: 0 <= j < |cs| ==> r[j] == Norm(cs[j])
  {
    seq(|cs|, j requires 0 <= j < |cs| => Norm(cs[j]))
  }

  lemma NormedAppend(a: seq<(nat, nat)>, b: seq<(nat, nat)>)
    ensures Normed(a + b) == Normed(a) + Normed(b)
  {
  }

  lemma DistinctAppend<T>(a: seq<T>, b: seq<T>)
    requires Distinct(a) && Distinct(b) && Elems(a) !! Elems(b)
    ensures Distinct(a + b)
  {
    forall i, j | 0 <= i < j < |a + b| ensures (a + b)[i] != (a + b)[j] {
      if i < |a| && j >= |a| {
        assert (a + b)[i] in Elems(a) && (a + b)[j] in Elems(b);
      }
    }
  }

  /** The normalised pairs with `x` and an element of `ys`. */
  lemma HeadsPairs(x: nat, ys: seq<nat>)
    requires Distinct([x] + ys)
    ensures Distinct(Normed(Heads(x, ys)))
    ensures Elems(Normed(Heads(x, ys))) == set y | y in ys :: Norm((x, y))
  {
    var n := Normed(Heads(x, ys));
    forall i, j | 0 <= i < j < |n| ensures n[i] != n[j] {
      assert ([x] + ys)[0] == x && ([x] + ys)[i + 1] == ys[i] && ([x] + ys)[j + 1] == ys[j];
      assert x != ys[i] && x != ys[j] && ys[i] != ys[j];
    }
    assert forall y :: y in ys <==> exists j :: 0 <= j < |ys| && ys[j] == y;
  }

  /**
   * For distinct ids, the normalised combinations are every unordered pair exactly once:
   * `list(subs)` has no repeats, so no pair is counted twice for one user.
   */
  lemma {:induction false} CombinationsPairs(xs: seq<nat>)
    requires Distinct(xs)
    ensures Distinct(Normed(Combinations(xs)))
    ensures Elems(Normed(Combinations(xs))) == UPairs(Elems(xs))
  {
    if xs != [] {
      var x, r := xs[0], xs[1..];
      assert xs == [x] + r;
      assert Distinct(r) by {
        forall i, j | 0 <= i < j < |r| ensures r[i] != r[j] {
          assert r[i] == xs[i + 1] && r[j] == xs[j + 1];
        }
      }
      CombinationsPairs(r);
      HeadsPairs(x, r);
      NormedAppend(Heads(x, r), Combinations(r));
      var hs := set y | y in r :: Norm((x, y));
      assert x !in Elems(r);
      assert Elems(Normed(Heads(x, r))) !! Elems(Normed(Combinations(r))) by {
        forall e | e in hs ensures e !in UPairs(Elems(r)) {
          var y :| y in r && e == Norm((x, y));
        }
      }
      DistinctAppend(Normed(Heads(x, r)), Normed(Combinations(r)));
      assert Elems(Normed(Combinations(xs))) == hs + UPairs(Elems(r));
      PairsSplit(x, r);
    }
  }

  /** The pairs of `{x} + rest` are the pairs with `x` and the pairs of `rest`. */
  lemma PairsSplit(x: nat, r: seq<nat>)
    ensures UPairs(Elems([x] + r)) == (set y | y in r && y != x :: Norm((x, y))) + UPairs(Elems(r))
  {
    var s := Elems([x] + r);
    assert s == {x} + Elems(r);
    forall e | e in UPairs(s) ensures e in (set y | y in r && y != x :: Norm((x, y))) + UPairs(Elems(r)) {
      var a, b :| a in s && b in s && a < b && e == (a, b);
      if a == x {
        assert e == Norm((x, b));
      } else if b == x {
        assert e == Norm((x, a));
      }
    }
  }

  /** `list(subs)`: the ids of a set in some order, each once. */
  method ListOf(s: set<nat>) returns (xs: seq<nat>)
    ensures Distinct(xs) && Elems(xs) == s
  {
    xs := [];
    var rest := s;
    while rest != {}
      invariant Distinct(xs) && Elems(xs) + rest == s && Elems(xs) !! rest
      decreases |rest|
    {
      var y :| y in rest;
      xs := xs + [y];
      rest := rest - {y};
    }
  }

  /** Fewer than two ids have no pairs. */
  lemma FewIds(xs: seq<nat>)
    requires |xs| < 2
    ensures Combinations(xs) == []
  {
    if xs != [] {
      assert xs[1..] == [];
    }
  }

  /** `for s in subs: sub_usercount[s] += 1`. */
  method CountSubs(subCount: multiset<nat>, xs: seq<nat>) returns (subCount': multiset<nat>)
    ensures subCount' == subCount + multiset(xs)
  {
    subCount' := subCount;
    for i := 0 to |xs|
      invariant subCount' == subCount + multiset(xs[..i])
    {
      assert xs[..i + 1] == xs[..i] + [xs[i]];
      subCount' := subCount' + multiset{xs[i]};
    }
    assert xs[..|xs|] == xs;
  }

  /** The combinations loop: each pair, smaller id first, counted in `edge_cnt` and `pair_updates`. */
  method CountCombinations(edgeCnt: multiset<(nat, nat)>, pairUpdates: nat, xs: seq<nat>)
    returns (edgeCnt': multiset<(nat, nat)>, pairUpdates': nat)
    ensures edgeCnt' == edgeCnt + multiset(Normed(Combinations(xs)))
    ensures pairUpdates' == pairUpdates + |Combinations(xs)|
  {
    edgeCnt', pairUpdates' := edgeCnt, pairUpdates;
    var cs := Combinations(xs);
    ghost var ns := Normed(cs);
    for k := 0 to |cs|
      invariant edgeCnt' == edgeCnt + multiset(ns[..k])
      invariant pairUpdates' == pairUpdates + k
    {
      var (a, b) := cs[k];
      if a > b {
        a, b := b, a;
      }
      assert ns[..k + 1] == ns[..k] + [(a, b)];
      edgeCnt' := edgeCnt' + multiset{(a, b)};
      pairUpdates' := pairUpdates' + 1;
    }
    assert ns[..|cs|] == ns;
  }

  /**
   * One user of the counting loop: each of their ids counts once in `sub_usercount`, and
   * each unordered pair of their ids once in `edge_cnt` and in `pair_updates`.
   */
  method CountUser(subCount: multiset<nat>, edgeCnt: multiset<(nat, nat)>, pairUpdates: nat, subs: set<nat>)
    returns (subCount': multiset<nat>, edgeCnt': multiset<(nat, nat)>, pairUpdates': nat)
    ensures subCount' == subCount + multiset(subs)
    ensures edgeCnt' == edgeCnt + multiset(UPairs(subs))
    ensures pairUpdates' == pairUpdates + |UPairs(subs)|
  {
    var xs := ListOf(subs);
    subCount' := CountSubs(subCount, xs);
    DistinctMultiset(xs);
    CombinationsPairs(xs);
    edgeCnt', pairUpdates' := edgeCnt, pairUpdates;
    if |xs| < 2 {
      FewIds(xs);
      assert UPairs(subs) == {};
      return;
    }
    edgeCnt', pairUpdates' := CountCombinations(edgeCnt, pairUpdates, xs);
    DistinctMultiset(Normed(Combinations(xs)));
    DistinctCard(Normed(Combinations(xs)));
  }

  /** The counting loop over `user_subs.values()`. */
  method CountOverlaps(vals: seq<set<nat>>) returns (subCount: multiset<nat>, edgeCnt: multiset<(nat, nat)>, pairUpdates: nat)
    ensures subCount == SubTally(vals) && edgeCnt == EdgeTally(vals)
    ensures pairUpdates == |edgeCnt|
  {
    subCount, edgeCnt, pairUpdates := multiset{}, multiset{}, 0;
    for i := 0 to |vals|
      invariant subCount == SubTally(vals[..i]) && edgeCnt == EdgeTally(vals[..i])
      invariant pairUpdates == |edgeCnt|
    {
      assert vals[..i + 1][..i] == vals[..i];
      subCount, edgeCnt, pairUpdates := CountUser(subCount, edgeCnt, pairUpdates, vals[i]);
    }
    assert vals[..|vals|] == vals;
  }

  /** The users (positions of `vals`) whose set holds id `s`. */
  function Holding(vals: seq<set<nat>>, s: nat): set<nat> {
    set i: nat | i < |vals| && s in vals[i]
  }

  /** The users whose set holds both `a` and `b`. */
  function HoldingBoth(vals: seq<set<nat>>, a: nat, b: nat): set<nat> {
    set i: nat | i < |vals| && a in vals[i] && b in vals[i]
  }

  /** `sub_usercount[s]` is the number of users with `s` in their set. */
  lemma {:induction false} SubTallyCount(vals: seq<set<nat>>, s: nat)
    ensures SubTally(vals)[s] == |Holding(vals, s)|
  {
    if vals != [] {
      var n := |vals| - 1;
      SubTallyCount(vals[..n], s);
      assert Holding(vals, s) == Holding(vals[..n], s) + (if s in vals[n] then {n} else {});
    }
  }

  /** `edge_cnt[(a, b)]` is the number of users with both ids, for `a < b`, and 0 otherwise. */
  lemma {:induction false} EdgeTallyCount(vals: seq<set<nat>>, a: nat, b: nat)
    ensures EdgeTally(vals)[(a, b)] == if a < b then |HoldingBoth(vals, a, b)| else 0
  {
    if vals != [] {
      var n := |vals| - 1;
      EdgeTallyCount(vals[..n], a, b);
      assert (a, b) in UPairs(vals[n]) <==> a < b && a in vals[n] && b in vals[n];
      assert HoldingBoth(vals, a, b) == HoldingBoth(vals[..n], a, b) + (if a in vals[n] && b in vals[n] then {n} else {});
    }
  }

  /**
   * A pair's overlap is at most either id's user count, so the Jaccard denominator
   * `sub_usercount[a] + sub_usercount[b] - overlap` is at least the overlap.
   */
  lemma OverlapBound(vals: seq<set<nat>>, a: nat, b: nat)
    ensures EdgeTally(vals)[(a, b)] <= SubTally(vals)[a]
    ensures EdgeTally(vals)[(a, b)] <= SubTally(vals)[b]
    ensures SubTally(vals)[a] + SubTally(vals)[b] - EdgeTally(vals)[(a, b)] >= EdgeTally(vals)[(a, b)]
  {
    EdgeTallyCount(vals, a, b);
    SubTallyCount(vals, a);
    SubTallyCount(vals, b);
    SubsetCard(HoldingBoth(vals, a, b), Holding(vals, a));
    SubsetCard(HoldingBoth(vals, a, b), Holding(vals, b));
    if a < b {
      SubsetCard(HoldingBoth(vals, a, b), Holding(vals, b));
    }
  }

  /** Counted pairs are written smaller id first, with ids that some user holds. */
  lemma {:induction false} EdgeTallyIds(vals: seq<set<nat>>, n: nat)
    requires forall i, k :: 0 <= i < |vals| && k in vals[i] ==> k < n
    ensures forall e :: e in EdgeTally(vals) ==> e.0 < e.1 < n
  {
    if vals != [] {
      EdgeTallyIds(vals[..|vals| - 1], n);
    }
  }

  // ---------------------------------------------------------------------------
  // From ids and positions back to subreddits and users

  /** The distinct authors who commented in subreddit `c`. */
  function Commenters(ps: seq<Post>, c: string): set<string> {
    set p | p in ps && p.subreddit == c :: p.author
  }

  /** A user's id set holds `k` exactly when the user commented in the subreddit with id `k`. */
  lemma ValuesAt(ps: seq<Post>, i: nat, k: nat)
    requires i < |FirstSeen(Authors(ps))|
    ensures var id2sub := FirstSeen(Subreddits(ps));
            k in Values(IndexOf(ps))[i] <==> k < |id2sub| && FirstSeen(Authors(ps))[i] in Commenters(ps, id2sub[k])
  {
    var users := FirstSeen(Authors(ps));
    var id2sub := FirstSeen(Subreddits(ps));
    var u := users[i];
    assert u in Elems(users);
    assert Values(IndexOf(ps))[i] == IdsOf(id2sub, SubsOf(ps, u));
    if k < |id2sub| {
      assert id2sub[k] in SubsOf(ps, u) <==> u in Commenters(ps, id2sub[k]);
    }
  }

  /** Every commenter is one of the index's users. */
  lemma CommentersAreUsers(ps: seq<Post>, c: string)
    ensures Commenters(ps, c) <= Elems(FirstSeen(Authors(ps)))
  {
    forall u | u in Commenters(ps, c) ensures u in Elems(Authors(ps)) {
      var p :| p in ps && p.subreddit == c && p.author == u;
      var i :| 0 <= i < |ps| && ps[i] == p;
      assert Authors(ps)[i] == u;
    }
  }

  /** Distinct users: a set of positions has as many users as positions. */
  lemma {:induction false} PositionsCard(users: seq<string>, ps: set<nat>)
    requires Distinct(users) && forall i :: i in ps ==> i < |users|
    ensures |(set i | i in ps :: users[i])| == |ps|
  {
    if ps != {} {
      var x :| x in ps;
      PositionsCard(users, ps - {x});
      assert (set i | i in ps :: users[i]) == (set i | i in ps - {x} :: users[i]) + {users[x]};
      assert users[x] !in (set i | i in ps - {x} :: users[i]);
    }
  }

  /** Positions picked by membership of their user in `c` are as many as `c`'s users. */
  lemma PickedCard(users: seq<string>, picked: set<nat>, c: set<string>)
    requires Distinct(users) && c <= Elems(users)
    requires forall i :: i in picked ==> i < |users|
    requires forall i :: 0 <= i < |users| ==> (i in picked <==> users[i] in c)
    ensures |picked| == |c|
  {
    PositionsCard(users, picked);
    var image := set i | i in picked :: users[i];
    forall u | u in c ensures u in image {
      var i :| 0 <= i < |users| && users[i] == u;
    }
    assert image == c;
  }

  /** The users holding id `a` are the commenters of subreddit `a`. */
  lemma HoldersAreCommenters(ps: seq<Post>, a: nat)
    requires a < |FirstSeen(Subreddits(ps))|
    ensures |Holding(Values(IndexOf(ps)), a)| == |Commenters(ps, FirstSeen(Subreddits(ps))[a])|
  {
    var users := FirstSeen(Authors(ps));
    var c := Commenters(ps, FirstSeen(Subreddits(ps))[a]);
    CommentersAreUsers(ps, FirstSeen(Subreddits(ps))[a]);
    forall i | 0 <= i < |users| ensures i in Holding(Values(IndexOf(ps)), a) <==> users[i] in c {
      ValuesAt(ps, i, a);
    }
    PickedCard(users, Holding(Values(IndexOf(ps)), a), c);
  }

  /** The users holding ids `a` and `b` are the users who commented in both subreddits. */
  lemma SharersAreCommenters(ps: seq<Post>, a: nat, b: nat)
    requires a < |FirstSeen(Subreddits(ps))| && b < |FirstSeen(Subreddits(ps))|
    ensures var id2sub := FirstSeen(Subreddits(ps));
            |HoldingBoth(Values(IndexOf(ps)), a, b)| == |Commenters(ps, id2sub[a]) * Commenters(ps, id2sub[b])|
  {
    var users := FirstSeen(Authors(ps));
    var id2sub := FirstSeen(Subreddits(ps));
    var c := Commenters(ps, id2sub[a]) * Commenters(ps, id2sub[b]);
    CommentersAreUsers(ps, id2sub[a]);
    forall i | 0 <= i < |users| ensures i in HoldingBoth(Values(IndexOf(ps)), a, b) <==> users[i] in c {
      ValuesAt(ps, i, a);
      ValuesAt(ps, i, b);
    }
    PickedCard(users, HoldingBoth(Values(IndexOf(ps)), a, b), c);
  }

  // ---------------------------------------------------------------------------
  // Filter and graph build

  /**
   * The attributes of a kept edge: `weight` is the overlap, and the Jaccard index is
   * kept as the exact fraction `overlap / union`.
   */
  datatype OverlapEdge = OverlapEdge(weight: nat, overlap: nat, union: nat)

  /**
   * The thresholds: `--weight-min`, and `--jaccard-min` as the fraction `jNum / jDen`.
   */
  datatype Thresholds = Thresholds(wMin: int, jNum: int, jDen: nat)

  /** The shared-user threshold holds and `overlap / union < J_MIN` does not. */
  predicate Passes(overlap: nat, union: nat, t: Thresholds)
    requires t.jDen > 0
  {
    overlap >= t.wMin && !(overlap * t.jDen < t.jNum * union)
  }

  /** The undirected edge of a pair of ids. */
  function Key(id2sub: seq<string>, e: (nat, nat)): set<string>
    requires e.0 < |id2sub| && e.1 < |id2sub|
  {
    {id2sub[e.0], id2sub[e.1]}
  }

  /** Distinct pairs, smaller id first, name distinct edges. */
  lemma KeyInjective(id2sub: seq<string>, e: (nat, nat), f: (nat, nat))
    requires Distinct(id2sub) && e.0 < e.1 < |id2sub| && f.0 < f.1 < |id2sub|
    requires Key(id2sub, e) == Key(id2sub, f)
    ensures e == f
  {
    assert id2sub[e.0] in Key(id2sub, f) && id2sub[e.1] in Key(id2sub, f);
    assert id2sub[f.0] in Key(id2sub, e) && id2sub[f.1] in Key(id2sub, e);
  }

  /** The id pairs counted, each carrying its overlap and its ids' user counts. */
  ghost predicate Counted(edgeCnt: multiset<(nat, nat)>, subCount: multiset<nat>, n: nat) {
    forall e :: e in edgeCnt ==> e.0 < e.1 < n && edgeCnt[e] <= subCount[e.0] && edgeCnt[e] <= subCount[e.1]
  }

  /** The union of a counted pair's user sets, `sub_usercount[a] + sub_usercount[b] - overlap`. */
  function UnionOf(edgeCnt: multiset<(nat, nat)>, subCount: multiset<nat>, e: (nat, nat)): nat
    requires edgeCnt[e] <= subCount[e.0]
  {
    subCount[e.0] + subCount[e.1] - edgeCnt[e]
  }

  /** The edge a counted pair passing the thresholds gets. */
  function EdgeOf(edgeCnt: multiset<(nat, nat)>, subCount: multiset<nat>, e: (nat, nat)): OverlapEdge
    requires edgeCnt[e] <= subCount[e.0]
  {
    OverlapEdge(edgeCnt[e], edgeCnt[e], UnionOf(edgeCnt, subCount, e))
  }

  /** `edges` holds exactly the pairs of `done` that pass, each once, with their attributes. */
  ghost predicate Filtered(edges: map<set<string>, OverlapEdge>, done: set<(nat, nat)>, edgeCnt: multiset<(nat, nat)>,
                           subCount: multiset<nat>, id2sub: seq<string>, t: Thresholds)
    requires t.jDen > 0 && Counted(edgeCnt, subCount, |id2sub|) && forall e :: e in done ==> e in edgeCnt
  {
    && (forall e :: e in done ==> (Key(id2sub, e) in edges <==> Passes(edgeCnt[e], UnionOf(edgeCnt, subCount, e), t)))
    && (forall e :: e in done && Key(id2sub, e) in edges ==> edges[Key(id2sub, e)] == EdgeOf(edgeCnt, subCount, e))
    && (forall k :: k in edges ==> exists e :: e in done && k == Key(id2sub, e))
  }

  /** A pair not yet filtered has no edge yet. */
  lemma KeyFresh(edges: map<set<string>, OverlapEdge>, done: set<(nat, nat)>, id2sub: seq<string>, e: (nat, nat))
    requires Distinct(id2sub) && e.0 < e.1 < |id2sub| && e !in done
    requires forall f :: f in done ==> f.0 < f.1 < |id2sub|
    requires forall k :: k in edges ==> exists f :: f in done && k == Key(id2sub, f)
    ensures Key(id2sub, e) !in edges
    ensures forall f :: f in done ==> Key(id2sub, f) != Key(id2sub, e)
  {
    forall f | f in done ensures Key(id2sub, f) != Key(id2sub, e) {
      if Key(id2sub, f) == Key(id2sub, e) {
        KeyInjective(id2sub, e, f);
      }
    }
  }

  /** One pair of the filter loop keeps `Filtered`, and adds an edge exactly when it passes. */
  lemma FilterStep(edges: map<set<string>, OverlapEdge>, done: set<(nat, nat)>, edgeCnt: multiset<(nat, nat)>,
                   subCount: multiset<nat>, id2sub: seq<string>, t: Thresholds, e: (nat, nat))
    requires t.jDen > 0 && Distinct(id2sub) && Counted(edgeCnt, subCount, |id2sub|)
    requires (forall f :: f in done ==> f in edgeCnt) && e in edgeCnt && e !in done
    requires Filtered(edges, done, edgeCnt, subCount, id2sub, t)
    ensures Passes(edgeCnt[e], UnionOf(edgeCnt, subCount, e), t) ==>
              && Key(id2sub, e) !in edges
              && Filtered(edges[Key(id2sub, e) := EdgeOf(edgeCnt, subCount, e)], done + {e}, edgeCnt, subCount, id2sub, t)
    ensures !Passes(edgeCnt[e], UnionOf(edgeCnt, subCount, e), t) ==>
              Filtered(edges, done + {e}, edgeCnt, subCount, id2sub, t)
  {
    KeyFresh(edges, done, id2sub, e);
    if Passes(edgeCnt[e], UnionOf(edgeCnt, subCount, e), t) {
      FilterKeep(edges, done, edgeCnt, subCount, id2sub, t, e);
    } else {
      FilterSkip(edges, done, edgeCnt, subCount, id2sub, t, e);
    }
  }

  lemma FilterSkip(edges: map<set<string>, OverlapEdge>, done: set<(nat, nat)>, edgeCnt: multiset<(nat, nat)>,
                   subCount: multiset<nat>, id2sub: seq<string>, t: Thresholds, e: (nat, nat))
    requires t.jDen > 0 && Counted(edgeCnt, subCount, |id2sub|)
    requires (forall f :: f in done ==> f in edgeCnt) && e in edgeCnt && e !in done
    requires Filtered(edges, done, edgeCnt, subCount, id2sub, t)
    requires Key(id2sub, e) !in edges
    requires !Passes(edgeCnt[e], UnionOf(edgeCnt, subCount, e), t)
    ensures Filtered(edges, done + {e}, edgeCnt, subCount, id2sub, t)
  {
    forall k | k in edges ensures exists f :: f in done + {e} && k == Key(id2sub, f) {
      var f :| f in done && k == Key(id2sub, f);
      assert f in done + {e};
    }
  }

  lemma FilterKeep(edges: map<set<string>, OverlapEdge>, done: set<(nat, nat)>, edgeCnt: multiset<(nat, nat)>,
                   subCount: multiset<nat>, id2sub: seq<string>, t: Thresholds, e: (nat, nat))
    requires t.jDen > 0 && Counted(edgeCnt, subCount, |id2sub|)
    requires (forall f :: f in done ==> f in edgeCnt) && e in edgeCnt && e !in done
    requires Filtered(edges, done, edgeCnt, subCount, id2sub, t)
    requires forall f :: f in done ==> Key(id2sub, f) != Key(id2sub, e)
    requires Passes(edgeCnt[e], UnionOf(edgeCnt, subCount, e), t)
    ensures Filtered(edges[Key(id2sub, e) := EdgeOf(edgeCnt, subCount, e)], done + {e}, edgeCnt, subCount, id2sub, t)
  {
    var key := Key(id2sub, e);
    var edges' := edges[key := EdgeOf(edgeCnt, subCount, e)];
    forall k | k in edges' ensures exists f :: f in done + {e} && k == Key(id2sub, f) {
      if k != key {
        var f :| f in done && k == Key(id2sub, f);
        assert f in done + {e};
      }
    }
  }

  /** One pair of the filter loop: it becomes an edge when it passes both thresholds. */
  method FilterPair(edges: map<set<string>, OverlapEdge>, kept: nat, edgeCnt: multiset<(nat, nat)>,
                    subCount: multiset<nat>, id2sub: seq<string>, t: Thresholds, e: (nat, nat))
    returns (edges': map<set<string>, OverlapEdge>, kept': nat)
    requires t.jDen > 0 && e in edgeCnt && Counted(edgeCnt, subCount, |id2sub|)
    ensures Passes(edgeCnt[e], UnionOf(edgeCnt, subCount, e), t) ==>
              edges' == edges[Key(id2sub, e) := EdgeOf(edgeCnt, subCount, e)] && kept' == kept + 1
    ensures !Passes(edgeCnt[e], UnionOf(edgeCnt, subCount, e), t) ==> edges' == edges && kept' == kept
  {
    edges', kept' := edges, kept;
    var (a, b) := e;
    var overlap := edgeCnt[e];
    if overlap < t.wMin {
      return;
    }
    var union := subCount[a] + subCount[b] - overlap;
    // union >= overlap >= 1: `overlap / union` never divides by zero
    assert union >= overlap > 0;
    if overlap * t.jDen < t.jNum * union {
      return;
    }
    edges' := edges[{id2sub[a], id2sub[b]} := OverlapEdge(overlap, overlap, union)];
    kept' := kept + 1;
  }

  /**
   * The filter loop: a counted pair becomes an edge, with its overlap and union, exactly
   * when it passes both thresholds; no edge is added twice, so `kept` is the edge count.
   */
  method FilterEdges(edgeCnt: multiset<(nat, nat)>, subCount: multiset<nat>, id2sub: seq<string>, t: Thresholds)
    returns (edges: map<set<string>, OverlapEdge>, kept: nat)
    requires t.jDen > 0 && Distinct(id2sub) && Counted(edgeCnt, subCount, |id2sub|)
    ensures kept == |edges|
    ensures forall e :: e in edgeCnt ==>
              (Key(id2sub, e) in edges <==> Passes(edgeCnt[e], UnionOf(edgeCnt, subCount, e), t))
    ensures forall e :: e in edgeCnt && Key(id2sub, e) in edges ==> edges[Key(id2sub, e)] == EdgeOf(edgeCnt, subCount, e)
    ensures forall k :: k in edges ==> exists e :: e in edgeCnt && k == Key(id2sub, e)
  {
    var todo := set e | e in edgeCnt;
    ghost var done: set<(nat, nat)> := {};
    edges, kept := map[], 0;
    while todo != {}
      invariant forall e :: e in todo || e in done <==> e in edgeCnt
      invariant todo !! done
      invariant kept == |edges|
      invariant Filtered(edges, done, edgeCnt, subCount, id2sub, t)
      decreases |todo|
    {
      var e :| e in todo;
      FilterStep(edges, done, edgeCnt, subCount, id2sub, t, e);
      edges, kept := FilterPair(edges, kept, edgeCnt, subCount, id2sub, t, e);
      todo, done := todo - {e}, done + {e};
    }
  }

  // ---------------------------------------------------------------------------
  // The whole script

  /** The users who commented in both subreddits. */
  function Overlap(ps: seq<Post>, c1: string, c2: string): nat {
    |Commenters(ps, c1) * Commenters(ps, c2)|
  }

  /** The users who commented in either subreddit. */
  function Union(ps: seq<Post>, c1: string, c2: string): nat {
    |Commenters(ps, c1) + Commenters(ps, c2)|
  }

  /**
   * The saved graph of the posts `ps`: two different subreddits are joined exactly when
   * some user commented in both and the pair passes the thresholds, with the shared users
   * as weight and the Jaccard index of the two commenter sets; `kept` counts the edges.
   */
  ghost predicate OverlapGraphOf(edges: map<set<string>, OverlapEdge>, kept: nat, ps: seq<Post>, t: Thresholds)
    requires t.jDen > 0
  {
    && kept == |edges|
    && (forall k :: k in edges ==> |k| == 2)
    && forall c1, c2 :: c1 != c2 ==>
         && ({c1, c2} in edges <==> Overlap(ps, c1, c2) > 0 && Passes(Overlap(ps, c1, c2), Union(ps, c1, c2), t))
         && ({c1, c2} in edges ==> edges[{c1, c2}] == OverlapEdge(Overlap(ps, c1, c2), Overlap(ps, c1, c2), Union(ps, c1, c2)))
  }

  /** Every id held by a user is an id of the table. */
  lemma ValuesIds(ps: seq<Post>)
    ensures forall i, k :: 0 <= i < |Values(IndexOf(ps))| && k in Values(IndexOf(ps))[i] ==> k < |FirstSeen(Subreddits(ps))|
  {
    forall i, k | 0 <= i < |Values(IndexOf(ps))| && k in Values(IndexOf(ps))[i] ensures k < |FirstSeen(Subreddits(ps))| {
      ValuesAt(ps, i, k);
    }
  }

  /** The counters of the posts satisfy the filter's precondition. */
  lemma CountedOf(ps: seq<Post>)
    ensures Counted(EdgeTally(Values(IndexOf(ps))), SubTally(Values(IndexOf(ps))), |FirstSeen(Subreddits(ps))|)
  {
    var vals := Values(IndexOf(ps));
    ValuesIds(ps);
    EdgeTallyIds(vals, |FirstSeen(Subreddits(ps))|);
    forall e | e in EdgeTally(vals) ensures EdgeTally(vals)[e] <= SubTally(vals)[e.0] && EdgeTally(vals)[e] <= SubTally(vals)[e.1] {
      OverlapBound(vals, e.0, e.1);
    }
  }

  /** A counted id pair's overlap and union are those of its two subreddits' commenters. */
  lemma PairMeaning(ps: seq<Post>, e: (nat, nat))
    requires e.0 < e.1 < |FirstSeen(Subreddits(ps))|
    ensures var id2sub, vals := FirstSeen(Subreddits(ps)), Values(IndexOf(ps));
            && EdgeTally(vals)[e] <= SubTally(vals)[e.0]
            && EdgeTally(vals)[e] == Overlap(ps, id2sub[e.0], id2sub[e.1])
            && UnionOf(EdgeTally(vals), SubTally(vals), e) == Union(ps, id2sub[e.0], id2sub[e.1])
  {
    var id2sub, vals := FirstSeen(Subreddits(ps)), Values(IndexOf(ps));
    OverlapBound(vals, e.0, e.1);
    EdgeTallyCount(vals, e.0, e.1);
    SubTallyCount(vals, e.0);
    SubTallyCount(vals, e.1);
    HoldersAreCommenters(ps, e.0);
    HoldersAreCommenters(ps, e.1);
    SharersAreCommenters(ps, e.0, e.1);
  }

  /** A subreddit somebody commented in has an id. */
  lemma CommentedHasId(ps: seq<Post>, c: string, u: string)
    requires u in Commenters(ps, c)
    ensures c in FirstSeen(Subreddits(ps))
  {
    var p :| p in ps && p.subreddit == c && p.author == u;
    var i :| 0 <= i < |ps| && ps[i] == p;
    assert Subreddits(ps)[i] == c;
    assert c in Elems(Subreddits(ps));
  }

  /**
   * What the counters of the posts mean: for each id pair, smaller id first, the overlap
   * and the union of the two subreddits' commenters; every commented subreddit has an id.
   */
  ghost predicate Describes(ps: seq<Post>, id2sub: seq<string>, edgeCnt: multiset<(nat, nat)>, subCount: multiset<nat>) {
    && Distinct(id2sub)
    && Counted(edgeCnt, subCount, |id2sub|)
    && (forall e: (nat, nat) :: e.0 < e.1 < |id2sub| ==>
          && edgeCnt[e] <= subCount[e.0]
          && edgeCnt[e] == Overlap(ps, id2sub[e.0], id2sub[e.1])
          && UnionOf(edgeCnt, subCount, e) == Union(ps, id2sub[e.0], id2sub[e.1]))
    && (forall c1, c2 :: Overlap(ps, c1, c2) > 0 ==> c1 in id2sub && c2 in id2sub)
  }

  lemma CountersDescribe(ps: seq<Post>)
    ensures Describes(ps, FirstSeen(Subreddits(ps)), EdgeTally(Values(IndexOf(ps))), SubTally(Values(IndexOf(ps))))
  {
    var id2sub := FirstSeen(Subreddits(ps));
    CountedOf(ps);
    forall e: (nat, nat) | e.0 < e.1 < |id2sub| {
      PairMeaning(ps, e);
    }
    forall c1, c2 | Overlap(ps, c1, c2) > 0 ensures c1 in id2sub && c2 in id2sub {
      var u :| u in Commenters(ps, c1) * Commenters(ps, c2);
      CommentedHasId(ps, c1, u);
      CommentedHasId(ps, c2, u);
    }
  }

  /** The edges the filter keeps (its postcondition). */
  ghost predicate Kept(edges: map<set<string>, OverlapEdge>, id2sub: seq<string>, edgeCnt: multiset<(nat, nat)>,
                       subCount: multiset<nat>, t: Thresholds)
    requires t.jDen > 0 && Counted(edgeCnt, subCount, |id2sub|)
  {
    && (forall e :: e in edgeCnt ==> (Key(id2sub, e) in edges <==> Passes(edgeCnt[e], UnionOf(edgeCnt, subCount, e), t)))
    && (forall e :: e in edgeCnt && Key(id2sub, e) in edges ==> edges[Key(id2sub, e)] == EdgeOf(edgeCnt, subCount, e))
    && (forall k :: k in edges ==> exists e :: e in edgeCnt && k == Key(id2sub, e))
  }

  /** Every edge joins two different subreddits. */
  lemma EdgesArePairs(edges: map<set<string>, OverlapEdge>, id2sub: seq<string>, edgeCnt: multiset<(nat, nat)>)
    requires Distinct(id2sub) && forall e :: e in edgeCnt ==> e.0 < e.1 < |id2sub|
    requires forall k :: k in edges ==> exists e :: e in edgeCnt && k == Key(id2sub, e)
    ensures forall k :: k in edges ==> |k| == 2
  {
    forall k | k in edges ensures |k| == 2 {
      var e :| e in edgeCnt && k == Key(id2sub, e);
      assert id2sub[e.0] != id2sub[e.1];
    }
  }

  /** The graph the filter builds from the counters is the overlap graph of the posts. */
  lemma FilterMeaning(edges: map<set<string>, OverlapEdge>, kept: nat, ps: seq<Post>, t: Thresholds,
                      id2sub: seq<string>, edgeCnt: multiset<(nat, nat)>, subCount: multiset<nat>)
    requires t.jDen > 0 && Describes(ps, id2sub, edgeCnt, subCount) && kept == |edges|
    requires Kept(edges, id2sub, edgeCnt, subCount, t)
    ensures OverlapGraphOf(edges, kept, ps, t)
  {
    EdgesArePairs(edges, id2sub, edgeCnt);
    forall c1, c2 | c1 != c2
      ensures {c1, c2} in edges <==> Overlap(ps, c1, c2) > 0 && Passes(Overlap(ps, c1, c2), Union(ps, c1, c2), t)
      ensures {c1, c2} in edges ==> edges[{c1, c2}] == OverlapEdge(Overlap(ps, c1, c2), Overlap(ps, c1, c2), Union(ps, c1, c2))
    {
      PairOfNames(edges, ps, t, id2sub, edgeCnt, subCount, c1, c2);
    }
  }

  /** The overlap and union of two subreddits do not depend on their order. */
  lemma OverlapSymmetric(ps: seq<Post>, c1: string, c2: string)
    ensures Overlap(ps, c1, c2) == Overlap(ps, c2, c1) && Union(ps, c1, c2) == Union(ps, c2, c1)
  {
    assert Commenters(ps, c1) * Commenters(ps, c2) == Commenters(ps, c2) * Commenters(ps, c1);
    assert Commenters(ps, c1) + Commenters(ps, c2) == Commenters(ps, c2) + Commenters(ps, c1);
  }

  /** One pair of subreddit names in the overlap graph. */
  lemma PairOfNames(edges: map<set<string>, OverlapEdge>, ps: seq<Post>, t: Thresholds,
                    id2sub: seq<string>, edgeCnt: multiset<(nat, nat)>, subCount: multiset<nat>, c1: string, c2: string)
    requires t.jDen > 0 && c1 != c2 && Describes(ps, id2sub, edgeCnt, subCount)
    requires Kept(edges, id2sub, edgeCnt, subCount, t)
    ensures {c1, c2} in edges <==> Overlap(ps, c1, c2) > 0 && Passes(Overlap(ps, c1, c2), Union(ps, c1, c2), t)
    ensures {c1, c2} in edges ==> edges[{c1, c2}] == OverlapEdge(Overlap(ps, c1, c2), Overlap(ps, c1, c2), Union(ps, c1, c2))
  {
    OverlapSymmetric(ps, c1, c2);
    if {c1, c2} in edges {
      EdgeHasNames(edges, ps, t, id2sub, edgeCnt, subCount, c1, c2);
    } else if Overlap(ps, c1, c2) > 0 {
      NamesHaveEdge(edges, ps, t, id2sub, edgeCnt, subCount, c1, c2);
    }
  }

  /** An edge of the filtered graph joins two subreddits with a passing overlap. */
  lemma EdgeHasNames(edges: map<set<string>, OverlapEdge>, ps: seq<Post>, t: Thresholds,
                     id2sub: seq<string>, edgeCnt: multiset<(nat, nat)>, subCount: multiset<nat>, c1: string, c2: string)
    requires t.jDen > 0 && c1 != c2 && Describes(ps, id2sub, edgeCnt, subCount)
    requires Kept(edges, id2sub, edgeCnt, subCount, t)
    requires Overlap(ps, c1, c2) == Overlap(ps, c2, c1) && Union(ps, c1, c2) == Union(ps, c2, c1)
    requires {c1, c2} in edges
    ensures Overlap(ps, c1, c2) > 0 && Passes(Overlap(ps, c1, c2), Union(ps, c1, c2), t)
    ensures edges[{c1, c2}] == OverlapEdge(Overlap(ps, c1, c2), Overlap(ps, c1, c2), Union(ps, c1, c2))
  {
    var e :| e in edgeCnt && {c1, c2} == Key(id2sub, e);
    var x, y := id2sub[e.0], id2sub[e.1];
    assert Passes(edgeCnt[e], UnionOf(edgeCnt, subCount, e), t);
    assert edges[{c1, c2}] == EdgeOf(edgeCnt, subCount, e);
    assert edgeCnt[e] == Overlap(ps, x, y) && UnionOf(edgeCnt, subCount, e) == Union(ps, x, y);
    PairEq(c1, c2, x, y);
  }

  /** Two two-element sets are equal when their elements agree in one order or the other. */
  lemma PairEq(c1: string, c2: string, x: string, y: string)
    requires c1 != c2 && {c1, c2} == {x, y}
    ensures (c1 == x && c2 == y) || (c1 == y && c2 == x)
  {
    assert c1 in {x, y} && c2 in {x, y};
  }

  /** Two subreddits with a passing overlap are joined in the filtered graph. */
  lemma NamesHaveEdge(edges: map<set<string>, OverlapEdge>, ps: seq<Post>, t: Thresholds,
                      id2sub: seq<string>, edgeCnt: multiset<(nat, nat)>, subCount: multiset<nat>, c1: string, c2: string)
    requires t.jDen > 0 && c1 != c2 && Describes(ps, id2sub, edgeCnt, subCount)
    requires Kept(edges, id2sub, edgeCnt, subCount, t)
    requires Overlap(ps, c1, c2) == Overlap(ps, c2, c1) && Union(ps, c1, c2) == Union(ps, c2, c1)
    requires Overlap(ps, c1, c2) > 0
    ensures {c1, c2} in edges <==> Passes(Overlap(ps, c1, c2), Union(ps, c1, c2), t)
  {
    var a :| 0 <= a < |id2sub| && id2sub[a] == c1;
    var b :| 0 <= b < |id2sub| && id2sub[b] == c2;
    var e := if a < b then (a, b) else (b, a);
    var x, y := id2sub[e.0], id2sub[e.1];
    assert e.0 < e.1 < |id2sub|;
    assert edgeCnt[e] == Overlap(ps, x, y) && UnionOf(edgeCnt, subCount, e) == Union(ps, x, y);
    assert Overlap(ps, x, y) == Overlap(ps, c1, c2) && Union(ps, x, y) == Union(ps, c1, c2);
    assert e in edgeCnt;
    assert Key(id2sub, e) == {c1, c2};
    assert Key(id2sub, e) in edges <==> Passes(edgeCnt[e], UnionOf(edgeCnt, subCount, e), t);
  }

  /**
   * The script: the read loop, the counting loop and the filter loop, giving the edges of
   * the overlap graph and `kept`, or the missing key that stops the read.
   */
  method Run(lines: seq<Line>, t: Thresholds) returns (r: Result<(map<set<string>, OverlapEdge>, nat), KeyError>)
    requires t.jDen > 0
    ensures r.Err? <==> Posts(lines).Err?
    ensures r.Err? ==> r.error == Posts(lines).error
    ensures r.Ok? ==> OverlapGraphOf(r.value.0, r.value.1, Posts(lines).value, t)
  {
    var ids := new SubIds();
    var index := Index(lines, ids);
    if index.Err? {
      return Err(index.error);
    }
    ghost var ps := Posts(lines).value;
    IndexesUnique(index.value, ps);
    var subCount, edgeCnt, pairUpdates := CountOverlaps(Values(index.value));
    CountersDescribe(ps);
    var edges, kept := FilterEdges(edgeCnt, subCount, ids.id2sub, t);
    FilterMeaning(edges, kept, ps, t, ids.id2sub, edgeCnt, subCount);
    return Ok((edges, kept));
  }
}
