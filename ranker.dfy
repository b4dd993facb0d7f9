/**
 * `getClosestMatches`: score every roster username against the typed query,
 * sort the scores with a stable sort and keep the first three usernames.
 * The sort is modelled on roster positions: `StableOrder` is an insertion
 * sort of the indices `0..n-1` by key, so two users with the same distance
 * keep the order the roster gives them, as ECMAScript requires of
 * `Array.prototype.sort` since its 10th edition (section 22.1.3.27).
 */
module Ranker {
  import opened EditDistance

  datatype User = User(username: string)

  /** `.slice(0, 3)`: the number of suggestions kept. */
  const MAX_MATCHES: nat := 3

  predicate IndicesBelow(xs: seq<nat>, n: nat) {
    forall i :: 0 <= i < |xs| ==> xs[i] < n
  }

  /** Positions below `n` are also below any larger bound. */
  lemma BelowWeaken(xs: seq<nat>, n: nat, m: nat)
    requires IndicesBelow(xs, n) && n <= m
    ensures IndicesBelow(xs, m)
  {
  }

  /** Every element of a sequence of positions below `n` is below `n`. */
  lemma BelowBound(xs: seq<nat>, n: nat)
    requires IndicesBelow(xs, n)
    ensures forall x :: x in xs ==> x < n
  {
  }

  /** Position `h` goes before position `y` in a stable sort: a smaller key, or the same key and an earlier position. */
  predicate Precedes(h: nat, y: nat, keys: seq<nat>)
    requires h < |keys| && y < |keys|
  {
    keys[h] <= keys[y] && (keys[h] == keys[y] ==> h < y)
  }

  /** `xs` lists positions in nondecreasing order of their keys, positions with equal keys in increasing order. */
  predicate Ranked(xs: seq<nat>, keys: seq<nat>)
    requires IndicesBelow(xs, |keys|)
  {
    forall i, j {:trigger Precedes(xs[i], xs[j], keys)} :: 0 <= i < j < |xs| ==> Precedes(xs[i], xs[j], keys)
  }

  /** What `Ranked` says in terms of the keys: sorted, and stable on ties. */
  lemma RankedMeans(xs: seq<nat>, keys: seq<nat>)
    requires IndicesBelow(xs, |keys|) && Ranked(xs, keys)
    ensures forall i, j :: 0 <= i < j < |xs| ==> keys[xs[i]] <= keys[xs[j]]
    ensures forall i, j :: 0 <= i < j < |xs| && keys[xs[i]] == keys[xs[j]] ==> xs[i] < xs[j]
  {
    forall i, j | 0 <= i < j < |xs|
      ensures keys[xs[i]] <= keys[xs[j]]
      ensures keys[xs[i]] == keys[xs[j]] ==> xs[i] < xs[j]
    {
      assert Precedes(xs[i], xs[j], keys);
    }
  }

  /** Puts position `k` after every position whose key is not larger than its own. */
  function Insert(xs: seq<nat>, k: nat, keys: seq<nat>): (r: seq<nat>)
    requires k < |keys| && IndicesBelow(xs, |keys|)
    ensures |r| == |xs| + 1 && IndicesBelow(r, |keys|)
    ensures forall i :: 0 <= i < |r| ==> r[i] == k || r[i] in xs
    ensures forall x :: x in xs ==> x in r
    ensures k in r
  {
    if xs == [] then [k]
    else if keys[k] < keys[xs[0]] then [k] + xs
    else
      var rt := Insert(xs[1..], k, keys);
      assert forall x :: x in xs[1..] ==> x in xs;
      assert xs == [xs[0]] + xs[1..];
      [xs[0]] + rt
  }

  /**
   * The stable sort of the positions `0..n-1` by key (insertion sort, one
   * position at a time): a permutation of `0..n-1`.
   */
  function StableOrder(keys: seq<nat>, n: nat): (r: seq<nat>)
    requires n <= |keys|
    ensures |r| == n
    ensures IndicesBelow(r, n)
    ensures forall p :: 0 <= p < n ==> p in r
  {
    if n == 0 then []
    else
      var prev := StableOrder(keys, n - 1);
      InsertNext(prev, keys, n);
      Insert(prev, n - 1, keys)
  }

  /** One step of the insertion sort: adding position `n - 1` to a permutation of `0..n-2` gives one of `0..n-1`. */
  lemma InsertNext(prev: seq<nat>, keys: seq<nat>, n: nat)
    requires 0 < n <= |keys| && IndicesBelow(prev, n - 1)
    requires forall p :: 0 <= p < n - 1 ==> p in prev
    ensures IndicesBelow(prev, |keys|)
    ensures var r := Insert(prev, n - 1, keys);
      IndicesBelow(r, n) && forall p :: 0 <= p < n ==> p in r
  {
    BelowWeaken(prev, n - 1, |keys|);
    var r := Insert(prev, n - 1, keys);
    forall i | 0 <= i < |r|
      ensures r[i] < n
    {
      if r[i] != n - 1 {
        var j :| 0 <= j < |prev| && prev[j] == r[i];
      }
    }
  }

  /** A ranked order stays ranked when a position that precedes all of it is put in front. */
  lemma ConsRanked(h: nat, rt: seq<nat>, keys: seq<nat>)
    requires h < |keys| && IndicesBelow(rt, |keys|) && Ranked(rt, keys)
    requires forall y :: y in rt ==> Precedes(h, y, keys)
    ensures IndicesBelow([h] + rt, |keys|) && Ranked([h] + rt, keys)
  {
    var r := [h] + rt;
    forall i, j | 0 <= i < j < |r|
      ensures Precedes(r[i], r[j], keys)
    {
      assert r[j] == rt[j - 1];
      if i == 0 {
        assert rt[j - 1] in rt;
      } else {
        assert r[i] == rt[i - 1];
      }
    }
  }

  /** Inserting a position larger than every one present keeps the order ranked. */
  lemma {:induction false} InsertRanked(xs: seq<nat>, k: nat, keys: seq<nat>)
    requires k < |keys| && IndicesBelow(xs, |keys|) && Ranked(xs, keys)
    requires forall x :: x in xs ==> x < k
    ensures Ranked(Insert(xs, k, keys), keys)
  {
    if xs == [] {
    } else if keys[k] < keys[xs[0]] {
      InsertInFront(xs, k, keys);
    } else {
      var tail := xs[1..];
      assert forall x :: x in tail ==> x in xs;
      assert Ranked(tail, keys) by {
        forall i, j | 0 <= i < j < |tail|
          ensures Precedes(tail[i], tail[j], keys)
        {
          assert tail[i] == xs[i + 1] && tail[j] == xs[j + 1];
        }
      }
      InsertRanked(tail, k, keys);
      InsertBehind(xs, k, keys);
    }
  }

  /** The case where `k` goes first: its key is below every key present. */
  lemma InsertInFront(xs: seq<nat>, k: nat, keys: seq<nat>)
    requires k < |keys| && IndicesBelow(xs, |keys|) && Ranked(xs, keys)
    requires xs != [] && keys[k] < keys[xs[0]]
    ensures Ranked(Insert(xs, k, keys), keys)
  {
    forall y | y in xs
      ensures Precedes(k, y, keys)
    {
      var m :| 0 <= m < |xs| && xs[m] == y;
      if m > 0 {
        assert Precedes(xs[0], xs[m], keys);
      }
    }
    ConsRanked(k, xs, keys);
  }

  /** The case where `xs[0]` stays first and `k` goes into the rest. */
  lemma InsertBehind(xs: seq<nat>, k: nat, keys: seq<nat>)
    requires k < |keys| && IndicesBelow(xs, |keys|) && Ranked(xs, keys)
    requires forall x :: x in xs ==> x < k
    requires xs != [] && keys[xs[0]] <= keys[k]
    requires Ranked(Insert(xs[1..], k, keys), keys)
    ensures Ranked(Insert(xs, k, keys), keys)
  {
    var tail := xs[1..];
    var rt := Insert(tail, k, keys);
    forall y | y in rt
      ensures Precedes(xs[0], y, keys)
    {
      if y != k {
        var m :| 0 <= m < |tail| && tail[m] == y;
        assert tail[m] == xs[m + 1];
        assert Precedes(xs[0], xs[m + 1], keys);
      } else {
        assert xs[0] in xs;
      }
    }
    ConsRanked(xs[0], rt, keys);
  }

  /** The insertion sort yields a ranked order. */
  lemma {:induction false} StableOrderRanked(keys: seq<nat>, n: nat)
    requires n <= |keys|
    ensures IndicesBelow(StableOrder(keys, n), |keys|)
    ensures Ranked(StableOrder(keys, n), keys)
  {
    BelowWeaken(StableOrder(keys, n), n, |keys|);
    if n > 0 {
      StableOrderRanked(keys, n - 1);
      var prev := StableOrder(keys, n - 1);
      BelowBound(prev, n - 1);
      InsertRanked(prev, n - 1, keys);
      assert StableOrder(keys, n) == Insert(prev, n - 1, keys);
    }
  }

  /** The distance of each roster entry to the query, in roster order. */
  function Distances(query: string, users: seq<User>): (d: seq<nat>)
    ensures |d| == |users|
  {
    seq(|users|, i requires 0 <= i < |users| => Dist(query, users[i].username))
  }

  /** Roster positions, sorted by distance to the query with ties in roster order. */
  function RankedIndices(query: string, users: seq<User>): (r: seq<nat>)
    ensures |r| == |users| && IndicesBelow(r, |users|)
  {
    StableOrder(Distances(query, users), |users|)
  }

  /** The usernames at the given roster positions. */
  function Usernames(users: seq<User>, idx: seq<nat>): (r: seq<string>)
    requires IndicesBelow(idx, |users|)
    ensures |r| == |idx|
    ensures forall i :: 0 <= i < |idx| ==> r[i] == users[idx[i]].username
  {
    seq(|idx|, i requires 0 <= i < |idx| => users[idx[i]].username)
  }

  /** The whole roster's usernames in ranked order. */
  function FullRanking(query: string, users: seq<User>): (r: seq<string>)
    ensures |r| == |users|
  {
    Usernames(users, RankedIndices(query, users))
  }

  /**
   * `getClosestMatches(input, users)`: no suggestions for an empty query;
   * otherwise the first `min(3, |users|)` usernames of the ranking, each one
   * taken from the roster.
   */
  function GetClosestMatches(query: string, users: seq<User>): (r: seq<string>)
    ensures query == [] ==> r == []
    ensures query != [] ==> |r| == Min(MAX_MATCHES, |users|)
    ensures forall s :: s in r ==> exists u :: u in users && u.username == s
  {
    if query == [] then []
    else
      var order := RankedIndices(query, users);
      var top := order[..Min(MAX_MATCHES, |order|)];
      var r := Usernames(users, top);
      assert forall s :: s in r ==> exists i :: 0 <= i < |top| && r[i] == s;
      assert forall i :: 0 <= i < |top| ==> users[top[i]] in users;
      r
  }

  /** The matches are the front of the full stable ranking. */
  lemma ClosestMatchesArePrefix(query: string, users: seq<User>)
    ensures GetClosestMatches(query, users) <= FullRanking(query, users)
  {
  }

  /** The ranking is sorted by distance, ties in roster order, and lists every roster position once. */
  lemma RankedIndicesSpec(query: string, users: seq<User>)
    ensures var r := RankedIndices(query, users);
      && (forall i, j :: 0 <= i < j < |r| ==> Dist(query, users[r[i]].username) <= Dist(query, users[r[j]].username))
      && (forall i, j :: 0 <= i < j < |r| && Dist(query, users[r[i]].username) == Dist(query, users[r[j]].username) ==> r[i] < r[j])
      && (forall p :: 0 <= p < |users| ==> p in r)
  {
    var keys := Distances(query, users);
    StableOrderRanked(keys, |users|);
    RankedMeans(RankedIndices(query, users), keys);
  }

  /** The matches come in nondecreasing distance to the query. */
  lemma ClosestMatchesOrdered(query: string, users: seq<User>)
    ensures var r := GetClosestMatches(query, users);
      forall i, j :: 0 <= i < j < |r| ==> Dist(query, r[i]) <= Dist(query, r[j])
  {
    RankedIndicesSpec(query, users);
  }

  /**
   * The matches really are the closest: a roster entry that was left out is
   * no closer than any match, and when it ties with a match it comes later
   * in the roster.
   */
  lemma ClosestMatchesBeatTheRest(query: string, users: seq<User>, p: nat)
    requires query != [] && p < |users|
    requires p !in RankedIndices(query, users)[..Min(MAX_MATCHES, |users|)]
    ensures var r := GetClosestMatches(query, users);
      forall i :: 0 <= i < |r| ==>
        && Dist(query, r[i]) <= Dist(query, users[p].username)
        && (Dist(query, r[i]) == Dist(query, users[p].username) ==> RankedIndices(query, users)[i] < p)
  {
    var order := RankedIndices(query, users);
    RankedIndicesSpec(query, users);
    var k := Min(MAX_MATCHES, |users|);
    assert p in order;
    var at :| 0 <= at < |order| && order[at] == p;
  }
}
