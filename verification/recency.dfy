/** The order in which the source lists a user's chats, `ORDER BY updated_at DESC`, made total by
    breaking ties on the chat id, and the ranking of a set of chats in that order. */
module Recency {
  import opened ChatStore

  /** Lexicographic order on chat ids: a proper prefix sorts first, otherwise the first differing
      character decides. */
  predicate IdLess(a: ChatId, b: ChatId)
    decreases |a|
  {
    if |a| == 0 then |b| > 0
    else if |b| == 0 then false
    else a[0] < b[0] || (a[0] == b[0] && IdLess(a[1..], b[1..]))
  }

  lemma {:induction false} IdLessIrreflexive(a: ChatId)
    ensures !IdLess(a, a)
    decreases |a|
  {
    if |a| > 0 {
      IdLessIrreflexive(a[1..]);
    }
  }

  lemma {:induction false} IdLessAsymmetric(a: ChatId, b: ChatId)
    ensures !(IdLess(a, b) && IdLess(b, a))
    decreases |a|
  {
    if |a| > 0 && |b| > 0 && a[0] == b[0] {
      IdLessAsymmetric(a[1..], b[1..]);
    }
  }

  lemma {:induction false} IdLessTransitive(a: ChatId, b: ChatId, c: ChatId)
    requires IdLess(a, b) && IdLess(b, c)
    ensures IdLess(a, c)
    decreases |a|
  {
    if |a| > 0 && a[0] == b[0] && b[0] == c[0] {
      IdLessTransitive(a[1..], b[1..], c[1..]);
    }
  }

  lemma {:induction false} IdLessTotal(a: ChatId, b: ChatId)
    ensures a == b || IdLess(a, b) || IdLess(b, a)
    decreases |a|
  {
    if |a| > 0 && |b| > 0 && a[0] == b[0] {
      IdLessTotal(a[1..], b[1..]);
      if a[1..] == b[1..] {
        assert a == [a[0]] + a[1..] && b == [b[0]] + b[1..];
      }
    }
  }

  /** Chat `a` is listed before chat `b`: it was updated later, or at the same time and its id
      sorts first. */
  predicate Newer(chats: map<ChatId, ChatRow>, a: ChatId, b: ChatId) {
    && a in chats && b in chats
    && (|| chats[a].updatedAt > chats[b].updatedAt
        || (chats[a].updatedAt == chats[b].updatedAt && IdLess(a, b)))
  }

  /** `Newer` is a strict total order on the chats of one store. */
  lemma NewerIsStrictTotalOrder(chats: map<ChatId, ChatRow>)
    ensures forall a :: !Newer(chats, a, a)
    ensures forall a, b :: Newer(chats, a, b) ==> !Newer(chats, b, a)
    ensures forall a, b, c :: Newer(chats, a, b) && Newer(chats, b, c) ==> Newer(chats, a, c)
    ensures forall a, b :: a in chats && b in chats && a != b ==> Newer(chats, a, b) || Newer(chats, b, a)
  {
    forall a ensures !Newer(chats, a, a) {
      IdLessIrreflexive(a);
    }
    forall a, b ensures Newer(chats, a, b) ==> !Newer(chats, b, a) {
      IdLessAsymmetric(a, b);
    }
    forall a, b, c | Newer(chats, a, b) && Newer(chats, b, c) ensures Newer(chats, a, c) {
      if IdLess(a, b) && IdLess(b, c) {
        IdLessTransitive(a, b, c);
      }
    }
    forall a, b | a in chats && b in chats && a != b ensures Newer(chats, a, b) || Newer(chats, b, a) {
      IdLessTotal(a, b);
    }
  }

  /** `ids` lists chats strictly newest first. */
  predicate NewestFirst(chats: map<ChatId, ChatRow>, ids: seq<ChatId>) {
    forall i, j :: 0 <= i < j < |ids| ==> Newer(chats, ids[i], ids[j])
  }

  /** `x` is the newest chat of `ids`. */
  predicate IsNewest(chats: map<ChatId, ChatRow>, x: ChatId, ids: set<ChatId>) {
    x in ids && forall y :: y in ids && y != x ==> Newer(chats, x, y)
  }

  lemma {:induction false} NewestExists(chats: map<ChatId, ChatRow>, ids: set<ChatId>)
    requires ids != {} && ids <= chats.Keys
    ensures exists x :: IsNewest(chats, x, ids)
    decreases ids
  {
    NewerIsStrictTotalOrder(chats);
    var y :| y in ids;
    if ids == {y} {
      assert IsNewest(chats, y, ids);
    } else {
      NewestExists(chats, ids - {y});
      var x :| IsNewest(chats, x, ids - {y});
      if Newer(chats, y, x) {
        assert IsNewest(chats, y, ids);
      } else {
        assert IsNewest(chats, x, ids);
      }
    }
  }

  lemma NewestUnique(chats: map<ChatId, ChatRow>, ids: set<ChatId>)
    ensures forall x, x' :: IsNewest(chats, x, ids) && IsNewest(chats, x', ids) ==> x == x'
  {
    NewerIsStrictTotalOrder(chats);
  }

  /** The chats `ids` in listing order: the newest first, then the rest ranked the same way. */
  function Ranking(chats: map<ChatId, ChatRow>, ids: set<ChatId>): (r: seq<ChatId>)
    requires ids <= chats.Keys
    ensures |r| == |ids|
    ensures forall k :: k in r <==> k in ids
    ensures NewestFirst(chats, r)
    decreases ids
  {
    if ids == {} then []
    else
      NewestExists(chats, ids);
      NewestUnique(chats, ids);
      var x :| IsNewest(chats, x, ids);
      [x] + Ranking(chats, ids - {x})
  }

  /** The chats of user `u` in the order `ORDER BY updated_at DESC` returns them. */
  function UserRanking(chats: map<ChatId, ChatRow>, u: Username): seq<ChatId> {
    Ranking(chats, Owned(chats, u))
  }

  /** The number of chats among `ids` listed before chat `id`. */
  function NewerCount(chats: map<ChatId, ChatRow>, ids: set<ChatId>, id: ChatId): nat {
    |set k | k in ids && Newer(chats, k, id)|
  }

  /** Chat `id` is among the first `RetentionLimit` chats of user `u`: fewer than that many of
      `u`'s chats are listed before it. */
  predicate Recent(chats: map<ChatId, ChatRow>, u: Username, id: ChatId) {
    NewerCount(chats, Owned(chats, u), id) < RetentionLimit
  }

  /** A newest-first list has no repeated chat. */
  lemma NewestFirstDistinct(chats: map<ChatId, ChatRow>, ids: seq<ChatId>)
    requires NewestFirst(chats, ids)
    ensures forall i, j :: 0 <= i < j < |ids| ==> ids[i] != ids[j]
  {
    NewerIsStrictTotalOrder(chats);
  }

  /** The first chat of a newest-first listing is the newest of the listed chats. */
  lemma HeadIsNewest(chats: map<ChatId, ChatRow>, ids: seq<ChatId>)
    requires NewestFirst(chats, ids) && |ids| > 0
    ensures IsNewest(chats, ids[0], set k | k in ids)
  {
    forall y | y in ids && y != ids[0] ensures Newer(chats, ids[0], y) {
      var j :| 0 <= j < |ids| && ids[j] == y;
    }
  }

  /** A list without repetitions has as many elements as it has distinct members. */
  lemma {:induction false} DistinctCardinality(ids: seq<ChatId>)
    requires forall i, j :: 0 <= i < j < |ids| ==> ids[i] != ids[j]
    ensures |set k | k in ids| == |ids|
  {
    if |ids| > 0 {
      var rest := ids[1..];
      DistinctCardinality(rest);
      assert (set k | k in ids) == {ids[0]} + (set k | k in rest);
      assert ids[0] !in rest;
    }
  }

  /** A subset is no larger than its superset. */
  lemma {:induction false} SubsetCardinality(a: set<ChatId>, b: set<ChatId>)
    requires a <= b
    ensures |a| <= |b|
    decreases b
  {
    if a != {} {
      var x :| x in a;
      SubsetCardinality(a - {x}, b - {x});
    }
  }

  /** Splitting a list without repetitions at `n` puts each member on exactly one side. */
  lemma SplitIsPartition(ids: seq<ChatId>, n: nat)
    requires forall i, j :: 0 <= i < j < |ids| ==> ids[i] != ids[j]
    requires n <= |ids|
    ensures forall k :: k in ids <==> k in ids[..n] || k in ids[n..]
    ensures forall k :: !(k in ids[..n] && k in ids[n..])
  {
    assert ids == ids[..n] + ids[n..];
    forall k | k in ids[..n] ensures k !in ids[n..] {
      var i :| 0 <= i < n && ids[i] == k;
      assert forall j :: n <= j < |ids| ==> ids[j] != ids[i];
    }
  }

  /** Any two newest-first listings of the same chats are the same list: the listing order is
      deterministic. */
  lemma {:induction false} NewestFirstUnique(chats: map<ChatId, ChatRow>, a: seq<ChatId>, b: seq<ChatId>)
    requires NewestFirst(chats, a) && NewestFirst(chats, b)
    requires forall k :: k in a <==> k in b
    ensures a == b
    decreases |a|
  {
    NewerIsStrictTotalOrder(chats);
    NewestFirstDistinct(chats, a);
    NewestFirstDistinct(chats, b);
    DistinctCardinality(a);
    DistinctCardinality(b);
    assert (set k | k in a) == (set k | k in b);
    if |a| > 0 {
      var members := set k | k in a;
      HeadIsNewest(chats, a);
      HeadIsNewest(chats, b);
      NewestUnique(chats, members);
      assert a[0] == b[0];
      forall k ensures k in a[1..] <==> k in b[1..] {
        if k in a[1..] {
          var i :| 1 <= i < |a| && a[i] == k;
          assert k in b;
          assert k != b[0];
        }
        if k in b[1..] {
          var j :| 1 <= j < |b| && b[j] == k;
          assert k in a;
          assert k != a[0];
        }
      }
      NewestFirstUnique(chats, a[1..], b[1..]);
      assert a == [a[0]] + a[1..] && b == [b[0]] + b[1..];
    }
  }

  /** In a newest-first listing of `ids`, exactly `i` chats of `ids` are listed before the `i`-th. */
  lemma RankIsPosition(chats: map<ChatId, ChatRow>, ids: set<ChatId>, r: seq<ChatId>, i: nat)
    requires NewestFirst(chats, r) && (forall k :: k in r <==> k in ids)
    requires i < |r|
    ensures NewerCount(chats, ids, r[i]) == i
  {
    NewerIsStrictTotalOrder(chats);
    NewestFirstDistinct(chats, r);
    var before := set k | k in ids && Newer(chats, k, r[i]);
    forall k ensures k in before <==> k in r[..i] {
      if k in before {
        var j :| 0 <= j < |r| && r[j] == k;
        assert j < i;
        assert r[..i][j] == k;
      }
      if k in r[..i] {
        var j :| 0 <= j < i && r[j] == k;
        assert Newer(chats, r[j], r[i]);
      }
    }
    assert before == set k | k in r[..i];
    DistinctCardinality(r[..i]);
  }

  /** A chat of `u` is listed among the first `n` exactly when fewer than `n` of `u`'s chats are
      listed before it. */
  lemma PrefixIsRecent(chats: map<ChatId, ChatRow>, u: Username, n: nat, k: ChatId)
    requires k in Owned(chats, u) && n <= |UserRanking(chats, u)|
    ensures k in UserRanking(chats, u)[..n] <==> NewerCount(chats, Owned(chats, u), k) < n
  {
    var r := UserRanking(chats, u);
    NewestFirstDistinct(chats, r);
    var i :| 0 <= i < |r| && r[i] == k;
    RankIsPosition(chats, Owned(chats, u), r, i);
    if k in r[..n] {
      var j :| 0 <= j < n && r[j] == k;
      assert i == j;
    }
    if i < n {
      assert r[..n][i] == k;
    }
  }
}
