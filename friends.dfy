/**
 * The read queries over the `friends` graph: friend recommendations (app/app.py:292-320) and
 * the search for users who are not yet friends (app/app.py:274-290).
 */
module FriendQueries {
  import opened Seqs
  import opened Text
  import opened Schema
  import opened Ranking

  /** `select user2_id from friends where user1_id = u`: everyone `u` has added. */
  function FriendIds(friends: seq<Friend>, userId: int): (ids: seq<int>)
    ensures forall y :: y in ids <==> Friend(userId, y) in friends
  {
    var rows := Filter(friends, (f: Friend) => f.user1Id == userId);
    var ids := MapSeq(rows, (f: Friend) => f.user2Id);
    forall i | 0 <= i < |rows| ensures rows[i] == Friend(userId, ids[i]) {
      assert rows[i] in rows;
    }
    ids
  }

  /** The rows of `friends f` joined to one friend `x` with `f.user2_id != u`, as `user2_id`s. */
  function HopsFrom(friends: seq<Friend>, x: int, userId: int): (ys: seq<int>)
    ensures forall y :: y in ys <==> y != userId && Friend(x, y) in friends
  {
    var rows := Filter(friends, (f: Friend) => f.user1Id == x && f.user2Id != userId);
    var ys := MapSeq(rows, (f: Friend) => f.user2Id);
    forall y | y in ys ensures y != userId && Friend(x, y) in friends {
      var i :| 0 <= i < |ys| && ys[i] == y;
      assert rows[i] in rows;
    }
    forall y | y != userId && Friend(x, y) in friends ensures y in ys {
      assert Friend(x, y) in rows;
      var i :| 0 <= i < |rows| && rows[i] == Friend(x, y);
      assert ys[i] == y;
    }
    ys
  }

  /**
   * `my_friends join friends f on my_friends.user_id = f.user1_id where f.user2_id != u`:
   * one row per path `u -> x -> y` with `x` taken from `via` and `y` other than `u`.
   */
  function FriendsOfFriends(friends: seq<Friend>, via: seq<int>, userId: int): (ys: seq<int>)
    ensures forall y :: y in ys <==> y != userId && exists x :: x in via && Friend(x, y) in friends
    decreases |via|
  {
    if via == [] then []
    else
      var init, x := via[..|via| - 1], via[|via| - 1];
      assert via == init + [x];
      FriendsOfFriends(friends, init, userId) + HopsFrom(friends, x, userId)
  }

  /**
   * The `except` of the two sub-queries. `EXCEPT` (without `ALL`) returns distinct rows, so
   * every candidate occurs once: a friend of a friend who is neither `u` nor a friend of `u`.
   */
  function Candidates(friends: seq<Friend>, userId: int): (ys: seq<int>)
    ensures NoDuplicates(ys)
    ensures forall y :: y in ys <==>
      && y != userId
      && Friend(userId, y) !in friends
      && exists x :: Friend(userId, x) in friends && Friend(x, y) in friends
  {
    var mine := FriendIds(friends, userId);
    var distinct := Distinct(FriendsOfFriends(friends, mine, userId));
    FilterNoDuplicates(distinct, (y: int) => y !in mine);
    Filter(distinct, (y: int) => y !in mine)
  }

  /** The rows of `users` with a given id. */
  function UsersWithId(users: seq<User>, id: int): nat {
    |Filter(users, (v: User) => v.userId == id)|
  }

  /**
   * `count(*)` of the group `u.user_id = id` after `join users u on u.user_id = <row>`: every
   * row equal to `id` meets every users row with that id.
   */
  function JoinCount(rows: seq<int>, users: seq<User>, id: int): nat {
    multiset(rows)[id] * UsersWithId(users, id)
  }

  /**
   * `get_friend_recommendations(u)` as written: the candidates joined with `users`, grouped by
   * `u.user_id` (one users row per group), `having count(*) > 1`, by decreasing count.
   */
  function FriendRecommendations(s: Snapshot, userId: int): seq<User> {
    var candidates := Candidates(s.friends, userId);
    var groups := Filter(s.users, (v: User) => JoinCount(candidates, s.users, v.userId) > 1);
    SortByScore(groups, (v: User) => JoinCount(candidates, s.users, v.userId))
  }

  /** `users.user_id` is a key: at most one row per id, and exactly one for the id of a row. */
  lemma {:induction false} UsersWithIdOfKey(users: seq<User>, id: int)
    requires UserIdsUnique(users)
    ensures UsersWithId(users, id) <= 1
    ensures (exists v :: v in users && v.userId == id) ==> UsersWithId(users, id) == 1
    decreases |users|
  {
    if users != [] {
      var init, last := users[..|users| - 1], users[|users| - 1];
      assert users == init + [last];
      var p := (v: User) => v.userId == id;
      FilterSnoc(init, last, p);
      UsersWithIdOfKey(init, id);
      if last.userId == id {
        FilterNone(init, p);
      }
    }
  }

  /** Distinct rows joined with a keyed table make groups of at most one row. */
  lemma DistinctJoinCount(rows: seq<int>, users: seq<User>, id: int)
    requires NoDuplicates(rows) && UserIdsUnique(users)
    ensures JoinCount(rows, users, id) <= 1
  {
    NoDuplicatesCount(rows, id);
    UsersWithIdOfKey(users, id);
    if multiset(rows)[id] == 1 {
      assert JoinCount(rows, users, id) == UsersWithId(users, id);
    }
  }

  /**
   * The `having count(*) > 1` of `get_friend_recommendations` never holds: `EXCEPT` leaves
   * every candidate once and `users.user_id` is a key, so each group has one row, and the
   * recommendations are always empty.
   */
  lemma FriendRecommendationsAlwaysEmpty(s: Snapshot, userId: int)
    requires UserIdsUnique(s.users)
    ensures FriendRecommendations(s, userId) == []
  {
    var candidates := Candidates(s.friends, userId);
    var p := (v: User) => JoinCount(candidates, s.users, v.userId) > 1;
    forall v | v in s.users
      ensures !p(v)
    {
      DistinctJoinCount(candidates, s.users, v.userId);
    }
    FilterNone(s.users, p);
  }

  /**
   * The friends of `u` who have added `y`, each once however many duplicate rows link them:
   * the mutual friends through whom `y` is evidently meant to be recommended.
   */
  function MutualFriends(friends: seq<Friend>, userId: int, y: int): (xs: seq<int>)
    ensures NoDuplicates(xs)
    ensures forall x :: x in xs <==> Friend(userId, x) in friends && Friend(x, y) in friends
  {
    var mine := Distinct(FriendIds(friends, userId));
    FilterNoDuplicates(mine, (x: int) => Friend(x, y) in friends);
    Filter(mine, (x: int) => Friend(x, y) in friends)
  }

  /** The mutual friends of `u` and `y`, read off the `friends` rows. */
  ghost function MutualFriendSet(friends: seq<Friend>, userId: int, y: int): set<int> {
    set f | f in friends && f.user1Id == userId && Friend(f.user2Id, y) in friends :: f.user2Id
  }

  /** `MutualFriends` lists every mutual friend exactly once. */
  lemma MutualFriendsCount(friends: seq<Friend>, userId: int, y: int)
    ensures |MutualFriends(friends, userId, y)| == |MutualFriendSet(friends, userId, y)|
  {
    var xs := MutualFriends(friends, userId, y);
    var mutual := MutualFriendSet(friends, userId, y);
    forall x ensures x in Elements(xs) <==> x in mutual {
      if x in xs {
        assert Friend(userId, x) in friends;
      }
    }
    assert Elements(xs) == mutual;
    DistinctCardinality(xs);
  }

  /**
   * Friend recommendations as evidently intended: users other than `u` and those `u` has
   * added, with at least two mutual friends, by decreasing number of mutual friends.
   */
  function IntendedFriendRecommendations(s: Snapshot, userId: int): seq<User> {
    var mine := FriendIds(s.friends, userId);
    var score := (v: User) => |MutualFriends(s.friends, userId, v.userId)|;
    var groups := Filter(s.users, (v: User) => v.userId != userId && v.userId !in mine && score(v) > 1);
    SortByScore(groups, score)
  }

  /**
   * Who the intended recommendation returns: users other than `u` and `u`'s friends who have
   * at least two different mutual friends with `u`.
   */
  lemma IntendedFriendRecommendationsMembers(s: Snapshot, userId: int, v: User)
    ensures v in IntendedFriendRecommendations(s, userId) <==>
      && v in s.users
      && v.userId != userId
      && Friend(userId, v.userId) !in s.friends
      && |MutualFriendSet(s.friends, userId, v.userId)| >= 2
  {
    var mine := FriendIds(s.friends, userId);
    var score := (v: User) => |MutualFriends(s.friends, userId, v.userId)|;
    var groups := Filter(s.users, (v: User) => v.userId != userId && v.userId !in mine && score(v) > 1);
    var r := IntendedFriendRecommendations(s, userId);
    assert multiset(r) == multiset(groups);
    assert v in r <==> v in groups by {
      assert v in r <==> multiset(r)[v] > 0;
      assert v in groups <==> multiset(groups)[v] > 0;
    }
    MutualFriendsCount(s.friends, userId, v.userId);
  }

  /** The intended recommendation lists each user once, most mutual friends first. */
  lemma IntendedFriendRecommendationsOrder(s: Snapshot, userId: int)
    requires UserIdsUnique(s.users)
    ensures var r := IntendedFriendRecommendations(s, userId);
      && NoDuplicates(r)
      && forall i, j :: 0 <= i < j < |r| ==>
           |MutualFriendSet(s.friends, userId, r[i].userId)| >= |MutualFriendSet(s.friends, userId, r[j].userId)|
  {
    var mine := FriendIds(s.friends, userId);
    var score := (v: User) => |MutualFriends(s.friends, userId, v.userId)|;
    var p := (v: User) => v.userId != userId && v.userId !in mine && score(v) > 1;
    var groups := Filter(s.users, p);
    var r := SortByScore(groups, score);
    UserRowsDistinct(s.users);
    FilterNoDuplicates(s.users, p);
    SortKeepsDistinct(groups, score);
    forall i, j | 0 <= i < j < |r|
      ensures |MutualFriendSet(s.friends, userId, r[i].userId)| >= |MutualFriendSet(s.friends, userId, r[j].userId)|
    {
      MutualFriendsCount(s.friends, userId, r[i].userId);
      MutualFriendsCount(s.friends, userId, r[j].userId);
      assert score(r[i]) >= score(r[j]);
    }
  }

  /** Under the users key, a group's count is the number of join rows for its id. */
  lemma JoinCountOfRow(rows: seq<int>, users: seq<User>, v: User)
    requires UserIdsUnique(users) && v in users
    ensures JoinCount(rows, users, v.userId) == multiset(rows)[v.userId]
  {
    UsersWithIdOfKey(users, v.userId);
  }

  /** A set holding two different elements has at least two. */
  lemma TwoMembers(through: set<int>, a: int, b: int)
    requires a != b && a in through && b in through
    ensures |through| >= 2
  {
    var others := through - {a, b};
    assert through == others + {a, b};
  }

  /**
   * The missed recommendation: a user reached through two different friends of `u` is
   * recommended by the intended query, while the query as written returns nothing.
   */
  lemma TwoMutualFriendsMissed(s: Snapshot, userId: int, a: int, b: int, v: User)
    requires UserIdsUnique(s.users) && v in s.users
    requires a != b && v.userId != userId && Friend(userId, v.userId) !in s.friends
    requires Friend(userId, a) in s.friends && Friend(a, v.userId) in s.friends
    requires Friend(userId, b) in s.friends && Friend(b, v.userId) in s.friends
    ensures v in IntendedFriendRecommendations(s, userId)
    ensures FriendRecommendations(s, userId) == []
  {
    var mutual := MutualFriendSet(s.friends, userId, v.userId);
    assert Friend(userId, a).user2Id in mutual;
    assert Friend(userId, b).user2Id in mutual;
    TwoMembers(mutual, a, b);
    IntendedFriendRecommendationsMembers(s, userId, v);
    FriendRecommendationsAlwaysEmpty(s, userId);
  }

  /**
   * One mutual friend is not enough, however many duplicate rows link the three users: the
   * intended query counts friends, not rows.
   */
  lemma OneMutualFriendNotEnough(s: Snapshot, userId: int, a: int, v: User)
    requires forall x :: Friend(userId, x) in s.friends && Friend(x, v.userId) in s.friends ==> x == a
    ensures v !in IntendedFriendRecommendations(s, userId)
  {
    var mutual := MutualFriendSet(s.friends, userId, v.userId);
    forall x | x in mutual ensures x == a {
      var f :| f in s.friends && f.user1Id == userId && Friend(f.user2Id, v.userId) in s.friends && f.user2Id == x;
      assert f == Friend(userId, x);
    }
    if a in mutual {
      assert mutual == {a};
    } else {
      assert mutual == {};
    }
    IntendedFriendRecommendationsMembers(s, userId, v);
  }

  /**
   * `get_non_friends_by_first_or_last_name_containing(u, query)`: users whose lower-cased
   * full name contains the lower-cased query, other than `u` and those `u` has added.
   */
  function NonFriendsByName(s: Snapshot, userId: int, query: string): (r: seq<User>)
    ensures forall v :: v in r <==>
      && v in s.users
      && Contains(Lower(v.firstName + " " + v.lastName), Lower(query))
      && v.userId != userId
      && Friend(userId, v.userId) !in s.friends
  {
    var mine := FriendIds(s.friends, userId);
    Filter(s.users, (v: User) =>
      Contains(Lower(v.firstName + " " + v.lastName), Lower(query)) && v.userId != userId && v.userId !in mine)
  }

  /** Only edges out of `u` exclude anyone: someone who added `u` is still found. */
  lemma NonFriendsIgnoreReverseEdges(s: Snapshot, userId: int, query: string, other: int)
    requires other != userId
    ensures NonFriendsByName(s.(friends := s.friends + [Friend(other, userId)]), userId, query)
         == NonFriendsByName(s, userId, query)
  {
    var t := s.(friends := s.friends + [Friend(other, userId)]);
    var mine, mine' := FriendIds(s.friends, userId), FriendIds(t.friends, userId);
    FilterCongruent(s.users,
      (v: User) => Contains(Lower(v.firstName + " " + v.lastName), Lower(query)) && v.userId != userId && v.userId !in mine',
      (v: User) => Contains(Lower(v.firstName + " " + v.lastName), Lower(query)) && v.userId != userId && v.userId !in mine);
  }
}
