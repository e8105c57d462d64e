/**
 * The two directed edge tables, `friends` (user -> user) and `likes` (user -> photo):
 * the status tests and the row sets left by the `delete` statements
 * (app/app.py:243-260, 322-339). The inserts themselves are methods of `Store.Store`.
 */
module Edges {
  import opened Seqs
  import opened Schema

  /**
   * `get_friend_status(a, b)`: `select count(*) from friends where user1_id = a and
   * user2_id = b`, compared with 1. The table has no uniqueness check, so the status
   * holds exactly when there is ONE such row.
   */
  function FriendStatus(friends: seq<Friend>, user1Id: int, user2Id: int): (r: bool)
    ensures r <==> multiset(friends)[Friend(user1Id, user2Id)] == 1
  {
    var matches := (f: Friend) => f.user1Id == user1Id && f.user2Id == user2Id;
    FilterSingleCount(friends, matches, Friend(user1Id, user2Id));
    |Filter(friends, matches)| == 1
  }

  /** The `friends` table after `delete from friends where user1_id = a and user2_id = b`. */
  function RemoveFriendRows(friends: seq<Friend>, user1Id: int, user2Id: int): (r: seq<Friend>)
    ensures forall f :: multiset(r)[f] == if f == Friend(user1Id, user2Id) then 0 else multiset(friends)[f]
  {
    var keep := (f: Friend) => !(f.user1Id == user1Id && f.user2Id == user2Id);
    FilterCount(friends, keep);
    Filter(friends, keep)
  }

  /**
   * `get_like_status(photo_id, user_id)` (note the argument order):
   * `select count(*) from likes where user_id = u and photo_id = p`, compared with 1.
   */
  function LikeStatus(likes: seq<Like>, photoId: int, userId: int): (r: bool)
    ensures r <==> multiset(likes)[Like(userId, photoId)] == 1
  {
    var matches := (l: Like) => l.userId == userId && l.photoId == photoId;
    FilterSingleCount(likes, matches, Like(userId, photoId));
    |Filter(likes, matches)| == 1
  }

  /** The `likes` table after `delete from likes where user_id = u and photo_id = p`. */
  function RemoveLikeRows(likes: seq<Like>, userId: int, photoId: int): (r: seq<Like>)
    ensures forall l :: multiset(r)[l] == if l == Like(userId, photoId) then 0 else multiset(likes)[l]
  {
    var keep := (l: Like) => !(l.userId == userId && l.photoId == photoId);
    FilterCount(likes, keep);
    Filter(likes, keep)
  }

  /**
   * `add_friend` appends without looking: the status after an add holds exactly when there
   * was no row before, so adding an existing friend a second time turns the status off.
   */
  lemma FriendStatusAfterAdd(friends: seq<Friend>, user1Id: int, user2Id: int)
    ensures FriendStatus(friends + [Friend(user1Id, user2Id)], user1Id, user2Id)
        <==> Friend(user1Id, user2Id) !in friends
    ensures FriendStatus(friends, user1Id, user2Id)
        ==> !FriendStatus(friends + [Friend(user1Id, user2Id)], user1Id, user2Id)
  {
    assert multiset(friends + [Friend(user1Id, user2Id)]) == multiset(friends) + multiset{Friend(user1Id, user2Id)};
  }

  /** The status is directed: adding or deleting the reverse row never changes it. */
  lemma FriendStatusDirected(friends: seq<Friend>, user1Id: int, user2Id: int)
    requires user1Id != user2Id
    ensures FriendStatus(friends + [Friend(user2Id, user1Id)], user1Id, user2Id)
        == FriendStatus(friends, user1Id, user2Id)
    ensures FriendStatus(RemoveFriendRows(friends, user2Id, user1Id), user1Id, user2Id)
        == FriendStatus(friends, user1Id, user2Id)
  {
    assert multiset(friends + [Friend(user2Id, user1Id)]) == multiset(friends) + multiset{Friend(user2Id, user1Id)};
  }

  /** `remove_friend` deletes every matching row and nothing else, so the status is off after it. */
  lemma RemoveFriendClears(friends: seq<Friend>, user1Id: int, user2Id: int)
    ensures Friend(user1Id, user2Id) !in RemoveFriendRows(friends, user1Id, user2Id)
    ensures !FriendStatus(RemoveFriendRows(friends, user1Id, user2Id), user1Id, user2Id)
    ensures forall f :: f != Friend(user1Id, user2Id) ==>
      (f in RemoveFriendRows(friends, user1Id, user2Id) <==> f in friends)
  {
  }

  /** Repeating `remove_friend` changes nothing. */
  lemma RemoveFriendIdempotent(friends: seq<Friend>, user1Id: int, user2Id: int)
    ensures RemoveFriendRows(RemoveFriendRows(friends, user1Id, user2Id), user1Id, user2Id)
         == RemoveFriendRows(friends, user1Id, user2Id)
  {
    FilterIdempotent(friends, (f: Friend) => !(f.user1Id == user1Id && f.user2Id == user2Id));
  }

  /** `add_friend` followed by `remove_friend` leaves the rows `remove_friend` alone would leave. */
  lemma RemoveAfterAddFriend(friends: seq<Friend>, user1Id: int, user2Id: int)
    ensures RemoveFriendRows(friends + [Friend(user1Id, user2Id)], user1Id, user2Id)
         == RemoveFriendRows(friends, user1Id, user2Id)
  {
    FilterSnoc(friends, Friend(user1Id, user2Id), (f: Friend) => !(f.user1Id == user1Id && f.user2Id == user2Id));
  }

  /** `like_photo` appends without looking, like `add_friend`. */
  lemma LikeStatusAfterAdd(likes: seq<Like>, userId: int, photoId: int)
    ensures LikeStatus(likes + [Like(userId, photoId)], photoId, userId)
        <==> Like(userId, photoId) !in likes
  {
    assert multiset(likes + [Like(userId, photoId)]) == multiset(likes) + multiset{Like(userId, photoId)};
  }

  /** `unlike_photo` deletes every matching row and nothing else. */
  lemma RemoveLikeClears(likes: seq<Like>, userId: int, photoId: int)
    ensures !LikeStatus(RemoveLikeRows(likes, userId, photoId), photoId, userId)
    ensures forall l :: l != Like(userId, photoId) ==>
      (l in RemoveLikeRows(likes, userId, photoId) <==> l in likes)
  {
  }

  /** Repeating `unlike_photo` changes nothing. */
  lemma RemoveLikeIdempotent(likes: seq<Like>, userId: int, photoId: int)
    ensures RemoveLikeRows(RemoveLikeRows(likes, userId, photoId), userId, photoId)
         == RemoveLikeRows(likes, userId, photoId)
  {
    FilterIdempotent(likes, (l: Like) => !(l.userId == userId && l.photoId == photoId));
  }
}
