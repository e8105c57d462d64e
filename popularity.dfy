/**
 * The ranking queries: most used tags overall (app/app.py:501-513) and on one user's photos
 * (app/app.py:571-586), most active users (app/app.py:71-96), and users ranked by how many
 * of their comments contain a text (app/app.py:415-430).
 */
module Popularity {
  import opened Wrappers
  import opened Seqs
  import opened Text
  import opened Schema
  import opened Ranking

  /** The labels of some `photo_tags` rows, one per group of `group by pt.tag_label`. */
  function TagGroups(photoTags: seq<PhotoTag>): (labels: seq<string>)
    ensures NoDuplicates(labels)
    ensures forall t :: t in labels <==> exists pt :: pt in photoTags && pt.tagLabel == t
  {
    var all := MapSeq(photoTags, (pt: PhotoTag) => pt.tagLabel);
    assert forall t :: t in all ==> exists pt :: pt in photoTags && pt.tagLabel == t;
    assert forall pt :: pt in photoTags ==> pt.tagLabel in all;
    Distinct(all)
  }

  /** `count(*)` of the group of label `t`. */
  function TagUses(photoTags: seq<PhotoTag>, t: string): nat {
    |Filter(photoTags, (pt: PhotoTag) => pt.tagLabel == t)|
  }

  function TagScore(photoTags: seq<PhotoTag>): string -> int {
    (t: string) => TagUses(photoTags, t)
  }

  /** `get_famous_tags(n)`: the n labels with the most `photo_tags` rows. */
  function FamousTags(s: Snapshot, n: nat): seq<string> {
    TopN(TagGroups(s.photoTags), TagScore(s.photoTags), n)
  }

  /** The `photo_tags` rows that survive the joins with the user's albums. */
  function OwnedTagRows(s: Snapshot, userId: int): (rows: seq<PhotoTag>)
    ensures forall pt :: pt in rows <==> pt in s.photoTags && PhotoOwner(s, pt.photoId) == Some(userId)
  {
    Filter(s.photoTags, (pt: PhotoTag) => PhotoOwner(s, pt.photoId) == Some(userId))
  }

  /** `get_user_top_tags(u, n)`: the same ranking over the user's own photos only. */
  function UserTopTags(s: Snapshot, userId: int, n: nat): seq<string> {
    var rows := OwnedTagRows(s, userId);
    TopN(TagGroups(rows), TagScore(rows), n)
  }

  /** `get_famous_tags` returns an admissible top-n of the tag groups. */
  lemma FamousTagsRanking(s: Snapshot, n: nat)
    ensures IsTopN(FamousTags(s, n), Elements(TagGroups(s.photoTags)), TagScore(s.photoTags), n)
  {
    TopNIsTopN(TagGroups(s.photoTags), TagScore(s.photoTags), n);
  }

  /**
   * `get_user_top_tags` returns an admissible top-n of the labels on the user's photos,
   * counted over those photos only, and every label it returns is on one of them.
   */
  lemma UserTopTagsRanking(s: Snapshot, userId: int, n: nat)
    ensures var rows := OwnedTagRows(s, userId);
      IsTopN(UserTopTags(s, userId, n), Elements(TagGroups(rows)), TagScore(rows), n)
    ensures forall t :: t in UserTopTags(s, userId, n) ==>
      exists pt :: pt in s.photoTags && pt.tagLabel == t && PhotoOwner(s, pt.photoId) == Some(userId)
  {
    var rows := OwnedTagRows(s, userId);
    TopNIsTopN(TagGroups(rows), TagScore(rows), n);
    forall t | t in UserTopTags(s, userId, n)
      ensures exists pt :: pt in s.photoTags && pt.tagLabel == t && PhotoOwner(s, pt.photoId) == Some(userId)
    {
      assert t in TagGroups(rows);
    }
  }

  /** `count(comment_id)` of the `comments` left join: comments the user wrote. */
  function CommentsBy(comments: seq<Comment>, userId: int): nat {
    |Filter(comments, (c: Comment) => c.userId == userId)|
  }

  /** `count(photo_id)` of the `albums`/`photos` left joins: photos in albums the user owns. */
  function PhotosOwnedBy(s: Snapshot, userId: int): nat {
    |Filter(s.photos, (p: Photo) => AlbumOwner(s.albums, p.albumId) == Some(userId))|
  }

  /** The `score` column of `get_top_users`. */
  function ActivityScore(s: Snapshot): User -> int {
    (u: User) => CommentsBy(s.comments, u.userId) + PhotosOwnedBy(s, u.userId)
  }

  /** The users `get_top_users` ranks: every user but the guest, whatever their activity. */
  function RankedUsers(s: Snapshot, guestUserId: int): (users: seq<User>)
    ensures forall u :: u in users <==> u in s.users && u.userId != guestUserId
  {
    Filter(s.users, (u: User) => u.userId != guestUserId)
  }

  /** A result row of the user rankings: the user's columns and the computed count. */
  datatype ScoredUser = ScoredUser(user: User, score: int)

  /** Each user of `users` with its score, in the same order. */
  function WithScores(users: seq<User>, score: User -> int): (rows: seq<ScoredUser>)
    ensures |rows| == |users|
    ensures forall i :: 0 <= i < |users| ==> rows[i] == ScoredUser(users[i], score(users[i]))
  {
    MapSeq(users, (u: User) => ScoredUser(u, score(u)))
  }

  /** The user column of some result rows. */
  function UsersOf(rows: seq<ScoredUser>): (users: seq<User>)
    ensures |users| == |rows|
    ensures forall i :: 0 <= i < |rows| ==> users[i] == rows[i].user
  {
    MapSeq(rows, (r: ScoredUser) => r.user)
  }

  /** Dropping the scores again gives back the users. */
  lemma UsersOfWithScores(users: seq<User>, score: User -> int)
    ensures UsersOf(WithScores(users, score)) == users
  {
  }

  /**
   * `get_top_users(n)`: the n non-guest users with the highest activity score, each with its
   * `score` column.
   */
  function TopUsers(s: Snapshot, guestUserId: int, n: nat): seq<ScoredUser> {
    WithScores(TopN(RankedUsers(s, guestUserId), ActivityScore(s), n), ActivityScore(s))
  }

  /**
   * `get_top_users` returns an admissible top-n of all users but the guest, so the guest
   * never appears, and a user with no comment and no photo is still a candidate. The `score`
   * of each row is the number of comments the user wrote plus the number of photos in the
   * albums the user owns.
   */
  lemma TopUsersRanking(s: Snapshot, guestUserId: int, n: nat)
    requires UserIdsUnique(s.users)
    ensures IsTopN(UsersOf(TopUsers(s, guestUserId, n)), Elements(RankedUsers(s, guestUserId)), ActivityScore(s), n)
    ensures forall r :: r in TopUsers(s, guestUserId, n) ==>
      && r.user in s.users
      && r.user.userId != guestUserId
      && r.score == CommentsBy(s.comments, r.user.userId) + PhotosOwnedBy(s, r.user.userId)
  {
    var top := TopN(RankedUsers(s, guestUserId), ActivityScore(s), n);
    UserRowsDistinct(s.users);
    FilterNoDuplicates(s.users, (u: User) => u.userId != guestUserId);
    TopNIsTopN(RankedUsers(s, guestUserId), ActivityScore(s), n);
    UsersOfWithScores(top, ActivityScore(s));
    forall r | r in TopUsers(s, guestUserId, n)
      ensures r.user in s.users && r.user.userId != guestUserId
    {
      var i :| 0 <= i < |top| && TopUsers(s, guestUserId, n)[i] == r;
      assert top[i] in Elements(RankedUsers(s, guestUserId));
    }
  }

  /** The `match_count` of a user: their comments whose text contains `query`. */
  function CommentMatches(comments: seq<Comment>, query: string, userId: int): nat {
    |Filter(comments, (c: Comment) => c.userId == userId && Contains(c.text, query))|
  }

  function MatchScore(comments: seq<Comment>, query: string): User -> int {
    (u: User) => CommentMatches(comments, query, u.userId)
  }

  /**
   * `get_users_by_comments_containing(query)`: the users rows joined with the groups of
   * matching comments (a group exists for a user id exactly when they have a match), by
   * non-increasing `match_count`, with no limit.
   */
  function UsersByCommentsContaining(s: Snapshot, query: string): seq<ScoredUser> {
    var matched := Filter(s.users, (u: User) => CommentMatches(s.comments, query, u.userId) > 0);
    WithScores(SortByScore(matched, MatchScore(s.comments, query)), MatchScore(s.comments, query))
  }

  /**
   * Each user with at least one matching comment appears exactly once, nobody else appears,
   * each row's `match_count` is the number of the user's comments containing the query, and
   * the rows are ordered by it.
   */
  lemma UsersByCommentsContainingSpec(s: Snapshot, query: string)
    requires UserIdsUnique(s.users)
    ensures var r := UsersByCommentsContaining(s, query);
      && NoDuplicates(UsersOf(r))
      && (forall u :: u in UsersOf(r) <==>
            u in s.users && exists c :: c in s.comments && c.userId == u.userId && Contains(c.text, query))
      && (forall i :: 0 <= i < |r| ==>
            r[i].score == |Filter(s.comments, (c: Comment) => c.userId == r[i].user.userId && Contains(c.text, query))|)
      && (forall i, j :: 0 <= i < j < |r| ==> r[i].score >= r[j].score)
  {
    var r := UsersByCommentsContaining(s, query);
    var matched := Filter(s.users, (u: User) => CommentMatches(s.comments, query, u.userId) > 0);
    var sorted := SortByScore(matched, MatchScore(s.comments, query));
    UserRowsDistinct(s.users);
    FilterNoDuplicates(s.users, (u: User) => CommentMatches(s.comments, query, u.userId) > 0);
    SortKeepsDistinct(matched, MatchScore(s.comments, query));
    UsersOfWithScores(sorted, MatchScore(s.comments, query));
    forall u: User ensures CommentMatches(s.comments, query, u.userId) > 0
        <==> exists c :: c in s.comments && c.userId == u.userId && Contains(c.text, query)
    {
      var rows := Filter(s.comments, (c: Comment) => c.userId == u.userId && Contains(c.text, query));
      if |rows| > 0 {
        assert rows[0] in rows;
      }
    }
  }
}
