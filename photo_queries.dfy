/**
 * Photo recommendation (app/app.py:549-569, called from the route at app/app.py:982-984)
 * and the album membership test `is_photo_in_album` (app/app.py:236-241).
 */
module PhotoQueries {
  import opened Wrappers
  import opened Seqs
  import opened Schema
  import opened Ranking
  import opened Search
  import opened Popularity

  /**
   * `is_photo_in_album(p, a)`: the first `photos` row with id `p` exists and lies in album
   * `a`.
   */
  function IsPhotoInAlbum(photos: seq<Photo>, photoId: int, albumId: int): bool {
    match PhotoAlbum(photos, photoId)
    case None => false
    case Some(a) => a == albumId
  }

  /** With photo ids unique, the test holds exactly when the photo's row names that album. */
  lemma IsPhotoInAlbumSpec(photos: seq<Photo>, photoId: int, albumId: int)
    requires PhotoIdsUnique(photos)
    ensures IsPhotoInAlbum(photos, photoId, albumId)
        <==> exists p :: p in photos && p.photoId == photoId && p.albumId == albumId
  {
    if exists p :: p in photos && p.photoId == photoId && p.albumId == albumId {
      var p :| p in photos && p.photoId == photoId && p.albumId == albumId;
      PhotoAlbumOfRow(photos, p);
    }
  }

  /** All `photo_tags` rows of a photo, whatever their label (the re-join at app/app.py:561). */
  function TagRowCount(photoTags: seq<PhotoTag>, photoId: int): nat {
    |Filter(photoTags, (pt: PhotoTag) => pt.photoId == photoId)|
  }

  /**
   * The `where` of `get_recommended_photos`: at least one tag in `labels` (the
   * `valid_photo_ids` sub-query) and an album owned by someone other than `u`.
   */
  predicate Recommendable(s: Snapshot, labels: seq<string>, userId: int, p: Photo) {
    && MatchCount(s.photoTags, p.photoId, labels) > 0
    && AlbumOwner(s.albums, p.albumId).Some?
    && AlbumOwner(s.albums, p.albumId).value != userId
  }

  /** `order by count(*) asc`, written as a descending order on the negated count. */
  function FewerTagsFirst(photoTags: seq<PhotoTag>): Photo -> int {
    (p: Photo) => -(TagRowCount(photoTags, p.photoId) as int)
  }

  /**
   * `get_recommended_photos(labels, u)`: one row per recommendable photo (`group by
   * p.photo_id`), ordered by the photo's total number of tags, smallest first.
   */
  function RecommendedPhotos(s: Snapshot, labels: seq<string>, userId: int): seq<Photo> {
    SortByScore(Filter(s.photos, (p: Photo) => Recommendable(s, labels, userId, p)), FewerTagsFirst(s.photoTags))
  }

  /** A photo matches one of `labels` exactly when one of its `photo_tags` rows has such a label. */
  lemma MatchCountPositive(photoTags: seq<PhotoTag>, photoId: int, labels: seq<string>)
    ensures MatchCount(photoTags, photoId, labels) > 0
        <==> exists l :: l in labels && PhotoTag(l, photoId) in photoTags
  {
    var rows := MatchRows(photoTags, photoId, labels);
    if |rows| > 0 {
      assert rows[0] in rows;
      assert rows[0] == PhotoTag(rows[0].tagLabel, photoId);
    }
    if exists l :: l in labels && PhotoTag(l, photoId) in photoTags {
      var l :| l in labels && PhotoTag(l, photoId) in photoTags;
      assert PhotoTag(l, photoId) in rows;
    }
  }

  /** The `where` of the query, in terms of the tables' rows. */
  lemma RecommendableIff(s: Snapshot, labels: seq<string>, userId: int, p: Photo)
    requires AlbumIdsUnique(s.albums)
    ensures Recommendable(s, labels, userId, p) <==>
      && (exists l :: l in labels && PhotoTag(l, p.photoId) in s.photoTags)
      && (exists a :: a in s.albums && a.albumId == p.albumId && a.ownerId != userId)
  {
    MatchCountPositive(s.photoTags, p.photoId, labels);
    if exists a :: a in s.albums && a.albumId == p.albumId && a.ownerId != userId {
      var a :| a in s.albums && a.albumId == p.albumId && a.ownerId != userId;
      AlbumOwnerOfRow(s.albums, a);
    }
  }

  /**
   * Which photos are recommended: those carrying at least one of `labels` whose album is
   * owned by someone other than `u`.
   */
  lemma RecommendedPhotosMembers(s: Snapshot, labels: seq<string>, userId: int, p: Photo)
    requires AlbumIdsUnique(s.albums)
    ensures p in RecommendedPhotos(s, labels, userId) <==>
      && p in s.photos
      && (exists l :: l in labels && PhotoTag(l, p.photoId) in s.photoTags)
      && (exists a :: a in s.albums && a.albumId == p.albumId && a.ownerId != userId)
  {
    var matching := Filter(s.photos, (q: Photo) => Recommendable(s, labels, userId, q));
    var r := RecommendedPhotos(s, labels, userId);
    assert multiset(r) == multiset(matching);
    assert p in r <==> p in matching by {
      assert p in r <==> multiset(r)[p] > 0;
      assert p in matching <==> multiset(matching)[p] > 0;
    }
    RecommendableIff(s, labels, userId, p);
  }

  /** Each photo is recommended at most once, by non-decreasing total tag count. */
  lemma RecommendedPhotosOrder(s: Snapshot, labels: seq<string>, userId: int)
    requires PhotoIdsUnique(s.photos)
    ensures var r := RecommendedPhotos(s, labels, userId);
      && NoDuplicates(r)
      && forall i, j :: 0 <= i < j < |r| ==>
           TagRowCount(s.photoTags, r[i].photoId) <= TagRowCount(s.photoTags, r[j].photoId)
  {
    var matching := Filter(s.photos, (p: Photo) => Recommendable(s, labels, userId, p));
    PhotoRowsDistinct(s.photos);
    FilterNoDuplicates(s.photos, (p: Photo) => Recommendable(s, labels, userId, p));
    SortKeepsDistinct(matching, FewerTagsFirst(s.photoTags));
  }

  /** With no labels nothing matches, so nothing is recommended. */
  lemma NoLabelsNoRecommendations(s: Snapshot, userId: int)
    ensures RecommendedPhotos(s, [], userId) == []
  {
    var labels: seq<string> := [];
    forall p | p in s.photos ensures !Recommendable(s, labels, userId, p) {
      MatchCountPositive(s.photoTags, p.photoId, labels);
    }
    FilterNone(s.photos, (p: Photo) => Recommendable(s, labels, userId, p));
  }

  /** The recommendation page: photos recommended from the user's five most used tags. */
  function RecommendationPage(s: Snapshot, userId: int): seq<Photo> {
    RecommendedPhotos(s, UserTopTags(s, userId, 5), userId)
  }

  /**
   * The page never shows the user's own photos, and every photo on it carries a tag the user
   * has put on one of their own photos.
   */
  lemma RecommendationPageSpec(s: Snapshot, userId: int, p: Photo)
    requires AlbumIdsUnique(s.albums)
    requires p in RecommendationPage(s, userId)
    ensures exists a :: a in s.albums && a.albumId == p.albumId && a.ownerId != userId
    ensures exists l ::
      (PhotoTag(l, p.photoId) in s.photoTags
       && exists q :: q in s.photoTags && q.tagLabel == l && PhotoOwner(s, q.photoId) == Some(userId))
  {
    var labels := UserTopTags(s, userId, 5);
    RecommendedPhotosMembers(s, labels, userId, p);
    UserTopTagsRanking(s, userId, 5);
    var l :| l in labels && PhotoTag(l, p.photoId) in s.photoTags;
    assert l in labels;
  }
}
