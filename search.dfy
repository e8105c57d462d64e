/**
 * Photo search by tags (app/app.py:515-547) and the search route that calls it
 * (app/app.py:953-965).
 */
module Search {
  import opened Wrappers
  import opened Seqs
  import opened Schema
  import opened Validation

  /** The `photo_tags` rows of one photo whose label is one of `tags` (`tag_label = any(tags)`). */
  function MatchRows(photoTags: seq<PhotoTag>, photoId: int, tags: seq<string>): seq<PhotoTag> {
    Filter(photoTags, (pt: PhotoTag) => pt.photoId == photoId && pt.tagLabel in tags)
  }

  /** The correlated sub-query `select count(*) from photo_tags pt where ...`. */
  function MatchCount(photoTags: seq<PhotoTag>, photoId: int, tags: seq<string>): nat {
    |MatchRows(photoTags, photoId, tags)|
  }

  /** `get_all_photos_by_tags`: the photos whose matching-row count equals `len(tags)`. */
  function AllPhotosByTags(s: Snapshot, tags: seq<string>): seq<Photo> {
    Filter(s.photos, (p: Photo) => |tags| == MatchCount(s.photoTags, p.photoId, tags))
  }

  /**
   * `get_user_photos_by_tags`: the same count test, restricted to photos whose album (found
   * through the `albums` join) is owned by `userId`.
   */
  function UserPhotosByTags(s: Snapshot, tags: seq<string>, userId: int): seq<Photo> {
    Filter(s.photos, (p: Photo) =>
      AlbumOwner(s.albums, p.albumId) == Some(userId) && |tags| == MatchCount(s.photoTags, p.photoId, tags))
  }

  /** A set of labels and the `photo_tags` rows attaching them to one photo have the same size. */
  lemma {:induction false} AttachmentCardinality(labels: set<string>, photoId: int)
    ensures |(set t | t in labels :: PhotoTag(t, photoId))| == |labels|
    decreases |labels|
  {
    if labels != {} {
      var x :| x in labels;
      var rest := labels - {x};
      AttachmentCardinality(rest, photoId);
      assert (set t | t in labels :: PhotoTag(t, photoId))
          == (set t | t in rest :: PhotoTag(t, photoId)) + {PhotoTag(x, photoId)};
    }
  }

  /** The labels of `tags` that are attached to the photo. */
  ghost function PresentTags(photoTags: seq<PhotoTag>, photoId: int, tags: seq<string>): set<string> {
    set t | t in tags && PhotoTag(t, photoId) in photoTags
  }

  /** Without duplicate `photo_tags` rows, the sub-query counts the attached labels of `tags`. */
  lemma MatchCountIsPresent(photoTags: seq<PhotoTag>, photoId: int, tags: seq<string>)
    requires NoDuplicates(photoTags)
    ensures MatchCount(photoTags, photoId, tags) == |PresentTags(photoTags, photoId, tags)|
  {
    var m := MatchRows(photoTags, photoId, tags);
    var present := PresentTags(photoTags, photoId, tags);
    FilterNoDuplicates(photoTags, (pt: PhotoTag) => pt.photoId == photoId && pt.tagLabel in tags);
    DistinctCardinality(m);
    assert Elements(m) == set t | t in present :: PhotoTag(t, photoId);
    AttachmentCardinality(present, photoId);
  }

  /**
   * The count test means "carries every given tag": with distinct tags and no duplicate
   * `photo_tags` row, the number of matching rows is `len(tags)` exactly when every tag is
   * attached to the photo (other tags may be attached too).
   */
  lemma AllTagsIff(photoTags: seq<PhotoTag>, photoId: int, tags: seq<string>)
    requires NoDuplicates(tags) && NoDuplicates(photoTags)
    ensures MatchCount(photoTags, photoId, tags) == |tags|
        <==> forall t :: t in tags ==> PhotoTag(t, photoId) in photoTags
  {
    var present := PresentTags(photoTags, photoId, tags);
    MatchCountIsPresent(photoTags, photoId, tags);
    DistinctCardinality(tags);
    var all := Elements(tags);
    assert present <= all;
    if |present| == |tags| {
      assert |all - present| == |all| - |present| == 0;
      assert all == present;
    }
  }

  /** Which photos `get_all_photos_by_tags` returns. */
  lemma AllPhotosByTagsSpec(s: Snapshot, tags: seq<string>, p: Photo)
    requires NoDuplicates(tags) && NoDuplicates(s.photoTags)
    ensures p in AllPhotosByTags(s, tags)
        <==> p in s.photos && forall t :: t in tags ==> PhotoTag(t, p.photoId) in s.photoTags
  {
    AllTagsIff(s.photoTags, p.photoId, tags);
  }

  /** Which photos `get_user_photos_by_tags` returns: the same, and owned through the album join. */
  lemma UserPhotosByTagsSpec(s: Snapshot, tags: seq<string>, userId: int, p: Photo)
    requires NoDuplicates(tags) && NoDuplicates(s.photoTags) && AlbumIdsUnique(s.albums)
    ensures p in UserPhotosByTags(s, tags, userId)
        <==> && p in s.photos
             && (exists a :: a in s.albums && a.albumId == p.albumId && a.ownerId == userId)
             && forall t :: t in tags ==> PhotoTag(t, p.photoId) in s.photoTags
  {
    AllTagsIff(s.photoTags, p.photoId, tags);
    if exists a :: a in s.albums && a.albumId == p.albumId && a.ownerId == userId {
      var a :| a in s.albums && a.albumId == p.albumId && a.ownerId == userId;
      AlbumOwnerOfRow(s.albums, a);
    }
  }

  /** With no tags the count test is `0 = 0`, so every photo is returned. */
  lemma NoTagsMatchEverything(s: Snapshot)
    ensures AllPhotosByTags(s, []) == s.photos
  {
    var tags: seq<string> := [];
    forall p: Photo ensures MatchCount(s.photoTags, p.photoId, tags) == 0 {
      FilterNone(s.photoTags, (pt: PhotoTag) => pt.photoId == p.photoId && pt.tagLabel in tags);
    }
    FilterAll(s.photos, (p: Photo) => |tags| == MatchCount(s.photoTags, p.photoId, tags));
  }

  /** What the search page shows. */
  datatype SearchOutcome = EmptyPage | InvalidTags | Results(photos: seq<Photo>)

  /**
   * The search route: an empty tag string shows an empty page, an unparsable one an error,
   * and otherwise the photos carrying every parsed tag, of one user when `userId` is given.
   */
  function SearchPhotos(s: Snapshot, tagsString: string, userId: Option<int>): SearchOutcome {
    if |tagsString| == 0 then EmptyPage
    else match ParseTagsString(tagsString)
      case None => InvalidTags
      case Some(labels) =>
        Results(if userId.None? then AllPhotosByTags(s, labels) else UserPhotosByTags(s, labels, userId.value))
  }

  /**
   * The search queries are never called with an empty tag list: a result page comes from a
   * successful parse, which yields at least one distinct tag.
   */
  lemma SearchNeverWithoutTags(s: Snapshot, tagsString: string, userId: Option<int>)
    ensures SearchPhotos(s, tagsString, userId).Results? <==> ParseTagsString(tagsString).Some?
    ensures SearchPhotos(s, tagsString, userId).Results? ==>
      var labels := ParseTagsString(tagsString).value;
      && |labels| >= 1
      && NoDuplicates(labels)
      && SearchPhotos(s, tagsString, userId).photos ==
           if userId.None? then AllPhotosByTags(s, labels) else UserPhotosByTags(s, labels, userId.value)
  {
    if |tagsString| == 0 {
      assert tagsString == [];
      var empty := NormalizedTokens(tagsString)[0];
      assert empty == [] && empty in NormalizedTokens(tagsString);
      ParseFailsIff(tagsString);
    }
    if ParseTagsString(tagsString).Some? {
      ParseSucceeds(tagsString);
    }
  }
}
