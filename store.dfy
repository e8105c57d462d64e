/**
 * The database as one mutable object: a sequence of rows per table and the `photos.photo_id`
 * sequence. Its methods are the write functions of app/app.py, each changing only the table
 * its statement writes, and `upload_photo`, which chains them.
 */
module Store {
  import opened Wrappers
  import opened Seqs
  import opened Schema
  import opened Edges
  import opened Upload

  class Store {
    var users: seq<User>
    var albums: seq<Album>
    var photos: seq<Photo>
    var friends: seq<Friend>
    var likes: seq<Like>
    var comments: seq<Comment>
    var tags: seq<string>
    var photoTags: seq<PhotoTag>
    /** The next value the `photos.photo_id` serial hands out. */
    var nextPhotoId: int

    /** The tables, as the read queries see them. */
    function View(): Snapshot
      reads this
    {
      Snapshot(users, albums, photos, friends, likes, comments, tags, photoTags)
    }

    /** The keys the writes rely on: tag labels and photo ids are unique, photo ids are issued in order. */
    ghost predicate Valid()
      reads this
    {
      && NoDuplicates(tags)
      && PhotoIdsUnique(photos)
      && forall p :: p in photos ==> p.photoId < nextPhotoId
    }

    constructor (s: Snapshot, firstPhotoId: int)
      requires NoDuplicates(s.tags) && PhotoIdsUnique(s.photos)
      requires forall p :: p in s.photos ==> p.photoId < firstPhotoId
      ensures Valid()
      ensures View() == s && nextPhotoId == firstPhotoId
    {
      users, albums, photos, friends := s.users, s.albums, s.photos, s.friends;
      likes, comments, tags, photoTags := s.likes, s.comments, s.tags, s.photoTags;
      nextPhotoId := firstPhotoId;
    }

    /** `add_friend(a, b)`: appends the row, whether or not it is already there. */
    method AddFriend(user1Id: int, user2Id: int)
      requires Valid()
      modifies this`friends
      ensures Valid()
      ensures friends == old(friends) + [Friend(user1Id, user2Id)]
      ensures FriendStatus(friends, user1Id, user2Id) <==> Friend(user1Id, user2Id) !in old(friends)
    {
      friends := friends + [Friend(user1Id, user2Id)];
      FriendStatusAfterAdd(old(friends), user1Id, user2Id);
    }

    /** `remove_friend(a, b)`: deletes every `(a, b)` row and no other. */
    method RemoveFriend(user1Id: int, user2Id: int)
      requires Valid()
      modifies this`friends
      ensures Valid()
      ensures friends == RemoveFriendRows(old(friends), user1Id, user2Id)
      ensures !FriendStatus(friends, user1Id, user2Id)
    {
      friends := RemoveFriendRows(friends, user1Id, user2Id);
    }

    /** `like_photo(u, p)`: appends the row, whether or not it is already there. */
    method LikePhoto(userId: int, photoId: int)
      requires Valid()
      modifies this`likes
      ensures Valid()
      ensures likes == old(likes) + [Like(userId, photoId)]
      ensures LikeStatus(likes, photoId, userId) <==> Like(userId, photoId) !in old(likes)
    {
      likes := likes + [Like(userId, photoId)];
      LikeStatusAfterAdd(old(likes), userId, photoId);
    }

    /** `unlike_photo(u, p)`: deletes every `(u, p)` row and no other. */
    method UnlikePhoto(userId: int, photoId: int)
      requires Valid()
      modifies this`likes
      ensures Valid()
      ensures likes == RemoveLikeRows(old(likes), userId, photoId)
      ensures !LikeStatus(likes, photoId, userId)
    {
      likes := RemoveLikeRows(likes, userId, photoId);
    }

    /**
     * `add_tag(label)` (app/app.py:449-469): the insert fails on the `tags.label` key when the
     * label exists, or when the store rejects it for another reason (`fault`).
     */
    method AddTag(tagLabel: string, fault: bool) returns (ok: bool)
      requires Valid()
      modifies this`tags
      ensures Valid()
      ensures ok <==> tagLabel !in old(tags) && !fault
      ensures tags == if ok then old(tags) + [tagLabel] else old(tags)
    {
      if tagLabel in tags || fault {
        ok := false;
      } else {
        tags := tags + [tagLabel];
        ok := true;
      }
    }

    /** `add_photo_tag(p, label)` (app/app.py:471-487): one insert, unless the store rejects it. */
    method AddPhotoTag(photoId: int, tagLabel: string, fault: bool) returns (ok: bool)
      requires Valid()
      modifies this`photoTags
      ensures Valid()
      ensures ok <==> !fault
      ensures photoTags == if ok then old(photoTags) + [PhotoTag(tagLabel, photoId)] else old(photoTags)
    {
      if fault {
        ok := false;
      } else {
        photoTags := photoTags + [PhotoTag(tagLabel, photoId)];
        ok := true;
      }
    }

    /**
     * `add_photo` (app/app.py:192-217): inserts the photo under the next serial id and
     * returns that id, or nothing when the store rejects the insert.
     */
    method AddPhoto(caption: string, filename: string, albumId: int, fault: bool) returns (photoId: Option<int>)
      requires Valid()
      modifies this`photos, this`nextPhotoId
      ensures Valid()
      ensures fault ==> photoId.None? && photos == old(photos) && nextPhotoId == old(nextPhotoId)
      ensures !fault ==>
        && photoId == Some(old(nextPhotoId))
        && photos == old(photos) + [Photo(old(nextPhotoId), caption, filename, albumId)]
        && nextPhotoId == old(nextPhotoId) + 1
        && forall p :: p in old(photos) ==> p.photoId != photoId.value
    {
      if fault {
        photoId := None;
      } else {
        photos := photos + [Photo(nextPhotoId, caption, filename, albumId)];
        photoId := Some(nextPhotoId);
        nextPhotoId := nextPhotoId + 1;
      }
    }

    /**
     * One round of the first loop of `upload_photo`: `labels[i]` is created unless
     * `does_tag_exist` finds it. `inserted` says whether a row was added.
     */
    method CreateIfMissing(ghost start: seq<string>, labels: seq<string>, i: nat, fault: bool)
      returns (inserted: bool, ok: bool)
      requires Valid() && NoDuplicates(labels) && i < |labels|
      requires tags == start + MissingTags(start, labels[..i])
      modifies this`tags
      ensures Valid()
      ensures ok <==> labels[i] in start || !fault
      ensures inserted <==> ok && labels[i] !in start
      ensures tags == if inserted then old(tags) + [labels[i]] else old(tags)
      ensures ok ==> tags == start + MissingTags(start, labels[..i + 1])
    {
      var tagLabel := labels[i];
      TagStep(start, labels, i);
      DoesTagExistIff(tags, tagLabel);
      if DoesTagExist(tags, tagLabel) {
        return false, true;
      }
      ok := AddTag(tagLabel, fault);
      inserted := ok;
      if ok {
        SnocAssoc(start, MissingTags(start, labels[..i]), tagLabel);
      }
    }

    /**
     * The first loop of `upload_photo`: creates each label `does_tag_exist` reports absent,
     * in label order, stopping at the first rejected insert. Its writes are numbered from
     * `first`; `created` says how many succeeded.
     */
    method CreateTags(labels: seq<string>, faultAt: Option<nat>, first: nat) returns (created: nat, ok: bool)
      requires Valid() && NoDuplicates(labels)
      modifies this`tags
      ensures Valid()
      ensures var missing := MissingTags(old(tags), labels);
        && created <= |missing|
        && tags == old(tags) + missing[..created]
        && (ok <==> created == |missing|)
        && (ok ==> faultAt.None? || faultAt.value < first || faultAt.value >= first + created)
        && (!ok ==> faultAt.Some? && faultAt.value == first + created)
    {
      ghost var start := tags;
      created := 0;
      var i := 0;
      assert labels[..0] == [];
      while i < |labels|
        invariant 0 <= i <= |labels|
        invariant Valid()
        invariant tags == start + MissingTags(start, labels[..i])
        invariant created == |MissingTags(start, labels[..i])|
        invariant faultAt.None? || faultAt.value < first || faultAt.value >= first + created
      {
        var inserted, stepOk := CreateIfMissing(start, labels, i, faultAt.Some? && faultAt.value == first + created);
        if !stepOk {
          MissingNext(start, labels, i);
          return created, false;
        }
        if inserted {
          created := created + 1;
        }
        i := i + 1;
      }
      MissingPrefix(start, labels, i);
      ok := true;
    }

    /**
     * The second loop of `upload_photo`: one `photo_tags` row per label, stopping at the first
     * rejected insert. Its writes are numbered from `first`.
     */
    method AttachTags(photoId: int, labels: seq<string>, faultAt: Option<nat>, first: nat) returns (attached: nat, ok: bool)
      requires Valid()
      modifies this`photoTags
      ensures Valid()
      ensures attached <= |labels|
      ensures photoTags == old(photoTags) + Attachments(labels[..attached], photoId)
      ensures ok <==> attached == |labels|
      ensures ok ==> faultAt.None? || faultAt.value < first || faultAt.value >= first + attached
      ensures !ok ==> faultAt == Some(first + attached)
    {
      ghost var start := photoTags;
      attached := 0;
      assert labels[..0] == [];
      while attached < |labels|
        invariant 0 <= attached <= |labels|
        invariant Valid()
        invariant photoTags == start + Attachments(labels[..attached], photoId)
        invariant faultAt.None? || faultAt.value < first || faultAt.value >= first + attached
      {
        var inserted := AddPhotoTag(photoId, labels[attached], faultAt.Some? && faultAt.value == first + attached);
        if !inserted {
          return attached, false;
        }
        assert labels[..attached + 1] == labels[..attached] + [labels[attached]];
        attached := attached + 1;
      }
      ok := true;
    }

    /**
     * The writes of `upload_photo` once its checks pass: the photo, then the missing tags,
     * then the attachments, stopping at the first rejected write (number `faultAt`) and
     * keeping what was written before it.
     */
    method WriteUpload(caption: string, filename: string, albumId: int, labels: seq<string>,
                       faultAt: Option<nat>) returns (outcome: UploadOutcome)
      requires Valid() && NoDuplicates(labels)
      modifies this`photos, this`nextPhotoId, this`tags, this`photoTags
      ensures Valid()
      ensures var photo := Photo(old(nextPhotoId), caption, filename, albumId);
        var total := PlannedWrites(old(tags), labels);
        var done := WritesDone(faultAt, total);
        && View() == UploadedState(old(View()), photo, labels, done)
        && outcome == if done == total then Uploaded(photo.photoId) else StoreFailed(done)
    {
      ghost var s0 := View();
      ghost var photo := Photo(nextPhotoId, caption, filename, albumId);
      ghost var missing := MissingTags(s0.tags, labels);
      ghost var total := PlannedWrites(s0.tags, labels);

      var photoId := AddPhoto(caption, filename, albumId, faultAt.Some? && faultAt.value == 0);
      if photoId.None? {
        assert WritesDone(faultAt, total) == 0;
        return StoreFailed(0);
      }

      var created, tagsOk := CreateTags(labels, faultAt, 1);
      if !tagsOk {
        assert WritesDone(faultAt, total) == 1 + created;
        UploadedStateCreating(s0, photo, labels, created);
        return StoreFailed(1 + created);
      }

      var attached, attachOk := AttachTags(photoId.value, labels, faultAt, 1 + created);
      UploadedStateAttaching(s0, photo, labels, attached);
      if !attachOk {
        assert WritesDone(faultAt, total) == 1 + created + attached;
        return StoreFailed(1 + created + attached);
      }
      assert WritesDone(faultAt, total) == total;
      assert labels[..attached] == labels;
      return Uploaded(photoId.value);
    }

    /**
     * `upload_photo(album_id)`: the request checks, in their order, and then the writes.
     * The file is stored under `fileToken`, which stands for the random name the route draws.
     * The loops visit the parsed labels in the order of a Python `set`, which the program does
     * not fix; `order` stands for that order and may be any arrangement of the labels.
     */
    method UploadPhoto(file: Option<string>, caption: string, tagsString: string, albumId: int,
                       fileToken: string, order: seq<string>, faultAt: Option<nat>)
      returns (outcome: UploadOutcome)
      requires Valid()
      requires CheckUpload(file, tagsString).Accepted? ==>
        NoDuplicates(order) && Elements(order) == Elements(CheckUpload(file, tagsString).labels)
      modifies this`photos, this`nextPhotoId, this`tags, this`photoTags
      ensures Valid()
      ensures CheckUpload(file, tagsString).Rejected? ==>
        && outcome == CheckUpload(file, tagsString).outcome
        && View() == old(View())
        && nextPhotoId == old(nextPhotoId)
      ensures CheckUpload(file, tagsString).Accepted? ==>
        var check := CheckUpload(file, tagsString);
        var photo := Photo(old(nextPhotoId), caption, StoredFilename(fileToken, check.extension), albumId);
        var total := PlannedWrites(old(tags), order);
        var done := WritesDone(faultAt, total);
        && View() == UploadedState(old(View()), photo, order, done)
        && outcome == if done == total then Uploaded(photo.photoId) else StoreFailed(done)
    {
      var check := CheckUpload(file, tagsString);
      if check.Rejected? {
        return check.outcome;
      }
      outcome := WriteUpload(caption, StoredFilename(fileToken, check.extension), albumId, order, faultAt);
    }
  }

  /**
   * One step of the tag-creation loop: the next label is missing from the tags created so
   * far exactly when it is missing from the tags at the start, since the labels are distinct;
   * the missing ones are appended in order.
   */
  lemma TagStep(tags: seq<string>, labels: seq<string>, i: nat)
    requires NoDuplicates(labels) && i < |labels|
    ensures labels[i] in tags + MissingTags(tags, labels[..i]) <==> labels[i] in tags
    ensures labels[i] in tags ==> MissingTags(tags, labels[..i + 1]) == MissingTags(tags, labels[..i])
    ensures labels[i] !in tags ==>
      MissingTags(tags, labels[..i + 1]) == MissingTags(tags, labels[..i]) + [labels[i]]
  {
    assert labels[..i + 1] == labels[..i] + [labels[i]];
    FilterSnoc(labels[..i], labels[i], (l: string) => l !in tags);
  }

  lemma SnocAssoc<T>(a: seq<T>, b: seq<T>, x: T)
    ensures a + (b + [x]) == (a + b) + [x]
  {
  }

  /** When the next label is missing, the tags created so far are a strict prefix of all the missing ones. */
  lemma MissingNext(tags: seq<string>, labels: seq<string>, i: nat)
    requires i < |labels| && labels[i] !in tags
    ensures var sofar := MissingTags(tags, labels[..i]);
      && |sofar| < |MissingTags(tags, labels)|
      && MissingTags(tags, labels)[..|sofar|] == sofar
  {
    var sofar := MissingTags(tags, labels[..i]);
    var missing := MissingTags(tags, labels);
    assert labels[..i + 1] == labels[..i] + [labels[i]];
    FilterSnoc(labels[..i], labels[i], (l: string) => l !in tags);
    MissingPrefix(tags, labels, i + 1);
    assert missing[..|sofar|] == missing[..|sofar| + 1][..|sofar|];
  }

  /** The tags created by the first `i` steps are the first ones of all the missing tags. */
  lemma MissingPrefix(tags: seq<string>, labels: seq<string>, i: nat)
    requires i <= |labels|
    ensures var sofar := MissingTags(tags, labels[..i]);
      && |sofar| <= |MissingTags(tags, labels)|
      && MissingTags(tags, labels)[..|sofar|] == sofar
      && (i == |labels| ==> sofar == MissingTags(tags, labels))
  {
    FilterPrefix(labels, (l: string) => l !in tags, i);
    if i == |labels| {
      assert labels[..i] == labels;
    }
  }
}
