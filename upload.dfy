/**
 * What `upload_photo` (app/app.py:810-858) does to the store, as a function of the state it
 * starts from: the checks that turn a request away before any write, the plan of writes
 * (the photo, then each missing tag, then one `photo_tags` row per label), and the state
 * left after the first `done` writes of that plan succeed. There is no transaction around
 * the writes, so a failure leaves the writes before it in place.
 */
module Upload {
  import opened Wrappers
  import opened Seqs
  import opened Validation
  import opened Schema

  /** How an upload request ends. `StoreFailed(done)`: write number `done` was rejected. */
  datatype UploadOutcome =
    | NoFileAttached
    | InvalidTags
    | NoSelectedFile
    | BadFileFormat
    | StoreFailed(done: nat)
    | Uploaded(photoId: int)

  /** The result of the checks made before anything is written. */
  datatype Check = Rejected(outcome: UploadOutcome) | Accepted(labels: seq<string>, extension: string)

  /**
   * The checks of `upload_photo`, in its order: a file part must be attached, the tag string
   * must parse, the file name must be non-empty and name an image.
   */
  function CheckUpload(file: Option<string>, tagsString: string): (c: Check)
    ensures c.Accepted? <==>
      && file.Some?
      && ParseTagsString(tagsString).Some?
      && file.value != ""
      && IsFilenameImage(file.value)
    ensures c.Rejected? ==> !c.outcome.StoreFailed? && !c.outcome.Uploaded?
    ensures c.Accepted? ==>
      && Some(c.labels) == ParseTagsString(tagsString)
      && |c.labels| >= 1
      && NoDuplicates(c.labels)
      && Some(c.extension) == GetExtension(file.value)
      && c.extension in ["jpg", "jpeg", "png"]
  {
    if file.None? then Rejected(NoFileAttached)
    else match ParseTagsString(tagsString)
      case None => Rejected(InvalidTags)
      case Some(labels) =>
        if file.value == "" then Rejected(NoSelectedFile)
        else if !IsFilenameImage(file.value) then Rejected(BadFileFormat)
        else
          ParseSucceeds(tagsString);
          Accepted(labels, GetExtension(file.value).value)
  }

  /** The name the file is stored under: `f'{uuid.uuid4().hex}.{extension}'`. */
  function StoredFilename(fileToken: string, extension: string): string {
    fileToken + "." + extension
  }

  /**
   * `does_tag_exist(label)` (app/app.py:442-447): `select count(*) from tags where label = l`,
   * compared with 1.
   */
  function DoesTagExist(tags: seq<string>, tagLabel: string): (r: bool)
    ensures r <==> multiset(tags)[tagLabel] == 1
  {
    var matches := (t: string) => t == tagLabel;
    FilterSingleCount(tags, matches, tagLabel);
    |Filter(tags, matches)| == 1
  }

  /** With `tags.label` a key, the test is plain membership. */
  lemma DoesTagExistIff(tags: seq<string>, tagLabel: string)
    requires NoDuplicates(tags)
    ensures DoesTagExist(tags, tagLabel) <==> tagLabel in tags
  {
    NoDuplicatesCount(tags, tagLabel);
  }

  /** The labels `does_tag_exist` reports absent, in the order they are created. */
  function MissingTags(tags: seq<string>, labels: seq<string>): (missing: seq<string>)
    ensures forall t :: t in missing <==> t in labels && t !in tags
  {
    Filter(labels, (l: string) => l !in tags)
  }

  /** The `photo_tags` rows attaching each label to one photo. */
  function Attachments(labels: seq<string>, photoId: int): (rows: seq<PhotoTag>)
    ensures |rows| == |labels|
    ensures forall i :: 0 <= i < |labels| ==> rows[i] == PhotoTag(labels[i], photoId)
  {
    MapSeq(labels, (l: string) => PhotoTag(l, photoId))
  }

  /** The number of writes of a complete upload. */
  function PlannedWrites(tags: seq<string>, labels: seq<string>): nat {
    1 + |MissingTags(tags, labels)| + |labels|
  }

  /** How many writes succeed when write number `faultAt` (if any) is the first rejected. */
  function WritesDone(faultAt: Option<nat>, total: nat): (done: nat)
    ensures done <= total
    ensures done == total <==> faultAt.None? || faultAt.value >= total
  {
    if faultAt.Some? && faultAt.value < total then faultAt.value else total
  }

  /**
   * The store after the first `done` writes of the plan: the photo row, then the missing
   * tags in label order, then the attachments in label order.
   */
  function UploadedState(s: Snapshot, photo: Photo, labels: seq<string>, done: nat): Snapshot {
    if done == 0 then s
    else
      var missing := MissingTags(s.tags, labels);
      var created := Min(done - 1, |missing|);
      var attached := if done - 1 <= |missing| then 0 else Min(done - 1 - |missing|, |labels|);
      s.(photos := s.photos + [photo],
         tags := s.tags + missing[..created],
         photoTags := s.photoTags + Attachments(labels[..attached], photo.photoId))
  }

  /**
   * No rollback: the state after fewer writes is a prefix of the state after more, table by
   * table, and the tables the upload does not write are never touched.
   */
  lemma UploadNoRollback(s: Snapshot, photo: Photo, labels: seq<string>, d1: nat, d2: nat)
    requires d1 <= d2
    ensures var a, b := UploadedState(s, photo, labels, d1), UploadedState(s, photo, labels, d2);
      && s.photos <= a.photos <= b.photos
      && s.tags <= a.tags <= b.tags
      && s.photoTags <= a.photoTags <= b.photoTags
      && b.users == s.users && b.albums == s.albums && b.friends == s.friends
      && b.likes == s.likes && b.comments == s.comments
  {
    var missing := MissingTags(s.tags, labels);
    if d1 > 0 {
      var n1 := if d1 - 1 <= |missing| then 0 else Min(d1 - 1 - |missing|, |labels|);
      var n2 := if d2 - 1 <= |missing| then 0 else Min(d2 - 1 - |missing|, |labels|);
      assert labels[..n1] <= labels[..n2];
      var r1, r2 := Attachments(labels[..n1], photo.photoId), Attachments(labels[..n2], photo.photoId);
      assert r1 <= r2 by {
        assert forall i :: 0 <= i < |r1| ==> r1[i] == PhotoTag(labels[i], photo.photoId) == r2[i];
      }
    }
  }

  /**
   * Tags are created only for labels `does_tag_exist` reports absent, so however far the
   * upload gets, no label is inserted twice and the new tags are some of the labels.
   */
  lemma UploadKeepsTagsDistinct(s: Snapshot, photo: Photo, labels: seq<string>, done: nat)
    requires NoDuplicates(s.tags) && NoDuplicates(labels)
    ensures var t := UploadedState(s, photo, labels, done).tags;
      && NoDuplicates(t)
      && forall i :: |s.tags| <= i < |t| ==> t[i] !in s.tags && t[i] in labels
  {
    var missing := MissingTags(s.tags, labels);
    FilterNoDuplicates(labels, (l: string) => l !in s.tags);
    if done > 0 {
      var created := missing[..Min(done - 1, |missing|)];
      var t := s.tags + created;
      forall i, j | 0 <= i < j < |t| ensures t[i] != t[j] {
        if j >= |s.tags| {
          assert t[j] == created[j - |s.tags|] && t[j] in missing;
          if i >= |s.tags| {
            assert t[i] == created[i - |s.tags|];
          }
        }
      }
      forall i | |s.tags| <= i < |t| ensures t[i] !in s.tags && t[i] in labels {
        assert t[i] == created[i - |s.tags|] && t[i] in missing;
      }
    }
  }

  /**
   * A complete upload adds the photo, every label exists as a tag afterwards (and no other
   * tag appears), and every label is attached to the new photo.
   */
  lemma UploadCompleteSpec(s: Snapshot, photo: Photo, labels: seq<string>)
    ensures var t := UploadedState(s, photo, labels, PlannedWrites(s.tags, labels));
      && t.photos == s.photos + [photo]
      && (forall l :: l in t.tags <==> l in s.tags || l in labels)
      && (forall l :: l in labels ==> PhotoTag(l, photo.photoId) in t.photoTags)
      && t.photoTags == s.photoTags + Attachments(labels, photo.photoId)
  {
    var missing := MissingTags(s.tags, labels);
    assert missing[..|missing|] == missing;
    assert labels[..|labels|] == labels;
    var t := UploadedState(s, photo, labels, PlannedWrites(s.tags, labels));
    forall l | l in labels ensures PhotoTag(l, photo.photoId) in t.photoTags {
      var i :| 0 <= i < |labels| && labels[i] == l;
      assert Attachments(labels, photo.photoId)[i] == PhotoTag(l, photo.photoId);
    }
  }

  /** While tags are being created: the photo and the first `k` missing tags. */
  lemma UploadedStateCreating(s: Snapshot, photo: Photo, labels: seq<string>, k: nat)
    requires k <= |MissingTags(s.tags, labels)|
    ensures UploadedState(s, photo, labels, 1 + k)
         == s.(photos := s.photos + [photo], tags := s.tags + MissingTags(s.tags, labels)[..k])
  {
    assert labels[..0] == [];
    assert Attachments([], photo.photoId) == [];
  }

  /** While labels are being attached: every missing tag exists, and some labels are attached. */
  lemma UploadedStateAttaching(s: Snapshot, photo: Photo, labels: seq<string>, j: nat)
    requires j <= |labels|
    ensures UploadedState(s, photo, labels, 1 + |MissingTags(s.tags, labels)| + j)
         == s.(photos := s.photos + [photo],
               tags := s.tags + MissingTags(s.tags, labels),
               photoTags := s.photoTags + Attachments(labels[..j], photo.photoId))
  {
    var missing := MissingTags(s.tags, labels);
    assert missing[..|missing|] == missing;
    if j == 0 {
      assert labels[..0] == [];
      assert Attachments([], photo.photoId) == [];
    }
  }
}
