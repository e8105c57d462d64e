/**
 * The tables the queries of app/app.py read and write, one row type per table (only the
 * columns the core uses), and a snapshot of the whole store. The schema itself is not part of
 * this model; the primary keys the queries rely on are stated by `PrimaryKeys`.
 */
module Schema {
  import opened Wrappers
  import opened Seqs

  datatype User = User(userId: int, firstName: string, lastName: string)
  datatype Album = Album(albumId: int, name: string, ownerId: int)
  datatype Photo = Photo(photoId: int, caption: string, filename: string, albumId: int)
  /** A directed edge: `user1Id` has added `user2Id` as a friend. */
  datatype Friend = Friend(user1Id: int, user2Id: int)
  datatype Like = Like(userId: int, photoId: int)
  datatype Comment = Comment(commentId: int, text: string, photoId: int, userId: int)
  datatype PhotoTag = PhotoTag(tagLabel: string, photoId: int)

  /** The contents of every table at one moment; row order is insertion order. */
  datatype Snapshot = Snapshot(
    users: seq<User>,
    albums: seq<Album>,
    photos: seq<Photo>,
    friends: seq<Friend>,
    likes: seq<Like>,
    comments: seq<Comment>,
    tags: seq<string>,
    photoTags: seq<PhotoTag>)

  ghost predicate UserIdsUnique(users: seq<User>) {
    forall i, j :: 0 <= i < j < |users| ==> users[i].userId != users[j].userId
  }

  ghost predicate AlbumIdsUnique(albums: seq<Album>) {
    forall i, j :: 0 <= i < j < |albums| ==> albums[i].albumId != albums[j].albumId
  }

  ghost predicate PhotoIdsUnique(photos: seq<Photo>) {
    forall i, j :: 0 <= i < j < |photos| ==> photos[i].photoId != photos[j].photoId
  }

  /** `users.user_id`, `albums.album_id`, `photos.photo_id` and `tags.label` are keys. */
  ghost predicate PrimaryKeys(s: Snapshot) {
    && UserIdsUnique(s.users)
    && AlbumIdsUnique(s.albums)
    && PhotoIdsUnique(s.photos)
    && NoDuplicates(s.tags)
  }

  /** `join albums a on a.album_id = <albumId>`, read for `a.owner_id`. */
  function AlbumOwner(albums: seq<Album>, albumId: int): Option<int> {
    match Find(albums, (a: Album) => a.albumId == albumId)
    case None => None
    case Some(a) => Some(a.ownerId)
  }

  /** `select p.album_id from photos p where p.photo_id = <photoId>`, first row. */
  function PhotoAlbum(photos: seq<Photo>, photoId: int): Option<int> {
    match Find(photos, (p: Photo) => p.photoId == photoId)
    case None => None
    case Some(p) => Some(p.albumId)
  }

  /** The owner of a photo, through its album: `photos p join albums a on a.album_id = p.album_id`. */
  function PhotoOwner(s: Snapshot, photoId: int): Option<int> {
    match PhotoAlbum(s.photos, photoId)
    case None => None
    case Some(albumId) => AlbumOwner(s.albums, albumId)
  }

  /** With album ids unique, the owner found by the join is the owner of the album's row. */
  lemma AlbumOwnerOfRow(albums: seq<Album>, a: Album)
    requires AlbumIdsUnique(albums) && a in albums
    ensures AlbumOwner(albums, a.albumId) == Some(a.ownerId)
  {
    var found := Find(albums, (b: Album) => b.albumId == a.albumId);
    var b := found.value;
    var i :| 0 <= i < |albums| && albums[i] == a;
    var j :| 0 <= j < |albums| && albums[j] == b;
    assert i == j;
  }

  /** With photo ids unique, the album found by the lookup is the album of the photo's row. */
  lemma PhotoAlbumOfRow(photos: seq<Photo>, p: Photo)
    requires PhotoIdsUnique(photos) && p in photos
    ensures PhotoAlbum(photos, p.photoId) == Some(p.albumId)
  {
    var found := Find(photos, (q: Photo) => q.photoId == p.photoId);
    var q := found.value;
    var i :| 0 <= i < |photos| && photos[i] == p;
    var j :| 0 <= j < |photos| && photos[j] == q;
    assert i == j;
  }

  /** Distinct user ids make distinct rows. */
  lemma UserRowsDistinct(users: seq<User>)
    requires UserIdsUnique(users)
    ensures NoDuplicates(users)
  {
  }

  /** Distinct photo ids make distinct rows. */
  lemma PhotoRowsDistinct(photos: seq<Photo>)
    requires PhotoIdsUnique(photos)
    ensures NoDuplicates(photos)
  {
  }
}
