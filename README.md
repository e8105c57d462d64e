# Photo-sharing store: a verified model of its queries and writes

The application is a small photo-sharing site (Flask on top of PostgreSQL). Users own albums
of photos, add one another as friends (a directed edge), like and comment on photos, and tag
photos with lower-case labels. Almost all of its logic lives in `app/app.py`: three string
helpers that validate file names and tag strings, and SQL statements that read or write the
tables `users`, `albums`, `photos`, `friends`, `likes`, `comments`, `tags` and `photo_tags`.

This project models that logic in Dafny and proves what it does.

- **Text** and **Validation.** `str.lower`, `str.strip` and `str.split` are modelled as
  functions, together with `re.match(r'^[a-z]+$', ...)`. On top of them sit `get_extension`,
  `is_filename_image` and `parse_tags_string`.
- **Schema.** One datatype per table row and a `Snapshot` holding every table as a sequence of
  rows in insertion order. The joins on primary keys are modelled as lookups (`AlbumOwner`,
  `PhotoAlbum`, `PhotoOwner`).
- **Seqs** and **Ranking.** A `WHERE` is `Filter`, a projection is `MapSeq`, and
  `EXCEPT` or `GROUP BY` keys are `Distinct`. `ORDER BY ... DESC LIMIT n` is a stable
  insertion sort followed by a prefix (`TopN`). `IsTopN` describes every answer Postgres may
  give, since ties may come back in any order.
- **Edges.** `friends` and `likes`: the status tests and the row deletions, as functions on
  the table.
- **FriendQueries, Search, Popularity, PhotoQueries.** The aggregate read queries, each as a
  function over a `Snapshot`, with lemmas that say which rows come back and in what order.
- **Upload** and **Store.** `Store.Store` is the database as one object with one `seq`
  field per table and the `photos.photo_id` serial. Its methods are the write functions
  (`add_friend`, `remove_friend`, `like_photo`, `unlike_photo`, `add_tag`, `add_photo_tag`,
  `add_photo`) and the two loops of `upload_photo`. Module `Upload` gives the state an upload
  leaves behind as a function (`UploadedState`). `Store.Store.UploadPhoto` is proved to
  produce exactly that state.

The store can reject an insert for reasons the code does not control (a lost connection, a
constraint of the schema that is not shown). Such a rejection is a parameter: `fault: bool`
for a single write. For `upload_photo` it is `faultAt: Option<nat>`, the number of the first
rejected write. The writes are numbered in order: 0 is the photo, then the missing tags, then
the `photo_tags` rows.

A tag search with no tags returns every photo: the count sub-query of
`get_all_photos_by_tags` compares `0 = 0` (`Search.NoTagsMatchEverything`). The search route
never makes that call (`Search.SearchNeverWithoutTags`).

## Model

| member | source | states |
|---|---|---|
| Text.Lower | app/app.py:40 | `lower()` keeps the length and lower-cases each ASCII capital, leaving every other character alone |
| Text.LowerIdempotent | app/app.py:433-434 | lower-casing twice is the same as lower-casing once |
| Text.TrimStart | app/app.py:434 | the result is a suffix of the input that does not start with whitespace, and only whitespace was dropped |
| Text.TrimEnd | app/app.py:434 | the result is a prefix of the input that does not end with whitespace, and only whitespace was dropped |
| Text.Strip | app/app.py:434 | `strip()` neither starts nor ends with whitespace, and it leaves a string without whitespace unchanged |
| Text.StrippedTagPattern | app/app.py:437 | on a stripped token, `^[a-z]+$` as `re.match` reads it accepts exactly the non-empty lower-case words (the newline allowance of `$` never applies) |
| Text.Split | app/app.py:36 | `split(sep)` always gives at least one piece, and no piece contains the separator |
| Text.JoinSplit | app/app.py:36 | joining the pieces of a split with the separator gives back the input |
| Text.SplitJoin | app/app.py:36 | splitting a join of separator-free pieces gives back the pieces |
| Text.SplitCount | app/app.py:36-38 | a split has one more piece than the input has separators |
| Text.SplitLast | app/app.py:36-40 | the last piece of a split is the text after the last separator |
| Text.NoSeparatorSplit | app/app.py:36 | an input without the separator splits into itself alone |
| Validation.LastDot | app/app.py:36-40 | the position of the last '.', with no '.' after it |
| Validation.LastDotUnique | app/app.py:36-40 | any position holding a '.' with no '.' after it is the last '.' |
| Validation.GetExtension | app/app.py:32-40 | specified by `Validation.GetExtensionSpec` and `Validation.ExtensionOfLower` |
| Validation.GetExtensionSpec | app/app.py:32-40 | `get_extension` is None exactly when there is no '.'; otherwise it is the lower-cased text after the last '.', which contains no '.' |
| Validation.LowerKeepsDots | app/app.py:40 | lower-casing keeps every '.' where it is and adds none |
| Validation.ExtensionOfLower | app/app.py:32-40 | the extension of the lower-cased file name is the extension of the file name |
| Validation.IsFilenameImageCaseInsensitive | app/app.py:42-44 | `is_filename_image` gives the same answer for a name and its lower-cased form |
| Validation.NormalizeToken | app/app.py:434 | `x.lower().strip()` is empty or ends in a non-whitespace character |
| Validation.NormalizedTokens | app/app.py:433-434 | splitting on ' ' yields at least one token, so an empty input yields the empty token |
| Validation.TokensMatchIffWords | app/app.py:436-438 | every normalized token passes the regular expression exactly when it is a non-empty lower-case word |
| Validation.ParseTagsString | app/app.py:432-440 | specified by `Validation.ParseFailsIff` and `Validation.ParseSucceeds` |
| Validation.ParseFailsIff | app/app.py:432-440 | `parse_tags_string` is None exactly when some token (the empty token of a double, leading or trailing space included) is not a lower-case word |
| Validation.ParseSucceeds | app/app.py:432-440 | a successful parse is non-empty and duplicate-free, holds only lower-case words, and holds every normalized token |
| Schema.AlbumOwnerOfRow | app/app.py:180-190 | with album ids unique, the owner the join finds is the owner in the album's row |
| Schema.PhotoAlbumOfRow | app/app.py:236-241 | with photo ids unique, the album the lookup finds is the album in the photo's row |
| Edges.FriendStatus | app/app.py:243-248 | `get_friend_status(a, b)` holds exactly when the row (a, b) occurs exactly once |
| Edges.RemoveFriendRows | app/app.py:256-260 | `remove_friend(a, b)` deletes every (a, b) row and keeps every other row as often as before |
| Edges.LikeStatus | app/app.py:322-327 | `get_like_status(p, u)` holds exactly when the row (u, p) occurs exactly once |
| Edges.RemoveLikeRows | app/app.py:335-339 | `unlike_photo(u, p)` deletes every (u, p) row and keeps every other row as often as before |
| Edges.FriendStatusAfterAdd | app/app.py:243-254 | after `add_friend(a, b)` the status holds exactly when no (a, b) row existed before, so a second add turns it off |
| Edges.FriendStatusDirected | app/app.py:243-260 | adding or removing the reverse row (b, a) never changes the status of (a, b) |
| Edges.RemoveFriendClears | app/app.py:256-260 | after `remove_friend(a, b)` no (a, b) row is left, the status is off, and every other row is present exactly when it was before |
| Edges.RemoveFriendIdempotent | app/app.py:256-260 | a second `remove_friend` changes nothing |
| Edges.RemoveAfterAddFriend | app/app.py:250-260 | `add_friend` then `remove_friend` leaves what `remove_friend` alone leaves |
| Edges.LikeStatusAfterAdd | app/app.py:322-333 | after `like_photo(u, p)` the status holds exactly when no (u, p) row existed before |
| Edges.RemoveLikeClears | app/app.py:335-339 | after `unlike_photo(u, p)` the status is off and every other row is present exactly when it was before |
| Edges.RemoveLikeIdempotent | app/app.py:335-339 | a second `unlike_photo` changes nothing |
| FriendQueries.FriendIds | app/app.py:300-303 | the `my_friends` sub-query yields exactly the users `u` has added |
| FriendQueries.HopsFrom | app/app.py:304-305 | the rows joined to one friend x are exactly the y other than `u` that x has added |
| FriendQueries.FriendsOfFriends | app/app.py:297-306 | the rows before `except` are exactly the y other than `u` reached by u -> x -> y |
| FriendQueries.Candidates | app/app.py:296-312 | after the distinct `except`, each candidate occurs once and is a friend of a friend of `u` who is neither `u` nor someone `u` has added |
| FriendQueries.UsersWithIdOfKey | app/app.py:313-314 | with `users.user_id` a key, a user id matches at most one row, and exactly one when a row has it |
| FriendQueries.DistinctJoinCount | app/app.py:313-315 | a group over duplicate-free candidates joined with a keyed `users` has at most one row |
| FriendQueries.FriendRecommendations | app/app.py:292-320 | specified by `FriendQueries.FriendRecommendationsAlwaysEmpty` |
| FriendQueries.FriendRecommendationsAlwaysEmpty | app/app.py:292-320 | as written, `get_friend_recommendations` always returns nothing, because `having count(*) > 1` never holds |
| FriendQueries.JoinCountOfRow | app/app.py:313-315 | under the users key, a group's `count(*)` is the number of join rows for its id |
| FriendQueries.MutualFriends | app/app.py:297-306 | the friends of `u` who have added y, each once however many duplicate rows link them |
| FriendQueries.MutualFriendsCount | app/app.py:297-306 | the number of mutual friends counted is the number of different users x with u -> x -> y |
| FriendQueries.IntendedFriendRecommendations | app/app.py:292-320 | specified by `FriendQueries.IntendedFriendRecommendationsMembers` and `FriendQueries.IntendedFriendRecommendationsOrder` |
| FriendQueries.IntendedFriendRecommendationsMembers | app/app.py:292-320 | the corrected query returns exactly the users other than `u` and `u`'s friends who have at least two different mutual friends with `u` |
| FriendQueries.IntendedFriendRecommendationsOrder | app/app.py:315-316 | the corrected query lists each user once, by non-increasing number of different mutual friends |
| FriendQueries.TwoMutualFriendsMissed | app/app.py:292-320 | a user with two different mutual friends is recommended by the corrected query, while the query as written returns nothing |
| FriendQueries.OneMutualFriendNotEnough | app/app.py:250-254 | one mutual friend is not enough for the corrected query, however many duplicate `friends` rows `add_friend` has inserted |
| FriendQueries.NonFriendsByName | app/app.py:274-290 | exactly the users whose lower-cased full name contains the lower-cased query, other than `u` and those `u` has added |
| FriendQueries.NonFriendsIgnoreReverseEdges | app/app.py:284-288 | an edge towards `u` excludes nobody: the result is the same with or without it |
| Ranking.Insert | app/app.py:91 | inserting into a non-increasing sequence keeps it non-increasing and keeps the same elements |
| Ranking.SortByScore | app/app.py:91 | the sort is a permutation of its input and is non-increasing in the score |
| Ranking.SortKeepsDistinct | app/app.py:91 | sorting keeps the same groups and keeps them distinct |
| Ranking.PrefixKeepsOrder | app/app.py:91-92 | a prefix of a distinct, non-increasing sequence is distinct and non-increasing |
| Ranking.TopNIsTopN | app/app.py:91-92 | the model's `order by ... desc limit n` is an admissible answer: distinct groups, `min(n, groups)` of them, non-increasing, no left-out group scoring above a returned one, and all groups when there are at most n |
| Popularity.TagGroups | app/app.py:504-506 | `group by pt.tag_label` gives each label that occurs in `photo_tags` exactly once |
| Popularity.FamousTags | app/app.py:501-513 | specified by `Popularity.FamousTagsRanking` |
| Popularity.FamousTagsRanking | app/app.py:501-513 | `get_famous_tags(n)` is an admissible top-n of the labels by number of `photo_tags` rows |
| Popularity.OwnedTagRows | app/app.py:574-578 | the joins keep exactly the `photo_tags` rows whose photo lies in an album the user owns |
| Popularity.UserTopTags | app/app.py:571-586 | specified by `Popularity.UserTopTagsRanking` |
| Popularity.UserTopTagsRanking | app/app.py:571-586 | `get_user_top_tags(u, n)` is an admissible top-n counted over the user's own photos only, and each label returned is on one of them |
| Popularity.RankedUsers | app/app.py:71-91 | the candidates of `get_top_users` are all users but the guest, with or without activity |
| Popularity.WithScores | app/app.py:74 | each user row is paired with its computed count, in the same order |
| Popularity.TopUsers | app/app.py:71-96 | specified by `Popularity.TopUsersRanking` |
| Popularity.TopUsersRanking | app/app.py:71-96 | `get_top_users(n)` is an admissible top-n of the non-guest users, so the guest never appears, and each row's `score` is the user's comments written plus photos in owned albums |
| Popularity.UsersByCommentsContaining | app/app.py:415-430 | specified by `Popularity.UsersByCommentsContainingSpec` |
| Popularity.UsersByCommentsContainingSpec | app/app.py:415-430 | each user with a comment containing the query appears exactly once and nobody else does; each row's `match_count` is the number of the user's comments containing the query, and the rows are ordered by it |
| Search.AttachmentCardinality | app/app.py:521-524 | a set of labels and the `photo_tags` rows attaching them to one photo have the same size |
| Search.MatchCountIsPresent | app/app.py:521-524 | without duplicate `photo_tags` rows, the sub-query counts the given labels that are attached to the photo |
| Search.AllTagsIff | app/app.py:518-525 | with distinct tags, the count equals `len(tags)` exactly when the photo carries every tag; other tags may be attached too |
| Search.AllPhotosByTags | app/app.py:515-529 | specified by `Search.AllPhotosByTagsSpec` and `Search.NoTagsMatchEverything` |
| Search.UserPhotosByTags | app/app.py:531-547 | specified by `Search.UserPhotosByTagsSpec` |
| Search.AllPhotosByTagsSpec | app/app.py:515-529 | `get_all_photos_by_tags` returns exactly the photos carrying every given tag |
| Search.UserPhotosByTagsSpec | app/app.py:531-547 | `get_user_photos_by_tags` returns exactly the photos carrying every given tag whose album the user owns |
| Search.NoTagsMatchEverything | app/app.py:515-529 | with no tags, every photo is returned |
| Search.SearchPhotos | app/app.py:953-965 | specified by `Search.SearchNeverWithoutTags` |
| Search.SearchNeverWithoutTags | app/app.py:953-965 | the search route shows results exactly when the tag string parses, and then it queries with at least one distinct tag |
| PhotoQueries.IsPhotoInAlbum | app/app.py:236-241 | specified by `PhotoQueries.IsPhotoInAlbumSpec` |
| PhotoQueries.IsPhotoInAlbumSpec | app/app.py:236-241 | with photo ids unique, `is_photo_in_album(p, a)` holds exactly when the row of photo p names album a |
| PhotoQueries.MatchCountPositive | app/app.py:553-559 | a photo is in `valid_photo_ids` exactly when one of its `photo_tags` rows has one of the labels |
| PhotoQueries.RecommendableIff | app/app.py:549-569 | the `where` holds exactly when the photo has a matching tag and its album is owned by someone other than `u` |
| PhotoQueries.RecommendedPhotos | app/app.py:549-569 | specified by `PhotoQueries.RecommendedPhotosMembers`, `PhotoQueries.RecommendedPhotosOrder` and `PhotoQueries.NoLabelsNoRecommendations` |
| PhotoQueries.RecommendedPhotosMembers | app/app.py:549-569 | `get_recommended_photos` returns exactly the photos with at least one of the labels whose album is owned by someone other than `u` |
| PhotoQueries.RecommendedPhotosOrder | app/app.py:561-565 | each photo is returned once, by non-decreasing total number of tags, matched or not |
| PhotoQueries.NoLabelsNoRecommendations | app/app.py:549-569 | with no labels, nothing is recommended |
| PhotoQueries.RecommendationPage | app/app.py:982-984 | specified by `PhotoQueries.RecommendationPageSpec` |
| PhotoQueries.RecommendationPageSpec | app/app.py:970-985 | the recommendation page never shows the user's own photos, and each photo on it carries a tag the user has put on one of their own photos |
| Upload.CheckUpload | app/app.py:810-832 | the request passes the checks exactly when a file is attached, the tags parse, and the file name is non-empty and names an image; then it holds the parsed labels and an extension among jpg, jpeg, png |
| Upload.DoesTagExist | app/app.py:442-447 | `does_tag_exist` holds exactly when the label occurs exactly once in `tags` |
| Upload.DoesTagExistIff | app/app.py:442-447 | with `tags.label` a key, `does_tag_exist` is membership |
| Upload.MissingTags | app/app.py:846-851 | the labels the first loop creates are exactly the labels not already in `tags` |
| Upload.Attachments | app/app.py:854-856 | one `photo_tags` row per label, in label order, all for the one photo |
| Upload.WritesDone | app/app.py:841-856 | the writes that succeed are all of them exactly when no write of the plan is rejected |
| Upload.UploadedState | app/app.py:841-856 | specified by `Upload.UploadNoRollback`, `Upload.UploadKeepsTagsDistinct`, `Upload.UploadCompleteSpec` and the two `UploadedState...` lemmas |
| Upload.UploadNoRollback | app/app.py:841-856 | no rollback: the tables after fewer successful writes are prefixes of the tables after more, and the other tables never change |
| Upload.UploadKeepsTagsDistinct | app/app.py:846-851 | however far the upload gets, no tag is created twice and every new tag is a label that was missing |
| Upload.UploadCompleteSpec | app/app.py:841-856 | a complete upload adds the photo, leaves every label in `tags` (and no other new tag), and attaches every label to the photo |
| Upload.UploadedStateCreating | app/app.py:846-851 | while tags are being created, the state holds the photo and the first missing tags |
| Upload.UploadedStateAttaching | app/app.py:854-856 | while labels are being attached, every missing tag exists and the first labels are attached |
| Store.Store.AddFriend | app/app.py:250-254 | appends (a, b) to `friends` and nothing else; the status after it holds exactly when the row was new |
| Store.Store.RemoveFriend | app/app.py:256-260 | `friends` becomes the table with every (a, b) row deleted, and the status is off |
| Store.Store.LikePhoto | app/app.py:329-333 | appends (u, p) to `likes` and nothing else; the status after it holds exactly when the row was new |
| Store.Store.UnlikePhoto | app/app.py:335-339 | `likes` becomes the table with every (u, p) row deleted, and the status is off |
| Store.Store.AddTag | app/app.py:449-469 | the insert succeeds exactly when the label is new and the store does not reject it; only then is it appended; labels stay unique |
| Store.Store.AddPhotoTag | app/app.py:471-487 | appends the row unless the store rejects it, and reports which |
| Store.Store.AddPhoto | app/app.py:192-217 | on success appends the photo under the next serial id, which no existing photo has, and returns it; on a rejection changes nothing and returns nothing |
| Store.Store.CreateIfMissing | app/app.py:846-851 | one round of the first loop: an existing label is skipped, a missing one is inserted unless the store rejects it |
| Store.Store.CreateTags | app/app.py:846-851 | the first loop appends the missing labels in order and stops at the first rejected insert, which is the write numbered `faultAt` |
| Store.Store.AttachTags | app/app.py:854-856 | the second loop appends one `photo_tags` row per label in order and stops at the first rejected insert |
| Store.Store.WriteUpload | app/app.py:841-856 | the writes leave exactly `UploadedState` after the writes before the first rejected one; the outcome is success exactly when none is rejected |
| Store.Store.UploadPhoto | app/app.py:810-858 | a request the checks turn away changes no table; an accepted one, whose loops visit the parsed labels in `order` (any duplicate-free arrangement of them, as a Python `set` may give), leaves exactly `UploadedState` for that order and reports success or the failing write |
| Store.TagStep | app/app.py:846-851 | with distinct labels, the next label is in the tags so far exactly when it was in the tags at the start |
| Store.MissingNext | app/app.py:846-851 | when the next label is missing, the missing labels found so far are a proper prefix of all the missing labels |
| Store.MissingPrefix | app/app.py:846-851 | the missing labels among a prefix of the labels are a prefix of all the missing labels |

## Left out

- The web layer is not modelled: Flask routing, `session` and `g`, `flash` messages,
  templates, `url_for`, and the form dispatch of `is_post_request_like_or_comment`. The routes
  are modelled only where they call the core: the search route and the recommendation page.
- psycopg2 connections, cursors, `commit` and the configuration file are not modelled. The
  guest user id is a parameter.
- File-system effects are not modelled (`file.save`, `os.remove`, `os.makedirs`). The random
  `uuid` file name is the `fileToken` parameter of `Store.Store.UploadPhoto`.
- A store failure is an oracle parameter (`fault`, `faultAt`), not a cause. The model does not
  say why the store rejects a write. A rejected insert does not advance the `photo_id` serial
  in the model. Postgres does advance it, so ids may have gaps.
- Text.Lower: only ASCII capitals are lower-cased. Python's `lower()` and Postgres's `lower()`
  also map other Unicode letters.
- Text.Contains: `like '%' || q || '%'` is plain substring containment. A `%` or `_` typed
  into the query keeps its wildcard meaning in the real query and does not in the model, and
  a `\` (the default escape character of `LIKE` in PostgreSQL) escapes the next character in
  the real query and is an ordinary character in the model.
- Validation.ParseTagsString: Python builds the result from a `set`, so its order is
  undefined. The model keeps first occurrences in input order, and its lemmas claim only
  membership, distinctness and size. `Store.Store.UploadPhoto` does not rely on that order:
  the order in which its loops visit the labels is its `order` parameter, which may be any
  arrangement of the parsed labels.
- Ranking.TopNIsTopN: the order of equal scores is one admissible order. `IsTopN` states what
  every admissible order satisfies.
- Keys (`users.user_id`, `albums.album_id`, `photos.photo_id`, `tags.label`) are hypotheses
  of the lemmas that need them. The schema that enforces them is not part of this model.
  The same holds for the absence of duplicate `photo_tags` rows that the tag search relies on.
- Joins on a key are modelled as a lookup of the first matching row
  (`Schema.AlbumOwner`, `Schema.PhotoAlbum`). Without the key, a real join would repeat rows.
- `get_photo_album_owner_id` (app/app.py:180-190) raises an error when no row is found. The
  model's `Schema.PhotoOwner` returns `None` instead.
- `add_photo` returns the tuple from `fetchone()`, and `upload_photo` passes that tuple on as
  the photo id. The model passes the id itself.
- `add_friend`, `remove_friend`, `like_photo` and `unlike_photo` have no error handling in
  the source, so an exception there leaves the request. The model treats these writes as
  always succeeding.
- `get_photo_info`, `get_user_friends` (beyond the id sub-query shared with the friend
  queries), the comment-search route, and plain CRUD are not part of this model: `add_user`,
  `add_album`, `add_comment`, the login and user, album and photo getters, and
  `get_photo_tag_labels`. They are data access with no logic of their own beyond the web layer.
- Deleting photos and albums, and the cascades behind it, are not part of this model; they
  depend on the database schema, which is not shown.

## Findings

| source | as written | input that shows it | evidently intended | confidence | as-written member | corrected member |
|---|---|---|---|---|---|---|
| app/app.py:292-320 | `except` removes duplicate rows before the `group by u.user_id ... having count(*) > 1`, and `users.user_id` is a key, so every group has one row and the function always returns an empty list | `u` has added `a` and `b`, both `a` and `b` have added `y`, and `u` has not added `y`: `y` has two mutual friends but is not recommended | users with at least two different mutual friends with `u` (users x with u -> x -> y), most mutual friends first; e.g. filter the two-hop rows with `not in` instead of `except` and count `distinct f.user1_id` | high, not executed | FriendQueries.TwoMutualFriendsMissed | FriendQueries.IntendedFriendRecommendationsMembers |
