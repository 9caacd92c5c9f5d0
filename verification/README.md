# Video-platform controllers in Dafny

This project models the request handlers of a video-sharing backend built with
Express and Mongoose. It covers six controllers: videos, comments, playlists,
likes, tweets and subscriptions. The database is modelled as one immutable
value, `Store.Store`, with one `map<Id, Record>` per collection plus the users'
watch histories. Each handler is a pure function from the store and the
request to an outcome and the store after the request:

- `Ok(status, data)` for a response;
- `Err(status, kind)` for a thrown `ApiError`, with the status it carries.

Failures the handlers do not classify themselves are modelled as
`Err(500, Unclassified)`. These are runtime type errors, ids the mapper cannot
cast, a duplicate `_id` on insert, and a pagination stage the database
refuses.

The MongoDB update operators are modelled by their documented meaning:

- `$addToSet` is `Sequences.AddToSet`.
- `$pull` is `Sequences.Pull`.
- `$set` of a single field is a record update.
- `$skip`/`$limit` is `Sequences.Paginate`.
- `$match` is `Store.Listing` when the order of the result matters, and
  `Store.Select` when it does not.

Modules follow the source: `Base` (ids, optional fields, truthiness), `Text`
(`trim` and the blank tests), `Sequences` (array operators, pagination),
`Store` (records, the store, lookups), and one module per controller.

The values a handler gets from outside are parameters:

- the id the database assigns to a new document (`newId`);
- the results of the media uploads (`Option<UploadResult>`);
- the order in which an aggregate reads the collection (`order`, which
  covers `$sort` and natural order);
- the authenticated user (`requester`).

Where the code departs from what its comments, error messages and defaults
evidently mean, the model follows the code:

- updateVideo and updatePlaylist test the untrimmed fields for falsiness. So a
  whitespace-only title or name passes the "nothing to update" test and then
  leaves the field unchanged (`Videos.WhitespaceTitleIsAcceptedAndChangesNothing`).
- updateTweet stores the content untrimmed and accepts whitespace-only content
  (`Tweets.UpdateStoresWhitespaceContent`).
- updatePlaylist falls back to `playlist.title`, a field playlists do not have.
  That value is undefined, and the mapper drops an undefined key from `$set`.
  So a missing or blank new name leaves the name as stored
  (`Playlists.TitleField`, `Playlists.SetOrKeep`).
- getAllVideos looks the user up before testing `userId`. So a present but
  ill-formed `userId` fails at the cast, with 500. It is not ignored with every
  owner matching. With no `userId`, every owner matches.

## Model

| member | source | states |
|---|---|---|
| Text.Trim | src/controllers/tweet.controller.js:11 | `trim` cuts a run of leading and a run of trailing whitespace: the result is a contiguous piece of the input, everything before and after it is whitespace, and it is empty or starts and ends with a non-space |
| Text.TrimIsUnique | src/controllers/tweet.controller.js:11 | text between two runs of whitespace that is empty or starts and ends with a non-space is what `trim` returns |
| Text.BlankIffAllSpace | src/controllers/video.controller.js:57 | a value trims to the empty string exactly when every character is whitespace |
| Text.TrimmedOr | src/controllers/playlist.controller.js:192-193 | the idiom "`x && x.trim()`, or else the fallback" gives the trimmed value when it is non-empty, and the fallback when the value is missing, empty or blank |
| Text.MergeField | src/controllers/video.controller.js:137-138 | the merge keeps the stored value exactly when the new one is missing or blank, and otherwise stores the new value trimmed and non-empty |
| Text.ContainsIgnoringCaseOfLower | src/controllers/video.controller.js:19-23 | the case-insensitive search gives the same answer for a query and for its lower-case form |
| Text.InfixIsFound | src/controllers/video.controller.js:19-23 | the case-insensitive search finds every query that occurs in the text as written |
| Sequences.AddToSet | src/controllers/playlist.controller.js:91-98 | `$addToSet` makes the element a member and adds no other; it changes nothing when the element is present, appends it otherwise, and keeps an array free of duplicates |
| Sequences.Pull | src/controllers/playlist.controller.js:125-132 | `$pull` removes every occurrence of the element, keeps every other member, and keeps an array free of duplicates |
| Sequences.PullAbsent | src/controllers/playlist.controller.js:125-132 | pulling an element that is not present leaves the array unchanged |
| Sequences.PullAppend | src/controllers/playlist.controller.js:125-132 | pulling from a concatenation is the concatenation of the pulls |
| Sequences.PullUndoesAddToSet | src/controllers/playlist.controller.js:91-132 | `$pull` undoes an `$addToSet` of an element that was absent |
| Sequences.SetOperatorsIdempotent | src/controllers/playlist.controller.js:91-132 | applying `$addToSet` or `$pull` twice is the same as applying it once |
| Sequences.Paginate | src/controllers/comment.controller.js:22-27 | the window exists exactly for `page >= 1` and `limit >= 1`; it has at most `limit` records, its exact length is fixed by the skip count, and record `k` of the page is record `(page-1)*limit + k` of the input |
| Sequences.EveryRecordOnItsPage | src/controllers/video.controller.js:42-47 | record `i` of the listing appears on page `i / limit + 1` at position `i % limit`, so the pages cover the listing |
| Sequences.PaginationExample | src/controllers/video.controller.js:42-47 | with 25 records shown 10 per page, page 1 holds records 1-10 and page 3 holds records 21-25 |
| Store.FindById | src/controllers/video.controller.js:98-102 | a lookup fails to cast exactly for an ill-formed id, and finds the record exactly when the id is well-formed and stored |
| Store.Insert | src/controllers/playlist.controller.js:24-28 | `create` succeeds exactly when the new id is free; it then adds exactly that record and keeps every other |
| Store.Listing | src/controllers/video.controller.js:33-48 | a `$match` returns the stored records that satisfy the filter, in the order read: its ids are exactly the read ids whose records pass the filter, in sequence, and each record is the stored one |
| Store.ListingKeepsReadOrder | src/controllers/video.controller.js:33-48 | a `$match` keeps the read order: when the collection is read in two parts, the first part's matches are listed before the second's |
| Store.ListingReadsEachRecordOnce | src/controllers/video.controller.js:33-48 | when the read order names each stored record once, the listing holds each matching record exactly once |
| Store.Select | src/controllers/playlist.controller.js:42-48 | a `$match` returns exactly the stored records that satisfy the filter, unchanged |
| Videos.GetAllVideos | src/controllers/video.controller.js:11-51 | the listing succeeds exactly when any `userId` names an existing user and the page window exists; the page is the window of the matching videos that starts at `(page-1)*limit` and holds at most `limit` of them, each matching the search and owned by `userId` when one is given; every failure is unclassified |
| Videos.EveryMatchingVideoOnSomePage | src/controllers/video.controller.js:33-48 | when the collection is read with each stored video once, every stored video that passes the search and owner filter is shown on some page |
| Videos.TitleMatchIsListed | src/controllers/video.controller.js:17-48 | a video whose title contains the query as written is shown on some page of that search |
| Videos.CreateVideo | src/controllers/video.controller.js:78-85 | the new video is stored under the new id with 201 when the id is free; otherwise nothing changes |
| Videos.PublishAVideo | src/controllers/video.controller.js:53-88 | as written: a missing or blank title gives 400 first; a request without file fields gives 400; a failed video upload gives 400; success exactly when the title, both files and both uploads are present, storing the requester as owner, the title, the description or "", both URLs, the duration and 0 views |
| Videos.PublishAVideoIntended | src/controllers/video.controller.js:62-82 | as evidently intended: a request missing either file always gives 400, a failed thumbnail upload stores an empty thumbnail URL, and every failure is a 400 except an id collision |
| Videos.OnlyThumbnailIsUnclassified | src/controllers/video.controller.js:62-68 | a request carrying only the thumbnail field fails unclassified as written, and gets 400 under the intended definition |
| Videos.FailedThumbnailAborts | src/controllers/video.controller.js:71-85 | a failed thumbnail upload aborts the publish as written, and is tolerated under the intended definition |
| Videos.GetVideoById | src/controllers/video.controller.js:90-105 | an ill-formed id gives 400, a missing video gives 404, otherwise 200 with the stored video |
| Videos.DeleteJustStored | src/controllers/video.controller.js:152-165 | deleting, as its owner, a video stored under a fresh id restores the store |
| Videos.PublishThenReadAndDelete | src/controllers/video.controller.js:78-104 | a published video reads back exactly as stored, and deleting it as its owner restores the store |
| Videos.OwnedVideo | src/controllers/video.controller.js:110-121 | the owner checks run in order: cast failure (500), missing video (404), another owner (401); they pass exactly for the owner of a stored video |
| Videos.UpdateVideo | src/controllers/video.controller.js:107-146 | after the owner checks, a request with no title, no description and no thumbnail gives 400; otherwise 202, each text field merged, the thumbnail replaced by a non-empty new URL, and nothing else changed |
| Videos.MergeVideoIdempotent | src/controllers/video.controller.js:135-141 | merging the same update into a merged video changes nothing |
| Videos.UpdateOwnedVideo | src/controllers/video.controller.js:130-142 | an update by the owner with a title, a description or a new thumbnail answers 202 with the merged video and stores exactly it |
| Videos.UpdateVideoIdempotent | src/controllers/video.controller.js:135-141 | repeating a successful update leaves the store as the first update left it |
| Videos.WhitespaceTitleIsAcceptedAndChangesNothing | src/controllers/video.controller.js:130-138 | a whitespace-only title passes the "nothing to update" test and leaves the video unchanged |
| Videos.DeleteVideo | src/controllers/video.controller.js:148-168 | after the owner checks, 200; exactly that video is removed and every other record is kept |
| Videos.TogglePublishStatus | src/controllers/video.controller.js:170-197 | after the owner checks, the published flag is negated with 202 and no other field changes |
| Videos.TogglePublishTwiceRestores | src/controllers/video.controller.js:185-194 | toggling the published flag twice restores the store |
| Videos.WatchVideo | src/controllers/video.controller.js:199-233 | an ill-formed id or a missing video gives 400; otherwise 200 and one more view; a known requester's history becomes `$addToSet` of the video, an unknown requester changes no history; other users and collections unchanged, histories kept free of duplicates |
| Videos.WatchTwiceCountsTwiceRecordsOnce | src/controllers/video.controller.js:212-229 | watching twice adds two views, and the second watch leaves the histories as the first left them |
| Comments.ListComments | src/controllers/comment.controller.js:16-27 | the page is the window of the target's comments, in the order read, that starts at `(page-1)*limit` and holds at most `limit`; every comment on it is stored and on the target, and the total reported is the page's own length |
| Comments.GetVideoComments | src/controllers/comment.controller.js:7-66 | a missing or ill-formed video id gives 400; otherwise 200 and the window of that video's comments, in the order read, that starts at `(page-1)*limit` and holds at most `limit` |
| Comments.GetTweetComments | src/controllers/comment.controller.js:68-125 | as evidently intended: an ill-formed tweet id gives 400; otherwise 200 and the window of that tweet's comments, in the order read, that starts at `(page-1)*limit` and holds at most `limit` |
| Comments.GetTweetCommentsAsWritten | src/controllers/comment.controller.js:76-81 | as written: the raw-string `tweet` match never equals a stored object id, so every page is empty |
| Comments.TweetCommentNeverListed | src/controllers/comment.controller.js:68-81 | a comment just added to a tweet appears on no page as written, and on some page under the intended match |
| Comments.AddComment | src/controllers/comment.controller.js:127-170 | the target id is checked (400) before the content (400); a new comment stores the trimmed content, the requester as owner and exactly the target named, with 201 |
| Comments.AddedCommentIsListed | src/controllers/comment.controller.js:16-27 | when the collection is read with each stored comment once, a comment added to a video or a tweet is shown on some page of that target's comments |
| Comments.OwnedComment | src/controllers/comment.controller.js:178-193 | the checks run in order and each refuses with 400: ill-formed id, missing comment, another owner |
| Comments.UpdateComment | src/controllers/comment.controller.js:172-210 | after the owner checks, missing or blank content gives 400; otherwise 202 and only the content changes, to its trimmed value |
| Comments.UpdateCommentIdempotent | src/controllers/comment.controller.js:199-206 | repeating a comment update changes nothing more |
| Comments.DeleteComment | src/controllers/comment.controller.js:212-237 | after the owner checks, 200; exactly that comment is removed |
| Comments.AddThenDeleteRestores | src/controllers/comment.controller.js:234 | deleting a just-added comment as its author restores the store |
| Comments.AddCommentKeepsContentsTrimmed | src/controllers/comment.controller.js:141-145 | adding a comment keeps every stored content non-empty and trimmed |
| Comments.UpdateCommentKeepsContentsTrimmed | src/controllers/comment.controller.js:199-206 | updating a comment keeps every stored content non-empty and trimmed |
| Playlists.InsertPlaylist | src/controllers/playlist.controller.js:24-30 | a playlist is stored under the new id with 201 exactly when the id is free |
| Playlists.CreatePlaylist | src/controllers/playlist.controller.js:8-31 | as written: a missing or blank name gives 400; a playlist of the requester with the name as sent gives 400; otherwise 201, and the trimmed name, the description or "", no videos and the requester as owner are stored |
| Playlists.DuplicateNameSlipsThrough | src/controllers/playlist.controller.js:16-25 | with a playlist "mix", a request for "mix " passes the duplicate check and leaves its owner with two playlists named "mix" |
| Playlists.CreatePlaylistIntended | src/controllers/playlist.controller.js:12-28 | checking the name that is stored keeps playlist names unique per owner |
| Playlists.AddingFreshNameKeepsNamesUnique | src/controllers/playlist.controller.js:16-28 | storing a playlist under a name its owner does not use yet keeps names unique per owner |
| Playlists.GetUserPlaylists | src/controllers/playlist.controller.js:33-51 | an ill-formed id gives 400; otherwise exactly the playlists that user owns |
| Playlists.CreatedPlaylistIsListed | src/controllers/playlist.controller.js:42-48 | a playlist just created is listed among its owner's playlists |
| Playlists.GetPlaylistById | src/controllers/playlist.controller.js:53-68 | an ill-formed id or a missing playlist gives 400; otherwise 200 with the stored playlist |
| Playlists.CreatedPlaylistReadsBack | src/controllers/playlist.controller.js:24-28 | a playlist just created reads back by its new id exactly as the creation reported it |
| Playlists.OwnedPlaylist | src/controllers/playlist.controller.js:77-89 | a missing playlist gives 400 and another owner gets the handler's refusal status; the checks pass exactly for the owner |
| Playlists.MembershipChecks | src/controllers/playlist.controller.js:73-89 | both ids are checked first, then existence, then ownership, each refusing with 400 |
| Playlists.AddVideoToPlaylist | src/controllers/playlist.controller.js:70-102 | after the checks, 202; the video becomes a member, no other member is added, and nothing changes if it was already there |
| Playlists.RemoveVideoFromPlaylist | src/controllers/playlist.controller.js:104-136 | after the checks, 202; the video is no longer a member and every other member stays |
| Playlists.AddVideoIdempotent | src/controllers/playlist.controller.js:91-98 | adding the same video twice is the same as adding it once |
| Playlists.RemoveAbsentVideoChangesNothing | src/controllers/playlist.controller.js:125-132 | removing a video that is not in the playlist leaves the store unchanged |
| Playlists.AddThenRemoveRestores | src/controllers/playlist.controller.js:91-132 | removing a video just added to a playlist that lacked it restores the store |
| Playlists.DeletePlaylist | src/controllers/playlist.controller.js:138-162 | the checks run in order and each refuses with 400: ill-formed id, missing playlist, another owner; then 200 and exactly that playlist is removed |
| Playlists.UpdatePlaylist | src/controllers/playlist.controller.js:164-200 | the checks run in order: ill-formed id (400), missing (400), another owner (401), then no name and no description (400); otherwise 202, the name and description merged, and videos and owner unchanged |
| Playlists.UpdatePlaylistIdempotent | src/controllers/playlist.controller.js:190-195 | repeating a playlist update changes nothing more |
| Playlists.CreatePlaylistKeepsSets | src/controllers/playlist.controller.js:24-28 | creating a playlist keeps every playlist free of duplicate videos |
| Playlists.AddVideoKeepsSets | src/controllers/playlist.controller.js:91-98 | adding a video keeps every playlist free of duplicate videos |
| Playlists.RemoveVideoKeepsSets | src/controllers/playlist.controller.js:125-132 | removing a video keeps every playlist free of duplicate videos |
| Playlists.UpdateAndDeleteKeepSets | src/controllers/playlist.controller.js:159-195 | updating or deleting a playlist keeps every playlist free of duplicate videos |
| Likes.ToggleLike | src/controllers/like.controller.js:7-35 | (the comment and tweet toggles, lines 37-93, differ only in the target) an ill-formed id gives 400; an existing like is deleted with 200; otherwise exactly one like is created with 201; likes of other pairs are untouched, at most one like per pair is kept, and afterwards the pair is liked exactly when the toggle reports a new like |
| Likes.ToggleTwiceRestores | src/controllers/like.controller.js:15-32 | toggling twice restores the set of liked pairs, and restores the store when the pair was not liked at first |
| Likes.GetLikedVideos | src/controllers/like.controller.js:95-127 | exactly the requester's likes on videos that still exist, each with its video id |
| Likes.ToggleUpdatesLikedVideos | src/controllers/like.controller.js:98-115 | after a toggle on an existing video, the video is among the liked videos exactly when the toggle liked it |
| Tweets.CreateTweet | src/controllers/tweet.controller.js:8-23 | missing content fails unclassified and blank content gives 400; otherwise 201, with the trimmed content and the requester as owner |
| Tweets.GetUserTweets | src/controllers/tweet.controller.js:25-45 | an ill-formed id gives 400 and an unknown user fails unclassified; otherwise exactly that user's tweets |
| Tweets.CreatedTweetIsListed | src/controllers/tweet.controller.js:36-42 | a tweet just created is listed among its author's tweets |
| Tweets.UpdateTweet | src/controllers/tweet.controller.js:47-86 | the checks run in order: ill-formed id (400), empty content (400), missing tweet (400), another owner (401); otherwise 202 and only the content changes, to the value as sent |
| Tweets.UpdateTweetIdempotent | src/controllers/tweet.controller.js:74-82 | repeating a tweet update changes nothing more |
| Tweets.UpdateStoresWhitespaceContent | src/controllers/tweet.controller.js:57-79 | whitespace-only content is refused at creation, but accepted and stored as sent by an update |
| Tweets.DeleteTweet | src/controllers/tweet.controller.js:88-111 | an ill-formed id fails at the cast, a missing tweet gives 400 and another owner gets 401; the owner removes exactly that tweet |
| Tweets.CreateThenDeleteRestores | src/controllers/tweet.controller.js:108 | deleting a just-created tweet as its author restores the store |
| Subscriptions.ToggleSubscription | src/controllers/subscription.controller.js:9-43 | an ill-formed channel id, then the requester's own id, give 400 with no change; an existing subscription is deleted, otherwise exactly one is created, both with 200; other pairs are untouched; uniqueness and the absence of self-subscriptions are kept |
| Subscriptions.ToggleStored | src/controllers/subscription.controller.js:22-41 | the store half of the toggle: an existing subscription is deleted, otherwise exactly one is created; other pairs are untouched; uniqueness is kept, and so is the absence of self-subscriptions when the channel is not the requester |
| Subscriptions.StoredTwiceRestores | src/controllers/subscription.controller.js:22-41 | the store half run twice restores the set of subscription pairs, and the store when there was no subscription at first |
| Subscriptions.ToggleTwiceRestores | src/controllers/subscription.controller.js:22-41 | toggling twice restores the set of subscription pairs, and restores the store when there was no subscription at first |
| Subscriptions.ToggleSubscriptionAsWritten | src/controllers/subscription.controller.js:13-39 | as written, for any spelling of the channel id: the self guard compares the id as sent, while the query and the insert use its cast form |
| Subscriptions.ToggleSubscriptionIntended | src/controllers/subscription.controller.js:13-39 | as evidently intended: the self guard compares the cast id; no self-subscription is ever created, and for an id in printed form it is the toggle above |
| Subscriptions.OtherSpellingSubscribesToSelf | src/controllers/subscription.controller.js:17-39 | a spelling of one's own id that differs from the printed one passes the guard as written and stores a self-subscription; the intended guard refuses it |
| Subscriptions.UpperCaseSelfSubscription | src/controllers/subscription.controller.js:17-39 | the concrete case: id twenty-four `a`s, channel id twenty-four `A`s |
| Subscriptions.ListFor | src/controllers/subscription.controller.js:49-61 | an ill-formed id gives 400 and an unknown user fails unclassified; otherwise exactly the subscriptions the filter selects |
| Subscriptions.GetUserChannelSubscribers | src/controllers/subscription.controller.js:46-65 | exactly the subscriptions whose channel is the given user |
| Subscriptions.GetSubscribedChannels | src/controllers/subscription.controller.js:68-86 | exactly the subscriptions whose subscriber is the given user |
| Subscriptions.ListingsAgree | src/controllers/subscription.controller.js:55-83 | a subscription between two known users appears both among the channel's subscribers and among the subscriber's channels |
| Subscriptions.ToggleUpdatesListings | src/controllers/subscription.controller.js:22-83 | after a subscribe, the new subscription is in both listings; after an unsubscribe, the pair is in neither |

## Left out

- Media uploads, local files and the HTTP layer: upload results and file fields are parameters. Routing, authentication and the JWT middleware are not part of this model; the authenticated user is the `requester` parameter.
- The error wrapper that turns a thrown error into a response is not part of this model. A failure the handlers do not classify is `Err(500, Unclassified)`, and the text of every message is dropped.
- `addReply` (src/controllers/comment.controller.js:239-241) has an empty body and never responds, so there is nothing to model.
- The `$lookup`, `$unwind` and `$project` stages only shape the response; records are returned whole. The exception is the `$unwind` of getLikedVideos, which drops likes whose video is gone; that is modelled.
- `sortBy` and `sortType` are not interpreted: the order of a listing is the `order` parameter.
- Query-string coercion is not modelled: `page` and `limit` are integers. A `limit` sent as text, which the database would refuse in `$limit`, is not modelled.
- `$regex` with the `i` option is modelled as case-insensitive substring search with ASCII case folding; regular-expression syntax in the query is not interpreted.
- Concurrency and atomicity: each request runs alone against the store.
- Id handling: `isValidObjectId` is fixed to 24 hex digits, and ids are compared as text. The mapper's other accepted forms are not modelled; its printing of ids in lower case is modelled only by `Subscriptions.Canonical`, for the self-subscription guard.
- Comments.GetTweetComments: the raw-string `tweet` match in getTweetComments (src/controllers/comment.controller.js:78-80) never succeeds as written, because an aggregate does not cast a string to an object id. The rest of the model uses the intended match on the tweet id; the as-written behaviour is `Comments.GetTweetCommentsAsWritten` (see Findings).
- Schema validation and defaults: a new video starts with 0 views and `DefaultPublished`; field types are assumed to be strings.
- Likes.ToggleLike: `findOne` is modelled as the choice of some matching like, so which duplicate is deleted is left open; the toggle is a ghost function for this reason.
- Subscriptions.ToggleSubscription: `findOne` is modelled as the choice of some matching subscription, so which duplicate is deleted is left open; the toggle is a ghost function for this reason. It also takes the channel id in the mapper's lower-case spelling; other spellings are `Subscriptions.ToggleSubscriptionAsWritten` (see Findings).
- Playlists.UpdatePlaylist: assumes the mapper drops an undefined key from `$set`, as Mongoose 6 and later do; under an older mapper the name would be unset instead.

## Findings

| source | as written | input that shows it | evidently intended | confidence | as-written member | corrected member |
|---|---|---|---|---|---|---|
| src/controllers/playlist.controller.js:16-25 | the duplicate check looks for the name as sent, but the name is stored trimmed | the owner has a playlist "mix" and creates "mix " | check for the trimmed name, so that names stay unique per owner | medium: holds only if the playlist schema does not set `trim: true` on the name, and that schema is not part of this model; not executed | Playlists.DuplicateNameSlipsThrough | Playlists.CreatePlaylistIntended |
| src/controllers/video.controller.js:62-68 | `req.files?.videoFile[0]` throws when the request has file fields but no video field | a request carrying only a thumbnail file | refuse with 400, "Video and thumbnail are required" | medium; not executed | Videos.OnlyThumbnailIsUnclassified | Videos.PublishAVideoIntended |
| src/controllers/video.controller.js:72-82 | `thumbnailResponse.url` throws when the thumbnail upload failed | both files present, video upload succeeds, thumbnail upload fails | store the video with an empty thumbnail URL, as the empty-string default shows | high; not executed | Videos.FailedThumbnailAborts | Videos.PublishAVideoIntended |
| src/controllers/comment.controller.js:76-81 | the aggregate matches `tweet` against the id as a raw string, which an aggregate does not cast, so no stored comment matches | a comment added to a tweet, then a listing of that tweet's comments | match the tweet's object id, as getVideoComments does for videos | high; not executed | Comments.TweetCommentNeverListed | Comments.GetTweetComments |
| src/controllers/subscription.controller.js:17-20 | the self-subscription guard compares the channel id as sent with the requester's printed id, while the query and the insert cast it | requester id twenty-four `a`s, channel id twenty-four `A`s | refuse any spelling of one's own id | medium; not executed | Subscriptions.UpperCaseSelfSubscription | Subscriptions.ToggleSubscriptionIntended |
