/** The video controller: listing with search and pagination, publishing,
    reading, owner-only update, delete and publish toggle, and the watch
    event that counts a view and records the video in the viewer's history. */
module Videos {
  import opened Base
  import opened Text
  import opened Sequences
  import opened Store

  /** What the media host answers for a successful upload. A failed upload,
      or an upload of no file at all, is `None`. */
  datatype UploadResult = UploadResult(url: string, duration: real)

  /** The multipart file fields of a publish request. `None` for a field
      the request does not carry; otherwise the local path of its first
      file. */
  datatype Files = Files(videoFile: Option<string>, thumbnail: Option<string>)

  /** The published flag a new video starts with (the schema default). */
  const DefaultPublished := true

  // ---------------------------------------------------------------------
  // getAllVideos

  predicate MatchesSearch(v: Video, query: Option<string>) {
    || !Truthy(query)
    || ContainsIgnoringCase(v.title, query.value)
    || ContainsIgnoringCase(v.description, query.value)
  }

  /** The owner the listing filters by: only a present, well-formed
      `userId` filters; otherwise videos of every owner match. */
  function OwnerFilter(userId: Option<string>): Option<Id> {
    if Truthy(userId) && ValidId(userId.value) then userId else None
  }

  predicate MatchesOwner(v: Video, owner: Option<Id>) {
    owner.None? || v.owner == owner.value
  }

  /** The videos the `$match` stage lets through, in the order `order`
      (the order the `$sort` stage puts the collection in). */
  function MatchingVideos(s: Store, order: seq<Id>, query: Option<string>, userId: Option<string>): seq<(Id, Video)> {
    var owner := OwnerFilter(userId);
    Listing(s.videos, order, v => MatchesSearch(v, query) && MatchesOwner(v, owner))
  }

  /** getAllVideos. The user lookup comes first: an ill-formed `userId` is
      a cast failure, and a well-formed one naming no user fails when the
      filter reads the missing user's id. The page is the `limit` records
      after the first `(page-1)*limit` matching ones. */
  function GetAllVideos(s: Store, order: seq<Id>, page: int, limit: int, query: Option<string>, userId: Option<string>): (r: Outcome<seq<(Id, Video)>>)
    ensures r.Ok? <==>
      && (userId.None? || (ValidId(userId.value) && userId.value in s.users))
      && page >= 1 && limit >= 1
    ensures r.Ok? ==> r.status == 200 && |r.data| <= limit
    ensures r.Ok? ==> IsPage(r.data, MatchingVideos(s, order, query, userId), page, limit)
    ensures r.Ok? ==> forall k :: 0 <= k < |r.data| ==>
      && r.data[k].0 in s.videos && r.data[k].1 == s.videos[r.data[k].0]
      && MatchesSearch(r.data[k].1, query)
      && (userId.Some? ==> r.data[k].1.owner == userId.value)
    ensures r.Err? ==> r.status == ServerError && r.kind == Unclassified
  {
    if userId.Some? && !ValidId(userId.value) then Err(ServerError, Unclassified)
    else if OwnerFilter(userId).Some? && userId.value !in s.users then Err(ServerError, Unclassified)
    else
      match Paginate(MatchingVideos(s, order, query, userId), page, limit)
      case None => Err(ServerError, Unclassified)
      case Some(p) => Ok(200, p)
  }

  predicate ShownOnPage(s: Store, order: seq<Id>, page: int, limit: int, query: Option<string>, userId: Option<string>, id: Id) {
    var r := GetAllVideos(s, order, page, limit, query, userId);
    r.Ok? && id in s.videos && (id, s.videos[id]) in r.data
  }

  /** Every video the filter lets through is shown on some page: the pages
      of the listing together cover the filtered, sorted collection. With
      no `userId`, videos of every owner are candidates. */
  lemma {:induction false} EveryMatchingVideoOnSomePage(s: Store, order: seq<Id>, limit: int, query: Option<string>, userId: Option<string>, id: Id)
    requires limit >= 1
    requires userId.None? || (ValidId(userId.value) && userId.value in s.users)
    requires ReadOrder(order, s.videos) && id in s.videos
    requires MatchesSearch(s.videos[id], query) && MatchesOwner(s.videos[id], OwnerFilter(userId))
    ensures exists page :: page >= 1 && ShownOnPage(s, order, page, limit, query, userId, id)
  {
    assert id in order;
    var all := MatchingVideos(s, order, query, userId);
    assert (id, s.videos[id]) in all;
    var i :| 0 <= i < |all| && all[i] == (id, s.videos[id]);
    EveryRecordOnItsPage(all, limit, i);
    var page := i / limit + 1;
    var r := GetAllVideos(s, order, page, limit, query, userId);
    assert r.Ok? && r.data[i % limit] == all[i];
    assert ShownOnPage(s, order, page, limit, query, userId, id);
  }

  /** A video whose title contains the search text verbatim is found by
      the case-insensitive search, and so is shown on some page of the
      listing of every owner's videos. */
  lemma TitleMatchIsListed(s: Store, order: seq<Id>, limit: int, query: string, id: Id)
    requires limit >= 1 && ReadOrder(order, s.videos) && id in s.videos
    requires IsInfix(query, s.videos[id].title)
    ensures exists page :: page >= 1 && ShownOnPage(s, order, page, limit, Some(query), None, id)
  {
    InfixIsFound(query, s.videos[id].title);
    EveryMatchingVideoOnSomePage(s, order, limit, Some(query), None, id);
  }

  // ---------------------------------------------------------------------
  // publishAVideo

  function NewVideo(title: string, description: Option<string>, video: UploadResult, thumbnailUrl: string, owner: Id): Video {
    Video(title, description.GetOr(""), video.url, thumbnailUrl, video.duration, 0, DefaultPublished, owner)
  }

  /** Stores a new video under `newId`, or fails if the id is taken. */
  function CreateVideo(s: Store, newId: Id, v: Video): (r: Reply<Video>)
    ensures r.outcome.Ok? <==> newId !in s.videos
    ensures r.outcome.Ok? ==> r.outcome == Ok(201, v) && r.store == s.(videos := s.videos[newId := v])
    ensures r.outcome.Err? ==> r.store == s
  {
    match Insert(s.videos, newId, v)
    case None => Reply(Err(ServerError, Unclassified), s)
    case Some(m) => Reply(Ok(201, v), s.(videos := m))
  }

  /** Whether the request carries a local path for both files. */
  predicate BothFilesGiven(files: Option<Files>) {
    files.Some? && Truthy(files.value.videoFile) && Truthy(files.value.thumbnail)
  }

  /** publishAVideo as written. The title test comes first. Reading the
      first file of a field fails at run time when the request has file
      fields but not that one; with no file fields at all the paths are
      simply missing. The video upload must succeed; the thumbnail URL is
      read from the thumbnail upload even when that upload failed. */
  function PublishAVideo(
    s: Store, requester: Id, title: Option<string>, description: Option<string>,
    files: Option<Files>, videoUpload: Option<UploadResult>, thumbnailUpload: Option<UploadResult>, newId: Id
  ): (r: Reply<Video>)
    ensures MissingOrBlank(title) ==> r == Reply(Err(400, MissingField), s)
    ensures !MissingOrBlank(title) && files.None? ==> r == Reply(Err(400, MissingField), s)
    ensures BothFilesGiven(files) && videoUpload.None? ==> r.outcome.Err? && r.outcome.status == 400
    ensures r.outcome.Err? ==> r.store == s
    ensures r.outcome.Ok? <==>
      && !MissingOrBlank(title) && BothFilesGiven(files)
      && videoUpload.Some? && thumbnailUpload.Some? && newId !in s.videos
    ensures r.outcome.Ok? ==>
      var v := r.outcome.data;
      && r.outcome.status == 201
      && r.store == s.(videos := s.videos[newId := v])
      && v.owner == requester && v.title == title.value && !Blank(v.title)
      && v.description == description.GetOr("")
      && v.videoFile == videoUpload.value.url && v.duration == videoUpload.value.duration
      && v.thumbnail == thumbnailUpload.value.url
      && v.views == 0
  {
    if MissingOrBlank(title) then Reply(Err(400, MissingField), s)
    else if files.Some? && (files.value.videoFile.None? || files.value.thumbnail.None?) then
      Reply(Err(ServerError, Unclassified), s)
    else if !BothFilesGiven(files) then Reply(Err(400, MissingField), s)
    else if videoUpload.None? then Reply(Err(400, UploadFailed), s)
    else if thumbnailUpload.None? then Reply(Err(ServerError, Unclassified), s)
    else CreateVideo(s, newId, NewVideo(title.value, description, videoUpload.value, thumbnailUpload.value.url, requester))
  }

  /** publishAVideo as evidently intended: a request missing either file is
      refused as invalid input whatever file fields it carries, and a failed
      thumbnail upload is tolerated with an empty thumbnail URL. */
  function PublishAVideoIntended(
    s: Store, requester: Id, title: Option<string>, description: Option<string>,
    files: Option<Files>, videoUpload: Option<UploadResult>, thumbnailUpload: Option<UploadResult>, newId: Id
  ): (r: Reply<Video>)
    ensures !MissingOrBlank(title) && !BothFilesGiven(files) ==> r == Reply(Err(400, MissingField), s)
    ensures r.outcome.Err? ==> r.outcome.status == 400 || (r.outcome.kind == Unclassified && newId in s.videos)
    ensures r.outcome.Err? ==> r.store == s
    ensures r.outcome.Ok? <==>
      !MissingOrBlank(title) && BothFilesGiven(files) && videoUpload.Some? && newId !in s.videos
    ensures r.outcome.Ok? ==>
      var v := r.outcome.data;
      && r.store == s.(videos := s.videos[newId := v])
      && v.owner == requester
      && v.thumbnail == (if thumbnailUpload.Some? then thumbnailUpload.value.url else "")
  {
    if MissingOrBlank(title) then Reply(Err(400, MissingField), s)
    else if !BothFilesGiven(files) then Reply(Err(400, MissingField), s)
    else if videoUpload.None? then Reply(Err(400, UploadFailed), s)
    else
      var thumbnailUrl := if thumbnailUpload.Some? then thumbnailUpload.value.url else "";
      CreateVideo(s, newId, NewVideo(title.value, description, videoUpload.value, thumbnailUrl, requester))
  }

  /** As written, a request carrying only the thumbnail field is not refused
      as invalid input: reading the absent video field fails at run time. */
  lemma OnlyThumbnailIsUnclassified(s: Store, requester: Id, videoUpload: Option<UploadResult>, thumbnailUpload: Option<UploadResult>, newId: Id)
    ensures var files := Some(Files(None, Some("/tmp/thumb.png")));
      && PublishAVideo(s, requester, Some("clip"), None, files, videoUpload, thumbnailUpload, newId)
           == Reply(Err(ServerError, Unclassified), s)
      && PublishAVideoIntended(s, requester, Some("clip"), None, files, videoUpload, thumbnailUpload, newId)
           == Reply(Err(400, MissingField), s)
  {
  }

  /** As written, a failed thumbnail upload aborts the publish although the
      empty-string default shows it was meant to be tolerated. */
  lemma FailedThumbnailAborts(s: Store, requester: Id, video: UploadResult, newId: Id)
    requires newId !in s.videos
    ensures var files := Some(Files(Some("/tmp/v.mp4"), Some("/tmp/t.png")));
      && PublishAVideo(s, requester, Some("clip"), None, files, Some(video), None, newId)
           == Reply(Err(ServerError, Unclassified), s)
      && PublishAVideoIntended(s, requester, Some("clip"), None, files, Some(video), None, newId).outcome.Ok?
  {
    assert !IsSpace("clip"[0]);
    BlankIffAllSpace("clip");
  }

  // ---------------------------------------------------------------------
  // getVideoById

  function GetVideoById(s: Store, videoId: Id): (r: Outcome<Video>)
    ensures !ValidId(videoId) ==> r == Err(400, InvalidId)
    ensures ValidId(videoId) && videoId !in s.videos ==> r == Err(404, NotFound)
    ensures r.Ok? <==> ValidId(videoId) && videoId in s.videos
    ensures r.Ok? ==> r == Ok(200, s.videos[videoId])
  {
    if !ValidId(videoId) then Err(400, InvalidId)
    else if videoId !in s.videos then Err(404, NotFound)
    else Ok(200, s.videos[videoId])
  }

  /** A video stored under a fresh id and deleted by its owner leaves the
      store as it was. */
  lemma DeleteJustStored(s: Store, requester: Id, newId: Id, v: Video)
    requires ValidId(newId) && newId !in s.videos && v.owner == requester
    ensures DeleteVideo(s.(videos := s.videos[newId := v]), requester, newId) == Reply(Ok(200, ()), s)
  {
    var s1 := s.(videos := s.videos[newId := v]);
    assert OwnedVideo(s1, requester, newId).Ok?;
    assert s1.videos - {newId} == s.videos;
  }

  /** A published video can be read back under its new id, exactly as
      stored, and deleting it by its owner restores the store. */
  lemma PublishThenReadAndDelete(
    s: Store, requester: Id, title: Option<string>, description: Option<string>,
    files: Option<Files>, videoUpload: Option<UploadResult>, thumbnailUpload: Option<UploadResult>, newId: Id)
    requires ValidId(newId)
    requires PublishAVideo(s, requester, title, description, files, videoUpload, thumbnailUpload, newId).outcome.Ok?
    ensures var r := PublishAVideo(s, requester, title, description, files, videoUpload, thumbnailUpload, newId);
      && GetVideoById(r.store, newId) == Ok(200, r.outcome.data)
      && DeleteVideo(r.store, requester, newId) == Reply(Ok(200, ()), s)
  {
    var r := PublishAVideo(s, requester, title, description, files, videoUpload, thumbnailUpload, newId);
    var v := r.outcome.data;
    assert newId !in s.videos && v.owner == requester;
    assert r.store == s.(videos := s.videos[newId := v]);
    DeleteJustStored(s, requester, newId, v);
  }

  // ---------------------------------------------------------------------
  // updateVideo, deleteVideo, togglePublishStatus: the shared checks

  /** The checks the owner-only video handlers run in this order: the
      lookup (an ill-formed id fails to cast), existence (404), then
      ownership (401). */
  function OwnedVideo(s: Store, requester: Id, videoId: Id): (r: Outcome<Video>)
    ensures !ValidId(videoId) ==> r == Err(ServerError, Unclassified)
    ensures ValidId(videoId) && videoId !in s.videos ==> r == Err(404, NotFound)
    ensures ValidId(videoId) && videoId in s.videos && s.videos[videoId].owner != requester ==> r == Err(401, NotAllowed)
    ensures r.Ok? <==> ValidId(videoId) && videoId in s.videos && s.videos[videoId].owner == requester
    ensures r.Ok? ==> r.data == s.videos[videoId]
  {
    match FindById(s.videos, videoId)
    case CastFailed => Err(ServerError, Unclassified)
    case Missing => Err(404, NotFound)
    case Found(v) => if v.owner != requester then Err(401, NotAllowed) else Ok(200, v)
  }

  /** The `$set` of updateVideo applied to the stored record. */
  function MergeVideo(v: Video, title: Option<string>, description: Option<string>, thumbnailUpload: Option<UploadResult>): Video {
    var thumbnail := if thumbnailUpload.Some? && thumbnailUpload.value.url != "" then thumbnailUpload.value.url else v.thumbnail;
    v.(title := MergeField(title, v.title), description := MergeField(description, v.description), thumbnail := thumbnail)
  }

  /** updateVideo. After the owner checks, a request with no title, no
      description and no new thumbnail is refused; otherwise each field
      takes its trimmed new value, or keeps its old one when the new value
      is missing or blank. The falsiness test is on the untrimmed fields. */
  function UpdateVideo(s: Store, requester: Id, videoId: Id, title: Option<string>, description: Option<string>, thumbnailUpload: Option<UploadResult>): (r: Reply<Video>)
    ensures OwnedVideo(s, requester, videoId).Err? ==>
      r == Reply(Err(OwnedVideo(s, requester, videoId).status, OwnedVideo(s, requester, videoId).kind), s)
    ensures OwnedVideo(s, requester, videoId).Ok? && !Truthy(title) && !Truthy(description) && thumbnailUpload.None? ==>
      r == Reply(Err(400, NothingToUpdate), s)
    ensures r.outcome.Err? ==> r.store == s
    ensures r.outcome.Ok? ==>
      var prev := s.videos[videoId];
      var v := r.outcome.data;
      && r.outcome.status == 202
      && r.store == s.(videos := s.videos[videoId := v])
      && v.title == MergeField(title, prev.title)
      && v.description == MergeField(description, prev.description)
      && v.thumbnail == (if thumbnailUpload.Some? && thumbnailUpload.value.url != "" then thumbnailUpload.value.url else prev.thumbnail)
      && v.videoFile == prev.videoFile && v.duration == prev.duration && v.views == prev.views
      && v.isPublished == prev.isPublished && v.owner == prev.owner
  {
    match OwnedVideo(s, requester, videoId)
    case Err(status, kind) => Reply(Err(status, kind), s)
    case Ok(_, v) =>
      if !Truthy(title) && !Truthy(description) && thumbnailUpload.None? then
        Reply(Err(400, NothingToUpdate), s)
      else
        var updated := MergeVideo(v, title, description, thumbnailUpload);
        Reply(Ok(202, updated), s.(videos := s.videos[videoId := updated]))
  }

  lemma MergeVideoIdempotent(v: Video, title: Option<string>, description: Option<string>, thumbnailUpload: Option<UploadResult>)
    ensures var v1 := MergeVideo(v, title, description, thumbnailUpload);
      MergeVideo(v1, title, description, thumbnailUpload) == v1
  {
  }

  /** An update that passes every check stores the merged video. */
  lemma UpdateOwnedVideo(s: Store, requester: Id, videoId: Id, title: Option<string>, description: Option<string>, thumbnailUpload: Option<UploadResult>)
    requires OwnedVideo(s, requester, videoId).Ok?
    requires Truthy(title) || Truthy(description) || thumbnailUpload.Some?
    ensures var v := MergeVideo(s.videos[videoId], title, description, thumbnailUpload);
      UpdateVideo(s, requester, videoId, title, description, thumbnailUpload)
        == Reply(Ok(202, v), s.(videos := s.videos[videoId := v]))
  {
  }

  /** Repeating an update changes nothing more. */
  lemma UpdateVideoIdempotent(s: Store, requester: Id, videoId: Id, title: Option<string>, description: Option<string>, thumbnailUpload: Option<UploadResult>)
    requires UpdateVideo(s, requester, videoId, title, description, thumbnailUpload).outcome.Ok?
    ensures var s1 := UpdateVideo(s, requester, videoId, title, description, thumbnailUpload).store;
      UpdateVideo(s1, requester, videoId, title, description, thumbnailUpload).store == s1
  {
    var v1 := MergeVideo(s.videos[videoId], title, description, thumbnailUpload);
    var s1 := s.(videos := s.videos[videoId := v1]);
    UpdateOwnedVideo(s, requester, videoId, title, description, thumbnailUpload);
    assert s1.videos[videoId] == v1;
    assert OwnedVideo(s1, requester, videoId).Ok?;
    UpdateOwnedVideo(s1, requester, videoId, title, description, thumbnailUpload);
    MergeVideoIdempotent(s.videos[videoId], title, description, thumbnailUpload);
    assert s1.videos[videoId := v1] == s1.videos;
  }

  /** A whitespace-only title passes the "nothing to update" test, which
      looks at the untrimmed value, and then leaves every field as it was. */
  lemma WhitespaceTitleIsAcceptedAndChangesNothing(s: Store, requester: Id, videoId: Id)
    requires OwnedVideo(s, requester, videoId).Ok?
    ensures UpdateVideo(s, requester, videoId, Some(" "), None, None) == Reply(Ok(202, s.videos[videoId]), s)
  {
    assert AllSpace(" ");
    BlankIffAllSpace(" ");
    assert MergeVideo(s.videos[videoId], Some(" "), None, None) == s.videos[videoId];
    UpdateOwnedVideo(s, requester, videoId, Some(" "), None, None);
    assert s.videos[videoId := s.videos[videoId]] == s.videos;
  }

  /** deleteVideo: after the owner checks, removes exactly that video. */
  function DeleteVideo(s: Store, requester: Id, videoId: Id): (r: Reply<()>)
    ensures OwnedVideo(s, requester, videoId).Err? ==>
      r == Reply(Err(OwnedVideo(s, requester, videoId).status, OwnedVideo(s, requester, videoId).kind), s)
    ensures r.outcome.Err? ==> r.store == s
    ensures r.outcome.Ok? <==> OwnedVideo(s, requester, videoId).Ok?
    ensures r.outcome.Ok? ==>
      && r.outcome.status == 200
      && videoId in s.videos && videoId !in r.store.videos
      && r.store.videos.Keys == s.videos.Keys - {videoId}
      && (forall id :: id in r.store.videos ==> r.store.videos[id] == s.videos[id])
      && r.store == s.(videos := r.store.videos)
  {
    match OwnedVideo(s, requester, videoId)
    case Err(status, kind) => Reply(Err(status, kind), s)
    case Ok(_, _) => Reply(Ok(200, ()), s.(videos := s.videos - {videoId}))
  }

  /** togglePublishStatus: after the owner checks, flips the published flag
      and nothing else. */
  function TogglePublishStatus(s: Store, requester: Id, videoId: Id): (r: Reply<Video>)
    ensures OwnedVideo(s, requester, videoId).Err? ==>
      r == Reply(Err(OwnedVideo(s, requester, videoId).status, OwnedVideo(s, requester, videoId).kind), s)
    ensures r.outcome.Err? ==> r.store == s
    ensures r.outcome.Ok? <==> OwnedVideo(s, requester, videoId).Ok?
    ensures r.outcome.Ok? ==>
      && r.outcome.status == 202
      && r.outcome.data.isPublished == !s.videos[videoId].isPublished
      && r.outcome.data.(isPublished := s.videos[videoId].isPublished) == s.videos[videoId]
      && r.store == s.(videos := s.videos[videoId := r.outcome.data])
  {
    match OwnedVideo(s, requester, videoId)
    case Err(status, kind) => Reply(Err(status, kind), s)
    case Ok(_, v) =>
      var toggled := v.(isPublished := !v.isPublished);
      Reply(Ok(202, toggled), s.(videos := s.videos[videoId := toggled]))
  }

  /** Toggling the published flag twice restores the store. */
  lemma TogglePublishTwiceRestores(s: Store, requester: Id, videoId: Id)
    requires TogglePublishStatus(s, requester, videoId).outcome.Ok?
    ensures var s1 := TogglePublishStatus(s, requester, videoId).store;
      TogglePublishStatus(s1, requester, videoId) == Reply(Ok(202, s.videos[videoId]), s)
  {
    var s1 := TogglePublishStatus(s, requester, videoId).store;
    assert s1.videos[videoId := s.videos[videoId]] == s.videos;
  }

  // ---------------------------------------------------------------------
  // watchVideo

  /** Every user's watch history holds each video at most once. */
  predicate HistoriesAreSets(s: Store) {
    forall u :: u in s.users ==> NoDuplicates(s.users[u].watchHistory)
  }

  /** watchVideo: counts one more view on every call and adds the video to
      the requester's watch history as a set. A missing video is reported
      as a bad request. */
  function WatchVideo(s: Store, requester: Id, videoId: Id): (r: Reply<Video>)
    ensures !ValidId(videoId) ==> r == Reply(Err(400, InvalidId), s)
    ensures ValidId(videoId) && videoId !in s.videos ==> r == Reply(Err(400, NotFound), s)
    ensures r.outcome.Err? ==> r.store == s
    ensures r.outcome.Ok? <==> ValidId(videoId) && videoId in s.videos
    ensures r.outcome.Ok? ==>
      && r.outcome.status == 200
      && r.outcome.data == s.videos[videoId].(views := s.videos[videoId].views + 1)
      && r.store.videos == s.videos[videoId := r.outcome.data]
      && r.store.users.Keys == s.users.Keys
      && (requester in s.users ==>
            r.store.users[requester] == User(AddToSet(s.users[requester].watchHistory, videoId)))
      && (requester !in s.users ==> r.store.users == s.users)
      && (forall u :: u in s.users && u != requester ==> r.store.users[u] == s.users[u])
      && r.store == s.(videos := r.store.videos, users := r.store.users)
    ensures HistoriesAreSets(s) ==> HistoriesAreSets(r.store)
  {
    if !ValidId(videoId) then Reply(Err(400, InvalidId), s)
    else if videoId !in s.videos then Reply(Err(400, NotFound), s)
    else
      var v := s.videos[videoId];
      var watched := v.(views := v.views + 1);
      var users :=
        if requester in s.users
        then s.users[requester := User(AddToSet(s.users[requester].watchHistory, videoId))]
        else s.users;
      Reply(Ok(200, watched), s.(videos := s.videos[videoId := watched], users := users))
  }

  /** Watching twice counts two views but records the video in the history
      only once. */
  lemma WatchTwiceCountsTwiceRecordsOnce(s: Store, requester: Id, videoId: Id)
    requires WatchVideo(s, requester, videoId).outcome.Ok?
    ensures var s1 := WatchVideo(s, requester, videoId).store;
      var s2 := WatchVideo(s1, requester, videoId).store;
      && s2.videos[videoId].views == s.videos[videoId].views + 2
      && s2.users == s1.users
  {
  }
}
