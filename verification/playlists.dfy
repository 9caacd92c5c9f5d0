/** The playlist controller: creation with a per-owner name check, listing
    by owner, reading, adding and removing videos as set operations, owner-
    only delete and update. */
module Playlists {
  import opened Base
  import opened Text
  import opened Sequences
  import opened Store

  /** Some playlist of `owner` is stored under exactly the name `name`. */
  predicate NameTaken(s: Store, owner: Id, name: string) {
    exists id :: id in s.playlists && s.playlists[id].owner == owner && s.playlists[id].name == name
  }

  /** No owner has two playlists of the same name. */
  predicate NamesUniquePerOwner(s: Store) {
    forall i, j ::
      i in s.playlists && j in s.playlists
      && s.playlists[i].owner == s.playlists[j].owner && s.playlists[i].name == s.playlists[j].name
      ==> i == j
  }

  /** Every playlist holds each video at most once. */
  predicate PlaylistsAreSets(s: Store) {
    forall id :: id in s.playlists ==> NoDuplicates(s.playlists[id].videos)
  }

  function InsertPlaylist(s: Store, newId: Id, p: Playlist): (r: Reply<Playlist>)
    ensures r.outcome.Ok? <==> newId !in s.playlists
    ensures r.outcome.Ok? ==> r.outcome == Ok(201, p) && r.store == s.(playlists := s.playlists[newId := p])
    ensures r.outcome.Err? ==> r.store == s
  {
    match Insert(s.playlists, newId, p)
    case None => Reply(Err(ServerError, Unclassified), s)
    case Some(m) => Reply(Ok(201, p), s.(playlists := m))
  }

  /** createPlaylist as written: a missing or blank name is refused; the
      duplicate check looks for the name as sent, while the playlist is
      stored under the trimmed name. */
  function CreatePlaylist(s: Store, requester: Id, name: Option<string>, description: Option<string>, newId: Id): (r: Reply<Playlist>)
    ensures MissingOrBlank(name) ==> r == Reply(Err(400, MissingField), s)
    ensures !MissingOrBlank(name) && NameTaken(s, requester, name.value) ==> r == Reply(Err(400, AlreadyExists), s)
    ensures r.outcome.Err? ==> r.store == s
    ensures r.outcome.Ok? <==> !MissingOrBlank(name) && !NameTaken(s, requester, name.value) && newId !in s.playlists
    ensures r.outcome.Ok? ==>
      && r.outcome.status == 201
      && r.outcome.data == Playlist(Trim(name.value), description.GetOr(""), [], requester)
      && r.store == s.(playlists := s.playlists[newId := r.outcome.data])
  {
    if MissingOrBlank(name) then Reply(Err(400, MissingField), s)
    else if NameTaken(s, requester, name.value) then Reply(Err(400, AlreadyExists), s)
    else InsertPlaylist(s, newId, Playlist(Trim(name.value), description.GetOr(""), [], requester))
  }

  /** "mix " is not blank and trims to "mix". */
  lemma TrimMixSpace()
    ensures !MissingOrBlank(Some("mix "))
    ensures Trim("mix ") == "mix"
  {
    var s := "mix ";
    assert !IsSpace(s[0]) && IsSpace(s[3]) && !IsSpace(s[2]);
    assert FirstNonSpace(s, 0) == 0;
    assert EndOfText(s, 4) == 3 by {
      assert EndOfText(s, 3) == 3;
    }
    assert s[0..3] == "mix";
  }

  /** As written, a name with trailing whitespace slips past the duplicate
      check and gives its owner a second playlist of the same name. */
  lemma DuplicateNameSlipsThrough(s: Store, owner: Id, existing: Id, newId: Id)
    requires s.playlists == map[existing := Playlist("mix", "", [], owner)]
    requires newId != existing
    ensures NamesUniquePerOwner(s)
    ensures var r := CreatePlaylist(s, owner, Some("mix "), None, newId);
      r.outcome.Ok? && !NamesUniquePerOwner(r.store)
  {
    TrimMixSpace();
    assert !NameTaken(s, owner, "mix ") by {
      assert "mix " != "mix";
    }
    var r := CreatePlaylist(s, owner, Some("mix "), None, newId);
    assert r.store.playlists[newId] == Playlist("mix", "", [], owner);
    assert r.store.playlists[existing] == Playlist("mix", "", [], owner);
  }

  /** createPlaylist as evidently intended: the duplicate check looks for
      the name that will be stored. */
  function CreatePlaylistIntended(s: Store, requester: Id, name: Option<string>, description: Option<string>, newId: Id): (r: Reply<Playlist>)
    ensures MissingOrBlank(name) ==> r == Reply(Err(400, MissingField), s)
    ensures r.outcome.Err? ==> r.store == s
    ensures r.outcome.Ok? <==> !MissingOrBlank(name) && !NameTaken(s, requester, Trim(name.value)) && newId !in s.playlists
    ensures r.outcome.Ok? ==> r.store == s.(playlists := s.playlists[newId := r.outcome.data])
    ensures NamesUniquePerOwner(s) ==> NamesUniquePerOwner(r.store)
  {
    if MissingOrBlank(name) then Reply(Err(400, MissingField), s)
    else if NameTaken(s, requester, Trim(name.value)) then Reply(Err(400, AlreadyExists), s)
    else
      var p := Playlist(Trim(name.value), description.GetOr(""), [], requester);
      AddingFreshNameKeepsNamesUnique(s, newId, p);
      InsertPlaylist(s, newId, p)
  }

  /** Storing a playlist whose name its owner does not use yet keeps names
      unique per owner. */
  lemma AddingFreshNameKeepsNamesUnique(s: Store, newId: Id, p: Playlist)
    requires !NameTaken(s, p.owner, p.name)
    ensures NamesUniquePerOwner(s) ==> NamesUniquePerOwner(InsertPlaylist(s, newId, p).store)
  {
    var r := InsertPlaylist(s, newId, p);
    if NamesUniquePerOwner(s) && r.outcome.Ok? {
      assert forall k :: k in s.playlists ==> s.playlists[k].owner != p.owner || s.playlists[k].name != p.name;
      assert r.store.playlists == s.playlists[newId := p];
    }
  }

  /** getUserPlaylists: exactly the playlists the given user owns. */
  function GetUserPlaylists(s: Store, userId: Id): (r: Outcome<map<Id, Playlist>>)
    ensures !ValidId(userId) ==> r == Err(400, InvalidId)
    ensures r.Ok? <==> ValidId(userId)
    ensures r.Ok? ==> r.status == 200
    ensures r.Ok? ==> forall id :: id in r.data <==> id in s.playlists && s.playlists[id].owner == userId
    ensures r.Ok? ==> forall id :: id in r.data ==> r.data[id] == s.playlists[id]
  {
    if !ValidId(userId) then Err(400, InvalidId)
    else Ok(200, Select(s.playlists, (p: Playlist) => p.owner == userId))
  }

  /** A playlist just created is listed among its owner's playlists. */
  lemma CreatedPlaylistIsListed(s: Store, requester: Id, name: Option<string>, description: Option<string>, newId: Id)
    requires ValidId(requester)
    requires CreatePlaylist(s, requester, name, description, newId).outcome.Ok?
    ensures var r := CreatePlaylist(s, requester, name, description, newId);
      var l := GetUserPlaylists(r.store, requester);
      l.Ok? && newId in l.data && l.data[newId] == r.outcome.data
  {
  }

  /** getPlaylistById: a missing playlist is reported as a bad request. */
  function GetPlaylistById(s: Store, playlistId: Id): (r: Outcome<Playlist>)
    ensures !ValidId(playlistId) ==> r == Err(400, InvalidId)
    ensures ValidId(playlistId) && playlistId !in s.playlists ==> r == Err(400, NotFound)
    ensures r.Ok? <==> ValidId(playlistId) && playlistId in s.playlists
    ensures r.Ok? ==> r == Ok(200, s.playlists[playlistId])
  {
    if !ValidId(playlistId) then Err(400, InvalidId)
    else match FindById(s.playlists, playlistId)
      case Found(p) => Ok(200, p)
      case _ => Err(400, NotFound)
  }

  /** A playlist just created reads back as created, under its new id. */
  lemma CreatedPlaylistReadsBack(s: Store, requester: Id, name: Option<string>, description: Option<string>, newId: Id)
    requires ValidId(newId)
    requires CreatePlaylist(s, requester, name, description, newId).outcome.Ok?
    ensures var r := CreatePlaylist(s, requester, name, description, newId);
      GetPlaylistById(r.store, newId) == Ok(200, r.outcome.data)
  {
  }

  /** The existence and ownership checks after the id checks. The status
      of the ownership refusal differs between handlers: 400 for video
      membership and delete, 401 for update. */
  function OwnedPlaylist(s: Store, requester: Id, playlistId: Id, deniedStatus: int): (r: Outcome<Playlist>)
    requires ValidId(playlistId)
    ensures playlistId !in s.playlists ==> r == Err(400, NotFound)
    ensures playlistId in s.playlists && s.playlists[playlistId].owner != requester ==> r == Err(deniedStatus, NotAllowed)
    ensures r.Ok? <==> playlistId in s.playlists && s.playlists[playlistId].owner == requester
    ensures r.Ok? ==> r.data == s.playlists[playlistId]
  {
    match FindById(s.playlists, playlistId)
    case Found(p) => if p.owner != requester then Err(deniedStatus, NotAllowed) else Ok(200, p)
    case _ => Err(400, NotFound)
  }

  /** Whether a request naming a playlist and a video passes every check of
      addVideoToPlaylist and removeVideoFromPlaylist. */
  predicate MayEditMembers(s: Store, requester: Id, playlistId: Id, videoId: Id) {
    ValidId(playlistId) && ValidId(videoId) && playlistId in s.playlists && s.playlists[playlistId].owner == requester
  }

  /** The checks of addVideoToPlaylist and removeVideoFromPlaylist, in this
      order, each refusing with 400: both ids well-formed, the playlist
      exists, the requester owns it. */
  function MembershipChecks(s: Store, requester: Id, playlistId: Id, videoId: Id): (r: Outcome<Playlist>)
    ensures !ValidId(playlistId) || !ValidId(videoId) ==> r == Err(400, InvalidId)
    ensures ValidId(playlistId) && ValidId(videoId) && playlistId !in s.playlists ==> r == Err(400, NotFound)
    ensures ValidId(playlistId) && ValidId(videoId) && playlistId in s.playlists && s.playlists[playlistId].owner != requester ==>
      r == Err(400, NotAllowed)
    ensures r.Ok? <==> MayEditMembers(s, requester, playlistId, videoId)
    ensures r.Ok? ==> r.data == s.playlists[playlistId]
  {
    if !ValidId(playlistId) || !ValidId(videoId) then Err(400, InvalidId)
    else OwnedPlaylist(s, requester, playlistId, 400)
  }

  /** addVideoToPlaylist: `$addToSet` of the video. The video's existence
      is not checked. */
  function AddVideoToPlaylist(s: Store, requester: Id, playlistId: Id, videoId: Id): (r: Reply<Playlist>)
    ensures MembershipChecks(s, requester, playlistId, videoId).Err? ==>
      r == Reply(Err(400, MembershipChecks(s, requester, playlistId, videoId).kind), s)
    ensures r.outcome.Err? ==> r.store == s
    ensures r.outcome.Ok? <==> MayEditMembers(s, requester, playlistId, videoId)
    ensures r.outcome.Ok? ==>
      var p := s.playlists[playlistId];
      var q := r.outcome.data;
      && r.outcome.status == 202
      && r.store == s.(playlists := s.playlists[playlistId := q])
      && q == p.(videos := q.videos)
      && videoId in q.videos
      && (forall v :: v in q.videos <==> v in p.videos || v == videoId)
      && (videoId in p.videos ==> q == p)
  {
    match MembershipChecks(s, requester, playlistId, videoId)
    case Err(status, kind) => Reply(Err(status, kind), s)
    case Ok(_, p) =>
      var updated := p.(videos := AddToSet(p.videos, videoId));
      Reply(Ok(202, updated), s.(playlists := s.playlists[playlistId := updated]))
  }

  /** removeVideoFromPlaylist: `$pull` of the video. */
  function RemoveVideoFromPlaylist(s: Store, requester: Id, playlistId: Id, videoId: Id): (r: Reply<Playlist>)
    ensures MembershipChecks(s, requester, playlistId, videoId).Err? ==>
      r == Reply(Err(400, MembershipChecks(s, requester, playlistId, videoId).kind), s)
    ensures r.outcome.Err? ==> r.store == s
    ensures r.outcome.Ok? <==> MayEditMembers(s, requester, playlistId, videoId)
    ensures r.outcome.Ok? ==>
      var p := s.playlists[playlistId];
      var q := r.outcome.data;
      && r.outcome.status == 202
      && r.store == s.(playlists := s.playlists[playlistId := q])
      && q == p.(videos := q.videos)
      && videoId !in q.videos
      && (forall v :: v != videoId ==> (v in q.videos <==> v in p.videos))
  {
    match MembershipChecks(s, requester, playlistId, videoId)
    case Err(status, kind) => Reply(Err(status, kind), s)
    case Ok(_, p) =>
      var updated := p.(videos := Pull(p.videos, videoId));
      Reply(Ok(202, updated), s.(playlists := s.playlists[playlistId := updated]))
  }

  /** Adding a video twice is the same as adding it once. */
  lemma AddVideoIdempotent(s: Store, requester: Id, playlistId: Id, videoId: Id)
    requires AddVideoToPlaylist(s, requester, playlistId, videoId).outcome.Ok?
    ensures var s1 := AddVideoToPlaylist(s, requester, playlistId, videoId).store;
      AddVideoToPlaylist(s1, requester, playlistId, videoId).store == s1
  {
    var s1 := AddVideoToPlaylist(s, requester, playlistId, videoId).store;
    assert s1.playlists[playlistId := s1.playlists[playlistId]] == s1.playlists;
  }

  /** Removing a video that is not in the playlist changes nothing. */
  lemma RemoveAbsentVideoChangesNothing(s: Store, requester: Id, playlistId: Id, videoId: Id)
    requires MayEditMembers(s, requester, playlistId, videoId)
    requires videoId !in s.playlists[playlistId].videos
    ensures RemoveVideoFromPlaylist(s, requester, playlistId, videoId).store == s
  {
    PullAbsent(s.playlists[playlistId].videos, videoId);
    assert s.playlists[playlistId := s.playlists[playlistId]] == s.playlists;
  }

  /** Removing a video just added, that was not in the playlist before,
      restores the store. */
  lemma AddThenRemoveRestores(s: Store, requester: Id, playlistId: Id, videoId: Id)
    requires MayEditMembers(s, requester, playlistId, videoId)
    requires videoId !in s.playlists[playlistId].videos
    ensures var s1 := AddVideoToPlaylist(s, requester, playlistId, videoId).store;
      RemoveVideoFromPlaylist(s1, requester, playlistId, videoId).store == s
  {
    PullUndoesAddToSet(s.playlists[playlistId].videos, videoId);
    var s1 := AddVideoToPlaylist(s, requester, playlistId, videoId).store;
    assert s1.playlists[playlistId := s.playlists[playlistId]] == s.playlists;
  }

  /** deletePlaylist: after the id, existence and ownership checks (all
      400), removes exactly that playlist. */
  function DeletePlaylist(s: Store, requester: Id, playlistId: Id): (r: Reply<()>)
    ensures !ValidId(playlistId) ==> r == Reply(Err(400, InvalidId), s)
    ensures ValidId(playlistId) && playlistId !in s.playlists ==> r == Reply(Err(400, NotFound), s)
    ensures ValidId(playlistId) && playlistId in s.playlists && s.playlists[playlistId].owner != requester ==>
      r == Reply(Err(400, NotAllowed), s)
    ensures r.outcome.Err? ==> r.store == s
    ensures r.outcome.Ok? <==> ValidId(playlistId) && playlistId in s.playlists && s.playlists[playlistId].owner == requester
    ensures r.outcome.Ok? ==>
      && r.outcome.status == 200
      && r.store.playlists.Keys == s.playlists.Keys - {playlistId}
      && (forall id :: id in r.store.playlists ==> r.store.playlists[id] == s.playlists[id])
      && r.store == s.(playlists := r.store.playlists)
  {
    if !ValidId(playlistId) then Reply(Err(400, InvalidId), s)
    else match OwnedPlaylist(s, requester, playlistId, 400)
      case Err(status, kind) => Reply(Err(status, kind), s)
      case Ok(_, _) => Reply(Ok(200, ()), s.(playlists := s.playlists - {playlistId}))
  }

  /** What reading `playlist.title` gives: the record has no such field,
      so the name's fallback in updatePlaylist is undefined. */
  function TitleField(p: Playlist): Option<string> {
    None
  }

  /** A `$set` operand: an undefined value is dropped from the update, so
      the field keeps its stored value. */
  function SetOrKeep(stored: string, operand: Option<string>): string {
    operand.GetOr(stored)
  }

  /** updatePlaylist: id (400), existence (400), ownership (401), then a
      request whose name and description are both missing or empty is
      refused. The description falls back to its stored value; the name
      falls back to the undefined `title`, which leaves it as stored. */
  function UpdatePlaylist(s: Store, requester: Id, playlistId: Id, name: Option<string>, description: Option<string>): (r: Reply<Playlist>)
    ensures !ValidId(playlistId) ==> r == Reply(Err(400, InvalidId), s)
    ensures ValidId(playlistId) && playlistId !in s.playlists ==> r == Reply(Err(400, NotFound), s)
    ensures ValidId(playlistId) && playlistId in s.playlists && s.playlists[playlistId].owner != requester ==>
      r == Reply(Err(401, NotAllowed), s)
    ensures ValidId(playlistId) && playlistId in s.playlists && s.playlists[playlistId].owner == requester
            && !Truthy(name) && !Truthy(description) ==>
              r == Reply(Err(400, NothingToUpdate), s)
    ensures r.outcome.Err? ==> r.store == s
    ensures r.outcome.Ok? <==>
      ValidId(playlistId) && playlistId in s.playlists && s.playlists[playlistId].owner == requester
      && (Truthy(name) || Truthy(description))
    ensures r.outcome.Ok? ==>
      var p := s.playlists[playlistId];
      var q := r.outcome.data;
      && r.outcome.status == 202
      && r.store == s.(playlists := s.playlists[playlistId := q])
      && q.name == MergeField(name, p.name)
      && q.description == MergeField(description, p.description)
      && q.videos == p.videos && q.owner == p.owner
  {
    if !ValidId(playlistId) then Reply(Err(400, InvalidId), s)
    else match OwnedPlaylist(s, requester, playlistId, 401)
      case Err(status, kind) => Reply(Err(status, kind), s)
      case Ok(_, p) =>
        if !Truthy(name) && !Truthy(description) then Reply(Err(400, NothingToUpdate), s)
        else
          var updated := p.(
            name := SetOrKeep(p.name, TrimmedOr(name, TitleField(p))),
            description := SetOrKeep(p.description, TrimmedOr(description, Some(p.description))));
          Reply(Ok(202, updated), s.(playlists := s.playlists[playlistId := updated]))
  }

  /** Repeating a playlist update changes nothing more. */
  lemma UpdatePlaylistIdempotent(s: Store, requester: Id, playlistId: Id, name: Option<string>, description: Option<string>)
    requires UpdatePlaylist(s, requester, playlistId, name, description).outcome.Ok?
    ensures var s1 := UpdatePlaylist(s, requester, playlistId, name, description).store;
      UpdatePlaylist(s1, requester, playlistId, name, description).store == s1
  {
    var s1 := UpdatePlaylist(s, requester, playlistId, name, description).store;
    assert s1.playlists[playlistId := s1.playlists[playlistId]] == s1.playlists;
  }

  /** Creating a playlist keeps each playlist's videos free of duplicates. */
  lemma CreatePlaylistKeepsSets(s: Store, requester: Id, name: Option<string>, description: Option<string>, newId: Id)
    requires PlaylistsAreSets(s)
    ensures PlaylistsAreSets(CreatePlaylist(s, requester, name, description, newId).store)
  {
    var r := CreatePlaylist(s, requester, name, description, newId);
    if r.outcome.Ok? {
      var p := r.outcome.data;
      assert p.videos == [];
      assert r.store.playlists == s.playlists[newId := p];
      forall id | id in r.store.playlists ensures NoDuplicates(r.store.playlists[id].videos) {
        if id != newId {
          assert r.store.playlists[id] == s.playlists[id];
        }
      }
    }
  }

  /** Adding a video keeps each playlist's videos free of duplicates. */
  lemma AddVideoKeepsSets(s: Store, requester: Id, playlistId: Id, videoId: Id)
    requires PlaylistsAreSets(s)
    ensures PlaylistsAreSets(AddVideoToPlaylist(s, requester, playlistId, videoId).store)
  {
    var r := AddVideoToPlaylist(s, requester, playlistId, videoId);
    if r.outcome.Ok? {
      var p := s.playlists[playlistId];
      assert r.outcome.data.videos == AddToSet(p.videos, videoId);
      assert r.store.playlists == s.playlists[playlistId := r.outcome.data];
    }
  }

  /** Removing a video keeps each playlist's videos free of duplicates. */
  lemma RemoveVideoKeepsSets(s: Store, requester: Id, playlistId: Id, videoId: Id)
    requires PlaylistsAreSets(s)
    ensures PlaylistsAreSets(RemoveVideoFromPlaylist(s, requester, playlistId, videoId).store)
  {
    var r := RemoveVideoFromPlaylist(s, requester, playlistId, videoId);
    if r.outcome.Ok? {
      var p := s.playlists[playlistId];
      assert r.outcome.data.videos == Pull(p.videos, videoId);
      assert r.store.playlists == s.playlists[playlistId := r.outcome.data];
    }
  }

  /** Updating and deleting a playlist keep each playlist's videos free of
      duplicates. */
  lemma UpdateAndDeleteKeepSets(s: Store, requester: Id, playlistId: Id, name: Option<string>, description: Option<string>)
    requires PlaylistsAreSets(s)
    ensures PlaylistsAreSets(UpdatePlaylist(s, requester, playlistId, name, description).store)
    ensures PlaylistsAreSets(DeletePlaylist(s, requester, playlistId).store)
  {
    var r := UpdatePlaylist(s, requester, playlistId, name, description);
    if r.outcome.Ok? {
      assert r.store.playlists == s.playlists[playlistId := r.outcome.data];
    }
  }
}
