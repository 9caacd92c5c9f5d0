/** The like controller: the three like toggles (video, comment, tweet),
    which differ only in the kind of target, and the listing of the videos
    a user liked. */
module Likes {
  import opened Base
  import opened Store

  /** The `findOne` filter of a toggle: a like by `user` on `target`. */
  predicate LikeBy(l: Like, user: Id, target: LikeTarget) {
    l.likedBy == user && l.target == target
  }

  /** Some stored like is by `user` on `target`. */
  predicate Liked(s: Store, user: Id, target: LikeTarget) {
    exists id :: id in s.likes && LikeBy(s.likes[id], user, target)
  }

  /** At most one like per (user, target) pair. */
  predicate UniqueLikes(s: Store) {
    forall i, j :: i in s.likes && j in s.likes && s.likes[i] == s.likes[j] ==> i == j
  }

  /** The (likedBy, target) pairs the store holds. */
  function Pairs(s: Store): set<Like> {
    set id | id in s.likes :: s.likes[id]
  }

  /** What a toggle reports: the like it created, or that the pair is no
      longer liked. */
  datatype Toggled = NowLiked(like: Like) | NowNotLiked

  /** toggleVideoLike, toggleCommentLike and toggleTweetLike. An ill-formed
      target id is refused before the store is read; an existing like by the
      requester on the target is deleted (200), otherwise one is created
      (201). Which like `findOne` returns when there are several is left
      open. */
  ghost function ToggleLike(s: Store, requester: Id, target: LikeTarget, newId: Id): (r: Reply<Toggled>)
    ensures !ValidId(target.id) ==> r == Reply(Err(400, InvalidId), s)
    ensures r.outcome.Err? ==> r.store == s
    ensures ValidId(target.id) && Liked(s, requester, target) ==>
      && r.outcome == Ok(200, NowNotLiked)
      && exists id :: id in s.likes && LikeBy(s.likes[id], requester, target) && r.store == s.(likes := s.likes - {id})
    ensures ValidId(target.id) && !Liked(s, requester, target) && newId in s.likes ==>
      r == Reply(Err(ServerError, Unclassified), s)
    ensures ValidId(target.id) && !Liked(s, requester, target) && newId !in s.likes ==>
      r == Reply(Ok(201, NowLiked(Like(requester, target))), s.(likes := s.likes[newId := Like(requester, target)]))
    ensures forall id :: id in s.likes && !LikeBy(s.likes[id], requester, target) ==>
      id in r.store.likes && r.store.likes[id] == s.likes[id]
    ensures UniqueLikes(s) ==> UniqueLikes(r.store)
    ensures UniqueLikes(s) && r.outcome.Ok? ==>
      (Liked(r.store, requester, target) <==> r.outcome.data.NowLiked?)
  {
    if !ValidId(target.id) then Reply(Err(400, InvalidId), s)
    else if Liked(s, requester, target) then
      var id :| id in s.likes && LikeBy(s.likes[id], requester, target);
      Reply(Ok(200, NowNotLiked), s.(likes := s.likes - {id}))
    else
      match Insert(s.likes, newId, Like(requester, target))
      case None => Reply(Err(ServerError, Unclassified), s)
      case Some(m) => Reply(Ok(201, NowLiked(Like(requester, target))), s.(likes := m))
  }

  /** Toggling the same target twice restores the set of liked pairs; when
      the pair was not liked at first, it restores the store itself. */
  lemma ToggleTwiceRestores(s: Store, requester: Id, target: LikeTarget, id1: Id, id2: Id)
    requires ValidId(target.id) && UniqueLikes(s)
    requires id1 !in s.likes && id2 !in s.likes
    ensures var s1 := ToggleLike(s, requester, target, id1).store;
      var s2 := ToggleLike(s1, requester, target, id2).store;
      && Pairs(s2) == Pairs(s)
      && (!Liked(s, requester, target) ==> s2 == s)
  {
    var s1 := ToggleLike(s, requester, target, id1).store;
    var s2 := ToggleLike(s1, requester, target, id2).store;
    var pair := Like(requester, target);
    if Liked(s, requester, target) {
      var id :| id in s.likes && LikeBy(s.likes[id], requester, target) && s1 == s.(likes := s.likes - {id});
      assert s.likes[id] == pair;
      assert !Liked(s1, requester, target);
      assert s2.likes == s1.likes[id2 := pair];
      forall l | l in Pairs(s) ensures l in Pairs(s2) {
        var k :| k in s.likes && s.likes[k] == l;
        if k == id {
          assert s2.likes[id2] == l;
        } else {
          assert s2.likes[k] == l;
        }
      }
      forall l | l in Pairs(s2) ensures l in Pairs(s) {
        var k :| k in s2.likes && s2.likes[k] == l;
        if k == id2 {
          assert s.likes[id] == l;
        } else {
          assert s.likes[k] == l;
        }
      }
    } else {
      assert s1.likes == s.likes[id1 := pair];
      assert Liked(s1, requester, target) by {
        assert LikeBy(s1.likes[id1], requester, target);
      }
      var id :| id in s1.likes && LikeBy(s1.likes[id], requester, target) && s2 == s1.(likes := s1.likes - {id});
      assert id == id1;
      assert s1.likes - {id1} == s.likes;
    }
  }

  /** getLikedVideos: for each like by the requester on a video that still
      exists, the like's id and the video's id. Likes on comments and
      tweets, likes by other users and likes whose video is gone are
      dropped. */
  function GetLikedVideos(s: Store, requester: Id): (r: Outcome<map<Id, Id>>)
    ensures r.Ok? && r.status == 200
    ensures forall id :: id in r.data <==>
      id in s.likes && s.likes[id].likedBy == requester && s.likes[id].target.LikedVideo? && s.likes[id].target.id in s.videos
    ensures forall id :: id in r.data ==> s.likes[id] == Like(requester, LikedVideo(r.data[id]))
  {
    Ok(200, map id | id in s.likes && s.likes[id].likedBy == requester && s.likes[id].target.LikedVideo?
                     && s.likes[id].target.id in s.videos :: s.likes[id].target.id)
  }

  /** Whether `videoId` is among the videos `GetLikedVideos` lists. */
  predicate AmongLikedVideos(s: Store, requester: Id, videoId: Id) {
    videoId in GetLikedVideos(s, requester).data.Values
  }

  /** Liking an existing video lists it among the requester's liked
      videos; unliking it, when likes are unique, removes it from there. */
  lemma ToggleUpdatesLikedVideos(s: Store, requester: Id, videoId: Id, newId: Id)
    requires ValidId(videoId) && videoId in s.videos && UniqueLikes(s)
    ensures var r := ToggleLike(s, requester, LikedVideo(videoId), newId);
      r.outcome.Ok? ==>
        (AmongLikedVideos(r.store, requester, videoId) <==> r.outcome.data.NowLiked?)
  {
    var target := LikedVideo(videoId);
    var r := ToggleLike(s, requester, target, newId);
    var liked := GetLikedVideos(r.store, requester).data;
    if r.outcome.Ok? {
      if r.outcome.data.NowLiked? {
        assert liked[newId] == videoId;
      } else {
        assert !Liked(r.store, requester, target);
        forall id | id in liked ensures liked[id] != videoId {
          assert r.store.likes[id] == Like(requester, LikedVideo(liked[id]));
          assert !LikeBy(r.store.likes[id], requester, target);
        }
      }
    }
  }
}
