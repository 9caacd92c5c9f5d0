/** The comment controller: paginated listings of a video's or a tweet's
    comments, adding a comment to either, and owner-only update and delete.
    Every refusal here, "not found" and "not allowed" included, is a 400. */
module Comments {
  import opened Base
  import opened Text
  import opened Sequences
  import opened Store

  /** A listing response: the page, and its length reported as the total. */
  datatype CommentPage = CommentPage(totalComments: nat, comments: seq<(Id, Comment)>)

  function TargetId(t: Target): Id {
    match t
    case OnVideo(v) => v
    case OnTweet(tw) => tw
  }

  /** The comments on `target`, in the order `order` reads the collection. */
  function CommentsOn(s: Store, order: seq<Id>, target: Target): seq<(Id, Comment)> {
    Listing(s.comments, order, (c: Comment) => c.target == target)
  }

  /** The `$match` on the target followed by `$skip`/`$limit`, with the
      collection read in `order`. */
  function ListComments(s: Store, order: seq<Id>, target: Target, page: int, limit: int): (r: Outcome<CommentPage>)
    ensures r.Ok? <==> page >= 1 && limit >= 1
    ensures r.Ok? ==>
      && r.status == 200
      && r.data.totalComments == |r.data.comments|
      && IsPage(r.data.comments, CommentsOn(s, order, target), page, limit)
    ensures r.Ok? ==>
      && |r.data.comments| <= limit
      && forall k :: 0 <= k < |r.data.comments| ==>
           var (id, c) := r.data.comments[k];
           id in s.comments && s.comments[id] == c && c.target == target
  {
    match Paginate(CommentsOn(s, order, target), page, limit)
    case None => Err(ServerError, Unclassified)
    case Some(p) => Ok(200, CommentPage(|p|, p))
  }

  /** getVideoComments: a missing or ill-formed video id is refused before
      the store is read. */
  function GetVideoComments(s: Store, order: seq<Id>, videoId: Id, page: int, limit: int): (r: Outcome<CommentPage>)
    ensures !ValidId(videoId) ==> r == Err(400, InvalidId)
    ensures r.Ok? <==> ValidId(videoId) && page >= 1 && limit >= 1
    ensures r.Ok? ==>
      && |r.data.comments| <= limit
      && r.data.totalComments == |r.data.comments|
      && forall k :: 0 <= k < |r.data.comments| ==>
           r.data.comments[k].0 in s.comments && r.data.comments[k].1.target == OnVideo(videoId)
    ensures r.Ok? ==> r.status == 200 && IsPage(r.data.comments, CommentsOn(s, order, OnVideo(videoId)), page, limit)
  {
    if videoId == "" || !ValidId(videoId) then Err(400, InvalidId)
    else ListComments(s, order, OnVideo(videoId), page, limit)
  }

  /** getTweetComments: an ill-formed tweet id is refused before the store
      is read. */
  function GetTweetComments(s: Store, order: seq<Id>, tweetId: Id, page: int, limit: int): (r: Outcome<CommentPage>)
    ensures !ValidId(tweetId) ==> r == Err(400, InvalidId)
    ensures r.Ok? <==> ValidId(tweetId) && page >= 1 && limit >= 1
    ensures r.Ok? ==>
      && |r.data.comments| <= limit
      && r.data.totalComments == |r.data.comments|
      && forall k :: 0 <= k < |r.data.comments| ==>
           r.data.comments[k].0 in s.comments && r.data.comments[k].1.target == OnTweet(tweetId)
    ensures r.Ok? ==> r.status == 200 && IsPage(r.data.comments, CommentsOn(s, order, OnTweet(tweetId)), page, limit)
  {
    if !ValidId(tweetId) then Err(400, InvalidId)
    else ListComments(s, order, OnTweet(tweetId), page, limit)
  }

  /** A value of a `$match` filter as the database compares it: an object
      id, or a plain string. The mapper does not cast the stages of an
      aggregation, so a string in one stays a string, and a string never
      equals an object id. */
  datatype MatchValue = ObjectIdValue(id: Id) | StringValue(text: string)

  /** The stored `tweet` field of a comment: an object id, or absent for a
      comment on a video. */
  function TweetField(c: Comment): Option<MatchValue> {
    match c.target
    case OnTweet(tw) => Some(ObjectIdValue(tw))
    case OnVideo(_) => None
  }

  /** getTweetComments as written: the `$match` compares the stored object
      ids with the route parameter as a string, so no comment ever
      matches and every page is empty. */
  function GetTweetCommentsAsWritten(s: Store, order: seq<Id>, tweetId: Id, page: int, limit: int): (r: Outcome<CommentPage>)
    ensures !ValidId(tweetId) ==> r == Err(400, InvalidId)
    ensures r.Ok? <==> ValidId(tweetId) && page >= 1 && limit >= 1
    ensures r.Ok? ==> r == Ok(200, CommentPage(0, []))
  {
    if !ValidId(tweetId) then Err(400, InvalidId)
    else
      var matched := Listing(s.comments, order, (c: Comment) => TweetField(c) == Some(StringValue(tweetId)));
      assert |matched| == 0 || TweetField(matched[0].1) == Some(StringValue(tweetId));
      match Paginate(matched, page, limit)
      case None => Err(ServerError, Unclassified)
      case Some(p) => Ok(200, CommentPage(|p|, p))
  }

  /** As written, a comment just added to a tweet is on no page of that
      tweet's comments, while the intended listing shows it on some page. */
  lemma TweetCommentNeverListed(s: Store, requester: Id, tweetId: Id, content: Option<string>, newId: Id, order: seq<Id>, limit: int)
    requires AddComment(s, requester, OnTweet(tweetId), content, newId).outcome.Ok?
    requires ReadOrder(order, AddComment(s, requester, OnTweet(tweetId), content, newId).store.comments) && limit >= 1
    ensures var s1 := AddComment(s, requester, OnTweet(tweetId), content, newId).store;
      && (forall page :: page >= 1 ==> GetTweetCommentsAsWritten(s1, order, tweetId, page, limit) == Ok(200, CommentPage(0, [])))
      && exists page :: page >= 1 && ListedOnPage(s1, order, OnTweet(tweetId), page, limit, newId)
  {
    AddedCommentIsListed(s, requester, OnTweet(tweetId), content, newId, order, limit);
  }

  /** addCommentToVideo and addCommentToTweet: the target id is checked
      before the content, the stored content is trimmed, and the comment is
      attached to exactly the target named. The target's existence is not
      checked. */
  function AddComment(s: Store, requester: Id, target: Target, content: Option<string>, newId: Id): (r: Reply<Comment>)
    ensures !ValidId(TargetId(target)) ==> r == Reply(Err(400, InvalidId), s)
    ensures ValidId(TargetId(target)) && MissingOrBlank(content) ==> r == Reply(Err(400, MissingField), s)
    ensures r.outcome.Err? ==> r.store == s
    ensures r.outcome.Ok? <==> ValidId(TargetId(target)) && !MissingOrBlank(content) && newId !in s.comments
    ensures r.outcome.Ok? ==>
      && r.outcome == Ok(201, Comment(Trim(content.value), target, requester))
      && r.store == s.(comments := s.comments[newId := r.outcome.data])
  {
    if !ValidId(TargetId(target)) then Reply(Err(400, InvalidId), s)
    else if MissingOrBlank(content) then Reply(Err(400, MissingField), s)
    else
      var c := Comment(Trim(content.value), target, requester);
      match Insert(s.comments, newId, c)
      case None => Reply(Err(ServerError, Unclassified), s)
      case Some(m) => Reply(Ok(201, c), s.(comments := m))
  }

  /** The listing handler of a target: getVideoComments for a video,
      getTweetComments for a tweet. */
  function CommentsOfTarget(s: Store, order: seq<Id>, target: Target, page: int, limit: int): Outcome<CommentPage> {
    match target
    case OnVideo(v) => GetVideoComments(s, order, v, page, limit)
    case OnTweet(tw) => GetTweetComments(s, order, tw, page, limit)
  }

  predicate ListedOnPage(s: Store, order: seq<Id>, target: Target, page: int, limit: int, id: Id) {
    var r := CommentsOfTarget(s, order, target, page, limit);
    r.Ok? && id in s.comments && (id, s.comments[id]) in r.data.comments
  }

  /** A comment just added to a video or a tweet is shown on some page of
      that target's comments, when the listing reads every stored comment
      once. */
  lemma AddedCommentIsListed(s: Store, requester: Id, target: Target, content: Option<string>, newId: Id, order: seq<Id>, limit: int)
    requires AddComment(s, requester, target, content, newId).outcome.Ok?
    requires ReadOrder(order, AddComment(s, requester, target, content, newId).store.comments) && limit >= 1
    ensures var s1 := AddComment(s, requester, target, content, newId).store;
      exists page :: page >= 1 && ListedOnPage(s1, order, target, page, limit, newId)
  {
    var s1 := AddComment(s, requester, target, content, newId).store;
    var all := CommentsOn(s1, order, target);
    assert newId in order;
    assert (newId, s1.comments[newId]) in all;
    var i :| 0 <= i < |all| && all[i] == (newId, s1.comments[newId]);
    EveryRecordOnItsPage(all, limit, i);
    var page := i / limit + 1;
    assert CommentsOfTarget(s1, order, target, page, limit).data.comments[i % limit] == all[i];
    assert ListedOnPage(s1, order, target, page, limit, newId);
  }

  /** The checks updateComment and deleteComment run, in this order, each
      refusing with 400: a well-formed id, an existing comment, the
      requester as its owner. */
  function OwnedComment(s: Store, requester: Id, commentId: Id): (r: Outcome<Comment>)
    ensures !ValidId(commentId) ==> r == Err(400, InvalidId)
    ensures ValidId(commentId) && commentId !in s.comments ==> r == Err(400, NotFound)
    ensures ValidId(commentId) && commentId in s.comments && s.comments[commentId].owner != requester ==> r == Err(400, NotAllowed)
    ensures r.Ok? <==> ValidId(commentId) && commentId in s.comments && s.comments[commentId].owner == requester
    ensures r.Ok? ==> r.data == s.comments[commentId]
  {
    if !ValidId(commentId) then Err(400, InvalidId)
    else match FindById(s.comments, commentId)
      case Found(c) => if c.owner != requester then Err(400, NotAllowed) else Ok(200, c)
      case _ => Err(400, NotFound)
  }

  /** updateComment: after the owner checks, a missing or blank content is
      refused; otherwise only the content changes, to its trimmed value. */
  function UpdateComment(s: Store, requester: Id, commentId: Id, content: Option<string>): (r: Reply<Comment>)
    ensures OwnedComment(s, requester, commentId).Err? ==>
      r == Reply(Err(400, OwnedComment(s, requester, commentId).kind), s)
    ensures OwnedComment(s, requester, commentId).Ok? && MissingOrBlank(content) ==>
      r == Reply(Err(400, NothingToUpdate), s)
    ensures r.outcome.Err? ==> r.store == s
    ensures r.outcome.Ok? <==> OwnedComment(s, requester, commentId).Ok? && !MissingOrBlank(content)
    ensures r.outcome.Ok? ==>
      && r.outcome.status == 202
      && r.outcome.data == s.comments[commentId].(content := Trim(content.value))
      && r.store == s.(comments := s.comments[commentId := r.outcome.data])
  {
    match OwnedComment(s, requester, commentId)
    case Err(status, kind) => Reply(Err(status, kind), s)
    case Ok(_, c) =>
      if MissingOrBlank(content) then Reply(Err(400, NothingToUpdate), s)
      else
        var updated := c.(content := Trim(content.value));
        Reply(Ok(202, updated), s.(comments := s.comments[commentId := updated]))
  }

  /** Repeating a comment update changes nothing more. */
  lemma UpdateCommentIdempotent(s: Store, requester: Id, commentId: Id, content: Option<string>)
    requires UpdateComment(s, requester, commentId, content).outcome.Ok?
    ensures var s1 := UpdateComment(s, requester, commentId, content).store;
      UpdateComment(s1, requester, commentId, content).store == s1
  {
    var s1 := UpdateComment(s, requester, commentId, content).store;
    assert s1.comments[commentId := s1.comments[commentId]] == s1.comments;
  }

  /** deleteComment: after the owner checks, removes exactly that comment. */
  function DeleteComment(s: Store, requester: Id, commentId: Id): (r: Reply<()>)
    ensures OwnedComment(s, requester, commentId).Err? ==>
      r == Reply(Err(400, OwnedComment(s, requester, commentId).kind), s)
    ensures r.outcome.Err? ==> r.store == s
    ensures r.outcome.Ok? <==> OwnedComment(s, requester, commentId).Ok?
    ensures r.outcome.Ok? ==>
      && r.outcome.status == 200
      && r.store.comments.Keys == s.comments.Keys - {commentId}
      && (forall id :: id in r.store.comments ==> r.store.comments[id] == s.comments[id])
      && r.store == s.(comments := r.store.comments)
  {
    match OwnedComment(s, requester, commentId)
    case Err(status, kind) => Reply(Err(status, kind), s)
    case Ok(_, _) => Reply(Ok(200, ()), s.(comments := s.comments - {commentId}))
  }

  /** Deleting a comment just added, as its author, restores the store. */
  lemma AddThenDeleteRestores(s: Store, requester: Id, target: Target, content: Option<string>, newId: Id)
    requires ValidId(newId)
    requires AddComment(s, requester, target, content, newId).outcome.Ok?
    ensures var s1 := AddComment(s, requester, target, content, newId).store;
      DeleteComment(s1, requester, newId) == Reply(Ok(200, ()), s)
  {
    var s1 := AddComment(s, requester, target, content, newId).store;
    assert s1.comments - {newId} == s.comments;
  }

  /** Every stored comment has non-blank content without surrounding
      whitespace. */
  predicate ContentsTrimmed(s: Store) {
    forall id :: id in s.comments ==> Trimmed(s.comments[id].content)
  }

  /** Adding a comment keeps every stored content trimmed and non-blank. */
  lemma AddCommentKeepsContentsTrimmed(s: Store, requester: Id, target: Target, content: Option<string>, newId: Id)
    requires ContentsTrimmed(s)
    ensures ContentsTrimmed(AddComment(s, requester, target, content, newId).store)
  {
    var r := AddComment(s, requester, target, content, newId);
    if r.outcome.Ok? {
      assert r.store.comments == s.comments[newId := r.outcome.data];
    }
  }

  /** Updating a comment keeps every stored content trimmed and non-blank. */
  lemma UpdateCommentKeepsContentsTrimmed(s: Store, requester: Id, commentId: Id, content: Option<string>)
    requires ContentsTrimmed(s)
    ensures ContentsTrimmed(UpdateComment(s, requester, commentId, content).store)
  {
    var r := UpdateComment(s, requester, commentId, content);
    if r.outcome.Ok? {
      assert r.store.comments == s.comments[commentId := r.outcome.data];
    }
  }
}
