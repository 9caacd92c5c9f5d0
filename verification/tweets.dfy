/** The tweet controller: creation, listing by owner, and owner-only update
    and delete. */
module Tweets {
  import opened Base
  import opened Text
  import opened Store

  /** createTweet. The content is trimmed before anything else, so a
      request without content fails unclassified; content that trims to
      nothing is refused with 400. The stored content is the trimmed one. */
  function CreateTweet(s: Store, requester: Id, content: Option<string>, newId: Id): (r: Reply<Tweet>)
    ensures content.None? ==> r == Reply(Err(ServerError, Unclassified), s)
    ensures content.Some? && Blank(content.value) ==> r == Reply(Err(400, MissingField), s)
    ensures r.outcome.Err? ==> r.store == s
    ensures r.outcome.Ok? <==> content.Some? && !Blank(content.value) && newId !in s.tweets
    ensures r.outcome.Ok? ==>
      && r.outcome.status == 201
      && r.outcome.data == Tweet(Trim(content.value), requester)
      && Trimmed(r.outcome.data.content)
      && r.store == s.(tweets := s.tweets[newId := r.outcome.data])
  {
    match content
    case None => Reply(Err(ServerError, Unclassified), s)
    case Some(c) =>
      var trimmed := Trim(c);
      if trimmed == "" then Reply(Err(400, MissingField), s)
      else
        var t := Tweet(trimmed, requester);
        match Insert(s.tweets, newId, t)
        case None => Reply(Err(ServerError, Unclassified), s)
        case Some(m) => Reply(Ok(201, t), s.(tweets := m))
  }

  /** getUserTweets. An ill-formed id is refused with 400; an id no user
      has fails unclassified, since the handler reads the `_id` of the
      missing user; otherwise exactly that user's tweets. */
  function GetUserTweets(s: Store, userId: Id): (r: Outcome<map<Id, Tweet>>)
    ensures !ValidId(userId) ==> r == Err(400, InvalidId)
    ensures ValidId(userId) && userId !in s.users ==> r == Err(ServerError, Unclassified)
    ensures r.Ok? <==> ValidId(userId) && userId in s.users
    ensures r.Ok? ==> r.status == 200
    ensures r.Ok? ==> forall id :: id in r.data <==> id in s.tweets && s.tweets[id].owner == userId
    ensures r.Ok? ==> forall id :: id in r.data ==> r.data[id] == s.tweets[id]
  {
    if !ValidId(userId) then Err(400, InvalidId)
    else match FindById(s.users, userId)
      case Found(_) => Ok(200, Select(s.tweets, (t: Tweet) => t.owner == userId))
      case _ => Err(ServerError, Unclassified)
  }

  /** A tweet just created is listed among its author's tweets. */
  lemma CreatedTweetIsListed(s: Store, requester: Id, content: Option<string>, newId: Id)
    requires ValidId(requester) && requester in s.users
    requires CreateTweet(s, requester, content, newId).outcome.Ok?
    ensures var r := CreateTweet(s, requester, content, newId);
      var l := GetUserTweets(r.store, requester);
      l.Ok? && newId in l.data && l.data[newId] == r.outcome.data
  {
  }

  /** updateTweet. The checks run in this order: a well-formed id (400),
      a non-empty content (400), an existing tweet (400), the requester as
      owner (401). Only the content changes, to the value sent, untrimmed. */
  function UpdateTweet(s: Store, requester: Id, tweetId: Id, content: Option<string>): (r: Reply<Tweet>)
    ensures !ValidId(tweetId) ==> r == Reply(Err(400, InvalidId), s)
    ensures ValidId(tweetId) && !Truthy(content) ==> r == Reply(Err(400, MissingField), s)
    ensures ValidId(tweetId) && Truthy(content) && tweetId !in s.tweets ==> r == Reply(Err(400, NotFound), s)
    ensures ValidId(tweetId) && Truthy(content) && tweetId in s.tweets && s.tweets[tweetId].owner != requester ==>
      r == Reply(Err(401, NotAllowed), s)
    ensures r.outcome.Err? ==> r.store == s
    ensures r.outcome.Ok? <==>
      ValidId(tweetId) && Truthy(content) && tweetId in s.tweets && s.tweets[tweetId].owner == requester
    ensures r.outcome.Ok? ==>
      && r.outcome == Ok(202, Tweet(content.value, requester))
      && r.store == s.(tweets := s.tweets[tweetId := r.outcome.data])
  {
    if !ValidId(tweetId) then Reply(Err(400, InvalidId), s)
    else if !Truthy(content) then Reply(Err(400, MissingField), s)
    else match FindById(s.tweets, tweetId)
      case Found(t) =>
        if t.owner != requester then Reply(Err(401, NotAllowed), s)
        else
          var updated := t.(content := content.value);
          Reply(Ok(202, updated), s.(tweets := s.tweets[tweetId := updated]))
      case _ => Reply(Err(400, NotFound), s)
  }

  /** Repeating a tweet update changes nothing more. */
  lemma UpdateTweetIdempotent(s: Store, requester: Id, tweetId: Id, content: Option<string>)
    requires UpdateTweet(s, requester, tweetId, content).outcome.Ok?
    ensures var s1 := UpdateTweet(s, requester, tweetId, content).store;
      UpdateTweet(s1, requester, tweetId, content).store == s1
  {
    var s1 := UpdateTweet(s, requester, tweetId, content).store;
    assert s1.tweets[tweetId := s1.tweets[tweetId]] == s1.tweets;
  }

  /** Unlike createTweet, updateTweet accepts whitespace-only content and
      stores it as sent: the content creation would refuse. */
  lemma UpdateStoresWhitespaceContent(s: Store, requester: Id, tweetId: Id, newId: Id)
    requires ValidId(tweetId) && tweetId in s.tweets && s.tweets[tweetId].owner == requester
    ensures CreateTweet(s, requester, Some(" "), newId).outcome == Err(400, MissingField)
    ensures UpdateTweet(s, requester, tweetId, Some(" ")).outcome == Ok(202, Tweet(" ", requester))
  {
    BlankIffAllSpace(" ");
  }

  /** deleteTweet. There is no id check of its own: an ill-formed id fails
      unclassified at the lookup. Then an existing tweet (400) and the
      requester as owner (401); on success exactly that tweet is removed. */
  function DeleteTweet(s: Store, requester: Id, tweetId: Id): (r: Reply<()>)
    ensures !ValidId(tweetId) ==> r == Reply(Err(ServerError, Unclassified), s)
    ensures ValidId(tweetId) && tweetId !in s.tweets ==> r == Reply(Err(400, NotFound), s)
    ensures ValidId(tweetId) && tweetId in s.tweets && s.tweets[tweetId].owner != requester ==>
      r == Reply(Err(401, NotAllowed), s)
    ensures r.outcome.Err? ==> r.store == s
    ensures r.outcome.Ok? <==> ValidId(tweetId) && tweetId in s.tweets && s.tweets[tweetId].owner == requester
    ensures r.outcome.Ok? ==>
      && r.outcome.status == 200
      && r.store.tweets.Keys == s.tweets.Keys - {tweetId}
      && (forall id :: id in r.store.tweets ==> r.store.tweets[id] == s.tweets[id])
      && r.store == s.(tweets := r.store.tweets)
  {
    match FindById(s.tweets, tweetId)
    case CastFailed => Reply(Err(ServerError, Unclassified), s)
    case Missing => Reply(Err(400, NotFound), s)
    case Found(t) =>
      if t.owner != requester then Reply(Err(401, NotAllowed), s)
      else Reply(Ok(200, ()), s.(tweets := s.tweets - {tweetId}))
  }

  /** Deleting a tweet just created, as its author, restores the store. */
  lemma CreateThenDeleteRestores(s: Store, requester: Id, content: Option<string>, newId: Id)
    requires ValidId(newId)
    requires CreateTweet(s, requester, content, newId).outcome.Ok?
    ensures var s1 := CreateTweet(s, requester, content, newId).store;
      DeleteTweet(s1, requester, newId) == Reply(Ok(200, ()), s)
  {
    var s1 := CreateTweet(s, requester, content, newId).store;
    assert s1.tweets - {newId} == s.tweets;
  }
}
