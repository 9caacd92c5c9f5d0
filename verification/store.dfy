/** The document store the controllers read and write, as an immutable
    value: one map from id to record per collection. Also the outcome of a
    request (a status code with data, or a status code with an error kind)
    and the lookups every handler shares. */
module Store {
  import opened Base
  import opened Text
  import opened Sequences

  /** A user, as far as the controllers touch one: the videos it watched. */
  datatype User = User(watchHistory: seq<Id>)

  datatype Video = Video(
    title: string,
    description: string,
    videoFile: string,
    thumbnail: string,
    duration: real,
    views: nat,
    isPublished: bool,
    owner: Id)

  /** What a comment is attached to: a video or a tweet, never both. */
  datatype Target = OnVideo(video: Id) | OnTweet(tweet: Id)

  datatype Comment = Comment(content: string, target: Target, owner: Id)

  datatype Tweet = Tweet(content: string, owner: Id)

  datatype Playlist = Playlist(name: string, description: string, videos: seq<Id>, owner: Id)

  /** What a like points at: exactly one video, comment or tweet. */
  datatype LikeTarget = LikedVideo(id: Id) | LikedComment(id: Id) | LikedTweet(id: Id)

  datatype Like = Like(likedBy: Id, target: LikeTarget)

  datatype Subscription = Subscription(subscriber: Id, channel: Id)

  datatype Store = Store(
    users: map<Id, User>,
    videos: map<Id, Video>,
    comments: map<Id, Comment>,
    tweets: map<Id, Tweet>,
    playlists: map<Id, Playlist>,
    likes: map<Id, Like>,
    subscriptions: map<Id, Subscription>)

  /** Why a request was refused. `Unclassified` covers what escapes the
      handler's own checks: a runtime type error, an id the store cannot
      cast, a duplicate id on insert, a pagination stage the store refuses. */
  datatype ErrorKind =
    | InvalidId
    | MissingField
    | NotFound
    | NotAllowed
    | NothingToUpdate
    | AlreadyExists
    | SelfSubscription
    | UploadFailed
    | Unclassified

  /** The status code of an unclassified failure, as the error wrapper
      reports it. */
  const ServerError := 500

  datatype Outcome<T> = Ok(status: int, data: T) | Err(status: int, kind: ErrorKind)

  /** The outcome of a request together with the store after it. */
  datatype Reply<T> = Reply(outcome: Outcome<T>, store: Store)

  /** The result of `findById`: the store refuses an id it cannot cast,
      otherwise it answers with the record or with nothing. */
  datatype Lookup<T> = CastFailed | Missing | Found(doc: T)

  function FindById<T>(m: map<Id, T>, id: Id): (r: Lookup<T>)
    ensures r.CastFailed? <==> !ValidId(id)
    ensures r.Found? <==> ValidId(id) && id in m
    ensures r.Found? ==> r.doc == m[id]
  {
    if !ValidId(id) then CastFailed
    else if id in m then Found(m[id])
    else Missing
  }

  /** `create`: inserts under a fresh id; an id already taken is refused by
      the unique index on `_id`. */
  function Insert<T>(m: map<Id, T>, id: Id, doc: T): (r: Option<map<Id, T>>)
    ensures r.Some? <==> id !in m
    ensures r.Some? ==> r.value.Keys == m.Keys + {id} && r.value[id] == doc
    ensures r.Some? ==> forall k :: k in m ==> r.value[k] == m[k]
  {
    if id in m then None else Some(m[id := doc])
  }

  /** The ids of a listing, in order. */
  function Ids<T>(r: seq<(Id, T)>): seq<Id> {
    if r == [] then [] else [r[0].0] + Ids(r[1..])
  }

  /** Whether a `$match` on `keep` lets the record stored under an id
      through. */
  function Passes<T>(m: map<Id, T>, keep: T -> bool): Id -> bool {
    id => id in m && keep(m[id])
  }

  /** The records of `m` that satisfy `keep`, in the order `order` lists
      their ids: what a `$match` stage yields when the collection is read
      in that order. */
  function Listing<T>(m: map<Id, T>, order: seq<Id>, keep: T -> bool): (r: seq<(Id, T)>)
    ensures Ids(r) == Filter(order, Passes(m, keep))
    ensures forall k :: 0 <= k < |r| ==> r[k].0 in m && r[k].1 == m[r[k].0] && keep(r[k].1)
    ensures forall id :: id in order && id in m && keep(m[id]) ==> (id, m[id]) in r
  {
    if order == [] then []
    else
      var rest := Listing(m, order[1..], keep);
      var passes := Passes(m, keep);
      assert Filter(order, passes) == (if passes(order[0]) then [order[0]] else []) + Filter(order[1..], passes);
      if order[0] in m && keep(m[order[0]]) then
        var r := [(order[0], m[order[0]])] + rest;
        assert r[1..] == rest;
        assert forall id :: id in order && id in m && keep(m[id]) ==> id == order[0] || id in order[1..];
        r
      else
        assert Filter(order, passes) == Filter(order[1..], passes);
        assert forall id :: id in order && id in m && keep(m[id]) ==> id in order[1..];
        rest
  }

  /** An order in which a read visits every stored record exactly once: no
      id twice, and exactly the stored ids. */
  predicate ReadOrder<T>(order: seq<Id>, m: map<Id, T>) {
    NoDuplicates(order) && (forall id :: id in m ==> id in order) && (forall id :: id in order ==> id in m)
  }

  /** Read in such an order, a `$match` yields every record that satisfies
      its filter, and each only once. */
  lemma ListingReadsEachRecordOnce<T>(m: map<Id, T>, order: seq<Id>, keep: T -> bool)
    requires ReadOrder(order, m)
    ensures NoDuplicates(Ids(Listing(m, order, keep)))
    ensures forall id :: id in m && keep(m[id]) ==> (id, m[id]) in Listing(m, order, keep)
  {
    FilterKeepsNoDuplicates(order, Passes(m, keep));
  }

  /** A `$match` keeps the read order: reading the collection as one part
      and then another lists the first part's matches before the second's. */
  lemma ListingKeepsReadOrder<T>(m: map<Id, T>, first: seq<Id>, second: seq<Id>, keep: T -> bool)
    ensures Ids(Listing(m, first + second, keep)) == Ids(Listing(m, first, keep)) + Ids(Listing(m, second, keep))
  {
    FilterAppend(first, second, Passes(m, keep));
  }

  /** The records of `m` that satisfy `keep`, keyed by id: a `$match` whose
      order is not part of its contract. */
  function Select<T>(m: map<Id, T>, keep: T -> bool): (r: map<Id, T>)
    ensures forall id :: id in r <==> id in m && keep(m[id])
    ensures forall id :: id in r ==> r[id] == m[id]
  {
    map id | id in m && keep(m[id]) :: m[id]
  }
}
