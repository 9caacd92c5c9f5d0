/** The subscription controller: the subscribe/unsubscribe toggle with its
    guard against subscribing to oneself, and the two listings, by channel
    and by subscriber. */
module Subscriptions {
  import opened Base
  import opened Text
  import opened Store

  /** The `findOne` filter of the toggle. */
  predicate SubscriptionOf(x: Subscription, subscriber: Id, channel: Id) {
    x.subscriber == subscriber && x.channel == channel
  }

  /** Some stored subscription has `subscriber` following `channel`. */
  predicate Subscribed(s: Store, subscriber: Id, channel: Id) {
    exists id :: id in s.subscriptions && SubscriptionOf(s.subscriptions[id], subscriber, channel)
  }

  /** At most one subscription per (subscriber, channel) pair. */
  predicate UniqueSubscriptions(s: Store) {
    forall i, j :: i in s.subscriptions && j in s.subscriptions && s.subscriptions[i] == s.subscriptions[j] ==> i == j
  }

  /** Nobody follows their own channel. */
  predicate NoSelfSubscriptions(s: Store) {
    forall id :: id in s.subscriptions ==> s.subscriptions[id].subscriber != s.subscriptions[id].channel
  }

  /** The (subscriber, channel) pairs the store holds. */
  function Pairs(s: Store): set<Subscription> {
    set id | id in s.subscriptions :: s.subscriptions[id]
  }

  /** What the toggle reports: the subscription it created, or that the
      requester no longer follows the channel. Both are answered with 200. */
  datatype Toggled = NowSubscribed(subscription: Subscription) | NowUnsubscribed

  /** The store half of the toggle, once the guards have passed: a
      subscription of `requester` to `channel` is deleted if there is one,
      otherwise one is created. Which subscription `findOne` returns when
      there are several is left open. */
  ghost function ToggleStored(s: Store, requester: Id, channel: Id, newId: Id): (r: Reply<Toggled>)
    ensures r.outcome.Err? ==> r.store == s
    ensures r.outcome.Ok? ==> r.outcome.status == 200
    ensures Subscribed(s, requester, channel) ==>
      && r.outcome == Ok(200, NowUnsubscribed)
      && exists id :: id in s.subscriptions && SubscriptionOf(s.subscriptions[id], requester, channel)
                      && r.store == s.(subscriptions := s.subscriptions - {id})
    ensures !Subscribed(s, requester, channel) && newId in s.subscriptions ==>
      r == Reply(Err(ServerError, Unclassified), s)
    ensures !Subscribed(s, requester, channel) && newId !in s.subscriptions ==>
      var x := Subscription(requester, channel);
      r == Reply(Ok(200, NowSubscribed(x)), s.(subscriptions := s.subscriptions[newId := x]))
    ensures forall id :: id in s.subscriptions && !SubscriptionOf(s.subscriptions[id], requester, channel) ==>
      id in r.store.subscriptions && r.store.subscriptions[id] == s.subscriptions[id]
    ensures UniqueSubscriptions(s) ==> UniqueSubscriptions(r.store)
    ensures NoSelfSubscriptions(s) && channel != requester ==> NoSelfSubscriptions(r.store)
    ensures UniqueSubscriptions(s) && r.outcome.Ok? ==>
      (Subscribed(r.store, requester, channel) <==> r.outcome.data.NowSubscribed?)
  {
    if Subscribed(s, requester, channel) then
      var id :| id in s.subscriptions && SubscriptionOf(s.subscriptions[id], requester, channel);
      Reply(Ok(200, NowUnsubscribed), s.(subscriptions := s.subscriptions - {id}))
    else
      var x := Subscription(requester, channel);
      match Insert(s.subscriptions, newId, x)
      case None => Reply(Err(ServerError, Unclassified), s)
      case Some(m) => Reply(Ok(200, NowSubscribed(x)), s.(subscriptions := m))
  }

  /** toggleSubscription, for a channel id spelled as the mapper prints
      ids. An ill-formed channel id, then the requester's own id, are
      refused with 400 before the store is read; then the store half of the
      toggle runs. */
  ghost function ToggleSubscription(s: Store, requester: Id, channelId: Id, newId: Id): (r: Reply<Toggled>)
    ensures !ValidId(channelId) ==> r == Reply(Err(400, InvalidId), s)
    ensures ValidId(channelId) && channelId == requester ==> r == Reply(Err(400, SelfSubscription), s)
    ensures r.outcome.Err? ==> r.store == s
    ensures r.outcome.Ok? ==> r.outcome.status == 200
    ensures ValidId(channelId) && channelId != requester && Subscribed(s, requester, channelId) ==>
      && r.outcome == Ok(200, NowUnsubscribed)
      && exists id :: id in s.subscriptions && SubscriptionOf(s.subscriptions[id], requester, channelId)
                      && r.store == s.(subscriptions := s.subscriptions - {id})
    ensures ValidId(channelId) && channelId != requester && !Subscribed(s, requester, channelId) && newId in s.subscriptions ==>
      r == Reply(Err(ServerError, Unclassified), s)
    ensures ValidId(channelId) && channelId != requester && !Subscribed(s, requester, channelId) && newId !in s.subscriptions ==>
      var x := Subscription(requester, channelId);
      r == Reply(Ok(200, NowSubscribed(x)), s.(subscriptions := s.subscriptions[newId := x]))
    ensures forall id :: id in s.subscriptions && !SubscriptionOf(s.subscriptions[id], requester, channelId) ==>
      id in r.store.subscriptions && r.store.subscriptions[id] == s.subscriptions[id]
    ensures UniqueSubscriptions(s) ==> UniqueSubscriptions(r.store)
    ensures NoSelfSubscriptions(s) ==> NoSelfSubscriptions(r.store)
    ensures UniqueSubscriptions(s) && r.outcome.Ok? ==>
      (Subscribed(r.store, requester, channelId) <==> r.outcome.data.NowSubscribed?)
  {
    if !ValidId(channelId) then Reply(Err(400, InvalidId), s)
    else if channelId == requester then Reply(Err(400, SelfSubscription), s)
    else ToggleStored(s, requester, channelId, newId)
  }

  /** The text of an id as the mapper prints it: hex digits in lower case.
      The authenticated user's id is always in this form. */
  function Canonical(id: Id): Id {
    Lower(id)
  }

  /** toggleSubscription as written, for any spelling of the channel id:
      the self guard compares the id as sent with the requester's printed
      id, while the query and the insert cast it, so an upper-case spelling
      of one's own id slips past the guard. */
  ghost function ToggleSubscriptionAsWritten(s: Store, requester: Id, channelId: Id, newId: Id): (r: Reply<Toggled>)
    ensures !ValidId(channelId) ==> r == Reply(Err(400, InvalidId), s)
    ensures ValidId(channelId) && channelId == requester ==> r == Reply(Err(400, SelfSubscription), s)
    ensures ValidId(channelId) && channelId != requester ==> r == ToggleStored(s, requester, Canonical(channelId), newId)
  {
    if !ValidId(channelId) then Reply(Err(400, InvalidId), s)
    else if channelId == requester then Reply(Err(400, SelfSubscription), s)
    else ToggleStored(s, requester, Canonical(channelId), newId)
  }

  /** toggleSubscription as evidently intended: the guard compares the
      channel id in the form the store keeps it. It never creates a
      self-subscription, and for an id already in that form it is the
      toggle the rest of this model uses. */
  ghost function ToggleSubscriptionIntended(s: Store, requester: Id, channelId: Id, newId: Id): (r: Reply<Toggled>)
    ensures !ValidId(channelId) ==> r == Reply(Err(400, InvalidId), s)
    ensures ValidId(channelId) && Canonical(channelId) == requester ==> r == Reply(Err(400, SelfSubscription), s)
    ensures r.outcome.Err? ==> r.store == s
    ensures UniqueSubscriptions(s) ==> UniqueSubscriptions(r.store)
    ensures NoSelfSubscriptions(s) ==> NoSelfSubscriptions(r.store)
    ensures Canonical(channelId) == channelId ==> r == ToggleSubscription(s, requester, channelId, newId)
  {
    if !ValidId(channelId) then Reply(Err(400, InvalidId), s)
    else if Canonical(channelId) == requester then Reply(Err(400, SelfSubscription), s)
    else ToggleStored(s, requester, Canonical(channelId), newId)
  }

  /** Any spelling of one's own id that differs from the printed one but
      casts to it slips past the guard as written, and the toggle stores a
      self-subscription; the intended guard refuses it. */
  lemma OtherSpellingSubscribesToSelf(s: Store, me: Id, spelled: Id, newId: Id)
    requires NoSelfSubscriptions(s) && newId !in s.subscriptions
    requires ValidId(spelled) && spelled != me && Canonical(spelled) == me
    ensures var r := ToggleSubscriptionAsWritten(s, me, spelled, newId);
      && r.outcome == Ok(200, NowSubscribed(Subscription(me, me)))
      && !NoSelfSubscriptions(r.store)
    ensures ToggleSubscriptionIntended(s, me, spelled, newId) == Reply(Err(400, SelfSubscription), s)
  {
    assert !Subscribed(s, me, me);
    var r := ToggleSubscriptionAsWritten(s, me, spelled, newId);
    assert r.store.subscriptions[newId] == Subscription(me, me);
  }

  /** The concrete input: a user whose id is twenty-four `a`s, subscribing
      to the same id spelled with `A`s. */
  lemma UpperCaseSelfSubscription(s: Store, newId: Id)
    requires NoSelfSubscriptions(s) && newId !in s.subscriptions
    ensures var me := "aaaaaaaaaaaaaaaaaaaaaaaa";
      var spelled := "AAAAAAAAAAAAAAAAAAAAAAAA";
      var r := ToggleSubscriptionAsWritten(s, me, spelled, newId);
      && ValidId(spelled) && Canonical(spelled) == me
      && r.outcome == Ok(200, NowSubscribed(Subscription(me, me)))
      && !NoSelfSubscriptions(r.store)
      && ToggleSubscriptionIntended(s, me, spelled, newId) == Reply(Err(400, SelfSubscription), s)
  {
    var me := "aaaaaaaaaaaaaaaaaaaaaaaa";
    var spelled := "AAAAAAAAAAAAAAAAAAAAAAAA";
    assert forall k :: 0 <= k < |spelled| ==> spelled[k] == 'A' && IsHexDigit(spelled[k]);
    assert forall k :: 0 <= k < |me| ==> me[k] == 'a';
    assert Canonical(spelled) == me;
    assert spelled[0] != me[0];
    OtherSpellingSubscribesToSelf(s, me, spelled, newId);
  }

  /** Moving one subscription to a fresh id keeps the set of pairs. */
  lemma MoveKeepsPairs(s: Store, id: Id, newId: Id)
    requires id in s.subscriptions && newId !in s.subscriptions
    ensures var m := (s.subscriptions - {id})[newId := s.subscriptions[id]];
      Pairs(s.(subscriptions := m)) == Pairs(s)
  {
    var m := (s.subscriptions - {id})[newId := s.subscriptions[id]];
    var s2 := s.(subscriptions := m);
    forall x | x in Pairs(s) ensures x in Pairs(s2) {
      var k :| k in s.subscriptions && s.subscriptions[k] == x;
      if k == id {
        assert m[newId] == x;
      } else {
        assert m[k] == x;
      }
    }
    forall x | x in Pairs(s2) ensures x in Pairs(s) {
      var k :| k in m && m[k] == x;
      if k == newId {
        assert s.subscriptions[id] == x;
      } else {
        assert s.subscriptions[k] == x;
      }
    }
  }

  /** The store half of two toggles of one channel restores the set of
      pairs, and the store itself when the pair was absent at first. */
  lemma StoredTwiceRestores(s: Store, requester: Id, channel: Id, id1: Id, id2: Id)
    requires UniqueSubscriptions(s) && id1 !in s.subscriptions && id2 !in s.subscriptions
    ensures var s1 := ToggleStored(s, requester, channel, id1).store;
      var s2 := ToggleStored(s1, requester, channel, id2).store;
      && Pairs(s2) == Pairs(s)
      && (!Subscribed(s, requester, channel) ==> s2 == s)
  {
    var s1 := ToggleStored(s, requester, channel, id1).store;
    var s2 := ToggleStored(s1, requester, channel, id2).store;
    var pair := Subscription(requester, channel);
    if Subscribed(s, requester, channel) {
      var id :| id in s.subscriptions && SubscriptionOf(s.subscriptions[id], requester, channel)
                && s1 == s.(subscriptions := s.subscriptions - {id});
      assert s.subscriptions[id] == pair;
      assert !Subscribed(s1, requester, channel);
      assert s2 == s.(subscriptions := (s.subscriptions - {id})[id2 := s.subscriptions[id]]);
      MoveKeepsPairs(s, id, id2);
    } else {
      assert s1.subscriptions == s.subscriptions[id1 := pair];
      assert Subscribed(s1, requester, channel) by {
        assert SubscriptionOf(s1.subscriptions[id1], requester, channel);
      }
      var id :| id in s1.subscriptions && SubscriptionOf(s1.subscriptions[id], requester, channel)
                && s2 == s1.(subscriptions := s1.subscriptions - {id});
      assert id == id1;
      assert s1.subscriptions - {id1} == s.subscriptions;
    }
  }

  /** Toggling the same channel twice restores the set of subscription
      pairs; when the requester did not follow the channel at first, it
      restores the store itself. */
  lemma ToggleTwiceRestores(s: Store, requester: Id, channelId: Id, id1: Id, id2: Id)
    requires ValidId(channelId) && channelId != requester && UniqueSubscriptions(s)
    requires id1 !in s.subscriptions && id2 !in s.subscriptions
    ensures var s1 := ToggleSubscription(s, requester, channelId, id1).store;
      var s2 := ToggleSubscription(s1, requester, channelId, id2).store;
      && Pairs(s2) == Pairs(s)
      && (!Subscribed(s, requester, channelId) ==> s2 == s)
  {
    var s1 := ToggleStored(s, requester, channelId, id1).store;
    assert s1 == ToggleSubscription(s, requester, channelId, id1).store;
    assert ToggleStored(s1, requester, channelId, id2).store == ToggleSubscription(s1, requester, channelId, id2).store;
    StoredTwiceRestores(s, requester, channelId, id1, id2);
  }

  /** The listing both handlers share: a well-formed id (400), an existing
      user (the handler reads the `_id` of the user found, so an unknown id
      fails unclassified), then the subscriptions `keep` selects. */
  function ListFor(s: Store, userId: Id, keep: Subscription -> bool): (r: Outcome<map<Id, Subscription>>)
    ensures !ValidId(userId) ==> r == Err(400, InvalidId)
    ensures ValidId(userId) && userId !in s.users ==> r == Err(ServerError, Unclassified)
    ensures r.Ok? <==> ValidId(userId) && userId in s.users
    ensures r.Ok? ==> r.status == 200
    ensures r.Ok? ==> forall id :: id in r.data <==> id in s.subscriptions && keep(s.subscriptions[id])
    ensures r.Ok? ==> forall id :: id in r.data ==> r.data[id] == s.subscriptions[id]
  {
    if !ValidId(userId) then Err(400, InvalidId)
    else match FindById(s.users, userId)
      case Found(_) => Ok(200, Select(s.subscriptions, keep))
      case _ => Err(ServerError, Unclassified)
  }

  /** getUserChannelSubscribers: the subscriptions whose channel is the
      given user (the route parameter is named `subscriberId`). */
  function GetUserChannelSubscribers(s: Store, subscriberId: Id): (r: Outcome<map<Id, Subscription>>)
    ensures r.Ok? <==> ValidId(subscriberId) && subscriberId in s.users
    ensures !ValidId(subscriberId) ==> r == Err(400, InvalidId)
    ensures ValidId(subscriberId) && subscriberId !in s.users ==> r == Err(ServerError, Unclassified)
    ensures r.Ok? ==> r.status == 200
    ensures r.Ok? ==> forall id :: id in r.data <==> id in s.subscriptions && s.subscriptions[id].channel == subscriberId
    ensures r.Ok? ==> forall id :: id in r.data ==> r.data[id] == s.subscriptions[id]
  {
    ListFor(s, subscriberId, (x: Subscription) => x.channel == subscriberId)
  }

  /** getSubscribedChannels: the subscriptions whose subscriber is the given
      user (the route parameter is named `channelId`). */
  function GetSubscribedChannels(s: Store, channelId: Id): (r: Outcome<map<Id, Subscription>>)
    ensures r.Ok? <==> ValidId(channelId) && channelId in s.users
    ensures !ValidId(channelId) ==> r == Err(400, InvalidId)
    ensures ValidId(channelId) && channelId !in s.users ==> r == Err(ServerError, Unclassified)
    ensures r.Ok? ==> r.status == 200
    ensures r.Ok? ==> forall id :: id in r.data <==> id in s.subscriptions && s.subscriptions[id].subscriber == channelId
    ensures r.Ok? ==> forall id :: id in r.data ==> r.data[id] == s.subscriptions[id]
  {
    ListFor(s, channelId, (x: Subscription) => x.subscriber == channelId)
  }

  /** A subscription is listed among its channel's subscribers exactly
      when it is listed among its subscriber's channels, when both are
      known users. */
  lemma ListingsAgree(s: Store, id: Id)
    requires id in s.subscriptions
    requires var x := s.subscriptions[id];
      ValidId(x.subscriber) && x.subscriber in s.users && ValidId(x.channel) && x.channel in s.users
    ensures var x := s.subscriptions[id];
      && GetUserChannelSubscribers(s, x.channel).Ok?
      && GetSubscribedChannels(s, x.subscriber).Ok?
      && id in GetUserChannelSubscribers(s, x.channel).data
      && id in GetSubscribedChannels(s, x.subscriber).data
  {
  }

  /** After a subscribe, the new subscription is listed among the channel's
      subscribers and among the requester's channels; after an unsubscribe,
      with unique subscriptions, the requester is in neither listing. */
  lemma ToggleUpdatesListings(s: Store, requester: Id, channelId: Id, newId: Id)
    requires ValidId(requester) && requester in s.users && channelId in s.users
    requires UniqueSubscriptions(s)
    ensures var r := ToggleSubscription(s, requester, channelId, newId);
      var bySubscriber := GetSubscribedChannels(r.store, requester);
      var byChannel := GetUserChannelSubscribers(r.store, channelId);
      r.outcome.Ok? ==>
        && bySubscriber.Ok? && byChannel.Ok?
        && (r.outcome.data.NowSubscribed? ==> newId in bySubscriber.data && newId in byChannel.data)
        && (r.outcome.data.NowUnsubscribed? ==>
              (forall id :: id in bySubscriber.data ==> bySubscriber.data[id].channel != channelId)
              && (forall id :: id in byChannel.data ==> byChannel.data[id].subscriber != requester))
  {
    var r := ToggleSubscription(s, requester, channelId, newId);
    if r.outcome.Ok? && r.outcome.data.NowUnsubscribed? {
      assert !Subscribed(r.store, requester, channelId);
    }
  }
}
