/** The process-local event broker: a mutex-protected map of sets of subscribers. */
module Sse {
  import opened Wrappers
  import opened BrokerModel

  /** One browser stream: its owner and its channel of 16 events. */
  class Subscriber {
    const userID: int
    var open: bool
    var buffer: seq<Event>
    ghost const since: nat
    ghost var read: seq<Event>

    ghost function View(): Subscription
      reads this
    {
      Subscription(userID, since, open, buffer, read)
    }

    constructor (userID: int, ghost since: nat)
      ensures View() == Subscription(userID, since, true, [], [])
    {
      this.userID := userID;
      this.since := since;
      open := true;
      buffer := [];
      read := [];
    }

    /** `select { case events <- event: default: }`; sending on a closed channel would panic. */
    method TrySend(e: Event) returns (sent: bool)
      requires open
      modifies this`buffer
      ensures sent == (old(|buffer|) < SUBSCRIPTION_BUFFER_SIZE)
      ensures buffer == if sent then old(buffer) + [e] else old(buffer)
    {
      sent := |buffer| < SUBSCRIPTION_BUFFER_SIZE;
      if sent {
        buffer := buffer + [e];
      }
    }

    /** `close(events)`; closing a closed channel would panic. */
    method CloseChannel()
      requires open
      modifies this`open
      ensures !open
    {
      open := false;
    }

    /** `<-events`: a closed channel is drained first; None is "nothing to receive". */
    method Receive() returns (event: Option<Event>)
      modifies this`buffer, this`read
      ensures View() == Take(old(View()))
      ensures if old(buffer) == [] then buffer == [] && read == old(read)
              else buffer == old(buffer)[1..] && read == old(read) + [old(buffer)[0]]
      ensures event == if old(buffer) == [] then None else Some(old(buffer)[0])
    {
      if buffer == [] {
        return None;
      }
      event := Some(buffer[0]);
      read := read + [buffer[0]];
      buffer := buffer[1..];
    }
  }

  class Broker {
    var closed: bool
    var subscribers: map<int, set<Subscriber>>
    /** Every subscription handed out so far, and every event offered for publication. */
    ghost var issued: seq<Subscriber>
    ghost var published: seq<Event>

    /** A channel is open exactly while it is registered; no empty inner set stays behind. */
    ghost predicate Valid()
      reads this, issued
    {
      && (forall i, j | 0 <= i < j < |issued| :: issued[i] != issued[j])
      && (forall u | u in subscribers :: subscribers[u] != {})
      && (forall u, s | u in subscribers && s in subscribers[u] :: s in issued && s.userID == u && s.open)
      && (forall s | s in issued && s.open :: s.userID in subscribers && s in subscribers[s.userID])
      && (forall s | s in issued :: |s.buffer| <= SUBSCRIPTION_BUFFER_SIZE)
      && (closed ==> subscribers == map[])
    }

    ghost function View(): State
      reads this, issued
    {
      State(closed, published, seq(|issued|, i requires 0 <= i < |issued| reads this, issued => issued[i].View()))
    }

    ghost predicate Registered(s: Subscriber)
      reads this
    {
      exists u :: u in subscribers && s in subscribers[u]
    }

    /**
     The registry is determined by the channels: a stream is registered exactly while its channel
     is open, and a user has an entry exactly while one of the user's channels is open.
     */
    lemma RegistryMatchesChannels()
      requires Valid()
      ensures forall s | s in issued :: s.open <==> Registered(s)
      ensures forall u :: u in subscribers <==> exists s :: s in issued && s.open && s.userID == u
      ensures forall u | u in subscribers ::
        forall s :: s in subscribers[u] <==> s in issued && s.open && s.userID == u
    {
      forall u | u in subscribers ensures exists s :: s in issued && s.open && s.userID == u {
        var s :| s in subscribers[u];
        assert s in issued && s.open && s.userID == u;
      }
    }

    constructor ()
      ensures Valid() && View() == EMPTY
    {
      closed := false;
      subscribers := map[];
      issued := [];
      published := [];
    }

    method Subscribe(userID: int) returns (subscription: Option<Subscriber>)
      requires Valid()
      modifies this`subscribers, this`issued
      ensures Valid() && View() == BrokerModel.Subscribe(old(View()), userID)
      ensures subscription.None? <==> closed
      ensures subscription.Some? ==>
        fresh(subscription.value) && issued == old(issued) + [subscription.value]
    {
      if closed {
        return None;
      }
      var s := new Subscriber(userID, |published|);
      if userID !in subscribers {
        subscribers := subscribers[userID := {}];
      }
      subscribers := subscribers[userID := subscribers[userID] + {s}];
      issued := issued + [s];
      subscription := Some(s);
    }

    /** Delivers to both participants, once to a user who is both. */
    method PublishMessageCreated(event: Event)
      requires Valid()
      modifies this`subscribers, this`published, issued
      ensures Valid() && issued == old(issued)
      ensures View() == Publish(old(View()), event)
    {
      published := published + [event];
      if closed {
        return;
      }
      PublishToUserLocked(event.sellerID, event);
      if event.buyerID != event.sellerID {
        PublishToUserLocked(event.buyerID, event);
      }
    }

    method PublishToUserLocked(userID: int, event: Event)
      requires Valid() && IsAddressed(event, userID)
      modifies this`subscribers, issued
      ensures Valid()
      ensures forall s | s in issued ::
        s.View() == if s.userID == userID then Offer(old(s.View()), event) else old(s.View())
    {
      if userID !in subscribers {
        return;
      }
      // The Go map may be deleted from while it is ranged over; each entry is still met once.
      var pending := subscribers[userID];
      while pending != {}
        invariant Valid()
        invariant pending != {} ==> userID in subscribers && pending <= subscribers[userID]
        invariant forall s | s in issued ::
          s.View() == (if s.userID == userID && s !in pending then Offer(old(s.View()), event) else old(s.View()))
      {
        var subscription :| subscription in pending;
        pending := pending - {subscription};
        assert subscription in issued && subscription.open && subscription.userID == userID;
        OfferLocked(subscription, event);
        assert forall s | s in pending :: s in issued && s.open;
      }
    }

    /** The select statement of the loop: send without blocking, or give the stream up. */
    method OfferLocked(subscription: Subscriber, event: Event)
      requires Valid() && subscription in issued && subscription.open
      requires IsAddressed(event, subscription.userID)
      modifies this`subscribers, subscription
      ensures Valid() && subscription.View() == Offer(old(subscription.View()), event)
    {
      var sent := subscription.TrySend(event);
      if !sent {
        var _ := CloseSubscriptionLocked(subscription);
      }
    }

    /** The stream handler takes one event from the channel it was handed; the registry is not involved. */
    method Receive(subscription: Subscriber) returns (event: Option<Event>)
      requires Valid() && subscription in issued
      modifies subscription`buffer, subscription`read
      ensures Valid()
      ensures event == if old(subscription.buffer) == [] then None else Some(old(subscription.buffer)[0])
      ensures old(subscription.buffer) != [] ==>
        && subscription.buffer == old(subscription.buffer)[1..]
        && subscription.read == old(subscription.read) + [old(subscription.buffer)[0]]
      ensures forall i | 0 <= i < |issued| && issued[i] == subscription ::
        View() == BrokerModel.Receive(old(View()), i)
    {
      event := subscription.Receive();
    }

    method Unsubscribe(subscription: Subscriber)
      requires Valid() && subscription in issued
      modifies this`subscribers, subscription`open
      ensures Valid() && !subscription.open
      ensures forall i | 0 <= i < |issued| && issued[i] == subscription ::
        View() == BrokerModel.Unsubscribe(old(View()), i)
    {
      var _ := CloseSubscriptionLocked(subscription);
    }

    method CloseSubscriptionLocked(subscription: Subscriber) returns (removed: bool)
      requires Valid() && subscription in issued
      modifies this`subscribers, subscription`open
      ensures Valid() && !subscription.open
      ensures removed == old(subscription.open)
    {
      if subscription.userID !in subscribers {
        return false;
      }
      if subscription !in subscribers[subscription.userID] {
        return false;
      }
      var rest := subscribers[subscription.userID] - {subscription};
      assert forall s | s in issued && s.open && s.userID == subscription.userID :: s == subscription || s in rest;
      subscribers := subscribers[subscription.userID := rest];
      if rest == {} {
        subscribers := subscribers - {subscription.userID};
      }
      assert forall u | u != subscription.userID :: u in subscribers <==> u in old(subscribers);
      assert forall u | u in subscribers :: subscribers[u] == old(subscribers)[u] - {subscription};
      subscription.CloseChannel();
      return true;
    }

    method Close()
      requires Valid()
      modifies this`closed, this`subscribers, issued
      ensures Valid() && closed && subscribers == map[] && issued == old(issued)
      ensures View() == BrokerModel.Close(old(View()))
    {
      if closed {
        return;
      }
      closed := true;
      var users := subscribers.Keys;
      while exists u :: u in users
        invariant closed && subscribers == old(subscribers) && users <= old(subscribers).Keys
        invariant forall s | s in issued :: s.View() == old(s.View()).(open := old(s.open) && s.userID in users)
        decreases users
      {
        var u :| u in users;
        users := users - {u};
        var streams := subscribers[u];
        while streams != {}
          invariant closed && subscribers == old(subscribers) && streams <= subscribers[u]
          invariant forall s | s in issued ::
            s.View() == old(s.View()).(open := old(s.open) && (s.userID in users || s in streams))
          decreases |streams|
        {
          var s :| s in streams;
          streams := streams - {s};
          s.CloseChannel();
        }
      }
      subscribers := map[];
    }
  }
}
