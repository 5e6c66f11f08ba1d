/**
 What the event broker promises, as a state machine over its atomic (mutex-protected) calls.

 Subscriptions are numbered in the order they were handed out and are remembered after they are
 closed, because a reader may still drain a closed channel.  `published` records every event the
 chat service asked to publish; `since` is its length when the subscription began, and `read`
 is what the reader has taken out of the channel so far.
 */
module BrokerModel {

  const SUBSCRIPTION_BUFFER_SIZE := 16

  datatype Event = Event(conversationID: int, messageID: int, sellerID: int, buyerID: int)

  datatype Subscription = Subscription(
    userID: int, since: nat, open: bool, buffer: seq<Event>, read: seq<Event>)

  datatype State = State(closed: bool, published: seq<Event>, subscriptions: seq<Subscription>)

  const EMPTY := State(false, [], [])

  predicate IsAddressed(e: Event, userID: int) { e.sellerID == userID || e.buyerID == userID }

  // ---- The calls -------------------------------------------------------------------------------

  function Subscribe(st: State, userID: int): State {
    if st.closed then st
    else st.(subscriptions := st.subscriptions + [Subscription(userID, |st.published|, true, [], [])])
  }

  /** The non-blocking send: a full channel is closed instead. */
  function Offer(s: Subscription, e: Event): Subscription {
    if !s.open || !IsAddressed(e, s.userID) then s
    else if |s.buffer| < SUBSCRIPTION_BUFFER_SIZE then s.(buffer := s.buffer + [e])
    else s.(open := false)
  }

  function Publish(st: State, e: Event): State {
    State(st.closed, st.published + [e],
          if st.closed then st.subscriptions
          else seq(|st.subscriptions|, i requires 0 <= i < |st.subscriptions| => Offer(st.subscriptions[i], e)))
  }

  function Unsubscribe(st: State, i: nat): State {
    if i < |st.subscriptions| then
      st.(subscriptions := st.subscriptions[i := st.subscriptions[i].(open := false)])
    else st
  }

  function Take(s: Subscription): Subscription {
    if s.buffer == [] then s else s.(buffer := s.buffer[1..], read := s.read + [s.buffer[0]])
  }

  /** The stream handler receives one event, if there is one. */
  function Receive(st: State, i: nat): State {
    if i < |st.subscriptions| then
      st.(subscriptions := st.subscriptions[i := Take(st.subscriptions[i])])
    else st
  }

  function Close(st: State): State {
    if st.closed then st
    else State(true, st.published,
      seq(|st.subscriptions|, i requires 0 <= i < |st.subscriptions| => st.subscriptions[i].(open := false)))
  }

  // ---- Runs ------------------------------------------------------------------------------------

  datatype Call =
    | SubscribeCall(userID: int)
    | PublishCall(event: Event)
    | UnsubscribeCall(index: nat)
    | ReceiveCall(index: nat)
    | CloseCall

  function Apply(st: State, c: Call): State {
    match c
    case SubscribeCall(userID) => Subscribe(st, userID)
    case PublishCall(e) => Publish(st, e)
    case UnsubscribeCall(i) => Unsubscribe(st, i)
    case ReceiveCall(i) => Receive(st, i)
    case CloseCall => Close(st)
  }

  function Run(st: State, calls: seq<Call>): State
    decreases |calls|
  {
    if calls == [] then st else Run(Apply(st, calls[0]), calls[1..])
  }

  // ---- Delivery --------------------------------------------------------------------------------

  /** The events of a log addressed to a user, in publish order. */
  function AddressedTo(log: seq<Event>, userID: int): seq<Event> {
    if log == [] then []
    else
      var before := AddressedTo(log[..|log| - 1], userID);
      if IsAddressed(log[|log| - 1], userID) then before + [log[|log| - 1]] else before
  }

  function Delivered(s: Subscription): seq<Event> { s.read + s.buffer }

  /** What was read plus what is buffered is a prefix of what was due, and all of it while open. */
  predicate DeliversInOrder(s: Subscription, published: seq<Event>) {
    && s.since <= |published|
    && |s.buffer| <= SUBSCRIPTION_BUFFER_SIZE
    && Delivered(s) <= AddressedTo(published[s.since..], s.userID)
    && (s.open ==> Delivered(s) == AddressedTo(published[s.since..], s.userID))
  }

  ghost predicate Sound(st: State) {
    && (forall i | 0 <= i < |st.subscriptions| :: DeliversInOrder(st.subscriptions[i], st.published))
    && (st.closed ==> forall i | 0 <= i < |st.subscriptions| :: !st.subscriptions[i].open)
  }

  lemma AddressedToAppend(log: seq<Event>, e: Event, userID: int)
    ensures AddressedTo(log + [e], userID)
      == AddressedTo(log, userID) + (if IsAddressed(e, userID) then [e] else [])
  {
    assert (log + [e])[..|log|] == log;
  }

  lemma OfferDelivers(s: Subscription, published: seq<Event>, e: Event, closed: bool)
    requires DeliversInOrder(s, published) && (closed ==> !s.open)
    ensures DeliversInOrder(if closed then s else Offer(s, e), published + [e])
  {
    assert (published + [e])[s.since..] == published[s.since..] + [e];
    AddressedToAppend(published[s.since..], e, s.userID);
    assert s.read + (s.buffer + [e]) == (s.read + s.buffer) + [e];
  }

  lemma TakeDelivers(s: Subscription, published: seq<Event>)
    requires DeliversInOrder(s, published)
    ensures DeliversInOrder(Take(s), published) && Delivered(Take(s)) == Delivered(s)
  {
    if s.buffer != [] {
      assert s.read + [s.buffer[0]] + s.buffer[1..] == s.read + s.buffer;
    }
  }

  lemma CallKeepsSound(st: State, c: Call)
    requires Sound(st)
    ensures Sound(Apply(st, c))
  {
    var next := Apply(st, c);
    forall i | 0 <= i < |next.subscriptions| ensures DeliversInOrder(next.subscriptions[i], next.published) {
      if i < |st.subscriptions| {
        var s := st.subscriptions[i];
        if c.PublishCall? { OfferDelivers(s, st.published, c.event, st.closed); }
        if c.ReceiveCall? { TakeDelivers(s, st.published); }
      } else {
        assert st.published[|st.published|..] == [];
      }
    }
  }

  /**
   In every sequence of subscribe, publish, receive, unsubscribe and close calls, each
   subscription has been given a contiguous prefix, in publish order, of the events addressed to
   its user since it subscribed, each once, even when seller and buyer are the same user; and
   the whole of them as long as it is open.
   */
  lemma {:induction false} EveryRunDeliversInOrder(st: State, calls: seq<Call>)
    requires Sound(st)
    ensures Sound(Run(st, calls))
    decreases |calls|
  {
    if calls == [] {
    } else {
      CallKeepsSound(st, calls[0]);
      EveryRunDeliversInOrder(Apply(st, calls[0]), calls[1..]);
    }
  }

  /** A closed channel is never reopened and never given another event, whatever is called. */
  lemma {:induction false} ClosedStaysFrozen(st: State, calls: seq<Call>, i: nat)
    requires i < |st.subscriptions| && !st.subscriptions[i].open
    ensures var s, t := st.subscriptions[i], Run(st, calls).subscriptions;
      i < |t| && !t[i].open && t[i].userID == s.userID && Delivered(t[i]) == Delivered(s)
    decreases |calls|
  {
    if calls == [] {
    } else {
      var s := st.subscriptions[i];
      if s.buffer != [] {
        assert s.read + [s.buffer[0]] + s.buffer[1..] == s.read + s.buffer;
      }
      ClosedStaysFrozen(Apply(st, calls[0]), calls[1..], i);
    }
  }

  /** What can end an open subscription: its own unsubscribe, closing the broker, or overflow. */
  predicate Ends(st: State, c: Call, i: nat)
    requires i < |st.subscriptions|
  {
    || c == UnsubscribeCall(i)
    || c.CloseCall?
    || (c.PublishCall? && IsAddressed(c.event, st.subscriptions[i].userID)
        && |st.subscriptions[i].buffer| == SUBSCRIPTION_BUFFER_SIZE)
  }

  ghost predicate EverEnds(st: State, calls: seq<Call>, i: nat)
    requires i < |st.subscriptions|
    decreases |calls|
  {
    calls != [] && (
      Ends(st, calls[0], i)
      || (i < |Apply(st, calls[0]).subscriptions| && EverEnds(Apply(st, calls[0]), calls[1..], i)))
  }

  /** Over any run an open subscription is lost exactly when one of the three things happened. */
  lemma {:induction false} LostExactlyWhenEnded(st: State, calls: seq<Call>, i: nat)
    requires Sound(st) && i < |st.subscriptions| && st.subscriptions[i].open
    ensures i < |Run(st, calls).subscriptions|
    ensures Run(st, calls).subscriptions[i].open <==> !EverEnds(st, calls, i)
    decreases |calls|
  {
    if calls == [] {
    } else {
      CallKeepsSound(st, calls[0]);
      var next := Apply(st, calls[0]);
      if next.subscriptions[i].open {
        LostExactlyWhenEnded(next, calls[1..], i);
      } else {
        ClosedStaysFrozen(next, calls[1..], i);
      }
    }
  }

  /** Once closed, a broker hands out nothing and delivers nothing, and no channel is open. */
  lemma {:induction false} ClosedBrokerStaysClosed(st: State, calls: seq<Call>)
    requires Sound(st) && st.closed
    ensures var t := Run(st, calls);
      && t.closed && |t.subscriptions| == |st.subscriptions|
      && forall i | 0 <= i < |t.subscriptions| ::
           !t.subscriptions[i].open && Delivered(t.subscriptions[i]) == Delivered(st.subscriptions[i])
    decreases |calls|
  {
    if calls == [] {
    } else {
      CallKeepsSound(st, calls[0]);
      var next := Apply(st, calls[0]);
      forall i | 0 <= i < |st.subscriptions|
        ensures Delivered(next.subscriptions[i]) == Delivered(st.subscriptions[i])
      {
        TakeDelivers(st.subscriptions[i], st.published);
      }
      ClosedBrokerStaysClosed(next, calls[1..]);
    }
  }

  // ---- What each call does to a stream ---------------------------------------------------------

  /** A receive takes the oldest waiting event out of the channel and leaves every other stream alone. */
  lemma ReceiveTakesOldest(st: State, i: nat)
    requires i < |st.subscriptions|
    ensures var s, next := st.subscriptions[i], Receive(st, i);
      && next.closed == st.closed && next.published == st.published
      && |next.subscriptions| == |st.subscriptions|
      && (forall k | 0 <= k < |st.subscriptions| && k != i :: next.subscriptions[k] == st.subscriptions[k])
      && next.subscriptions[i].open == s.open && next.subscriptions[i].userID == s.userID
      && next.subscriptions[i].since == s.since
      && (s.buffer == [] ==> next.subscriptions[i].buffer == [] && next.subscriptions[i].read == s.read)
      && (s.buffer != [] ==>
            && next.subscriptions[i].buffer == s.buffer[1..]
            && next.subscriptions[i].read == s.read + [s.buffer[0]])
  {
  }

  /** A publish puts the event last in an addressed open channel with fewer than 16 waiting, closes one with 16. */
  lemma PublishFillsOrCloses(st: State, e: Event, i: nat)
    requires !st.closed && i < |st.subscriptions|
    ensures var s, next := st.subscriptions[i], Publish(st, e).subscriptions;
      && |next| == |st.subscriptions|
      && next[i].userID == s.userID && next[i].since == s.since && next[i].read == s.read
      && if s.open && (e.sellerID == s.userID || e.buyerID == s.userID) then
           if |s.buffer| < 16 then next[i].open && next[i].buffer == s.buffer + [e]
           else !next[i].open && next[i].buffer == s.buffer
         else next[i] == s
  {
  }

  lemma SubscribeAddsOne(st: State, userID: int)
    ensures var next := Subscribe(st, userID);
      && next.closed == st.closed && next.published == st.published
      && (st.closed ==> next.subscriptions == st.subscriptions)
      && (!st.closed ==>
            && |next.subscriptions| == |st.subscriptions| + 1
            && next.subscriptions[..|st.subscriptions|] == st.subscriptions
            && var s := next.subscriptions[|st.subscriptions|];
            s.userID == userID && s.open && s.buffer == [] && s.read == [])
  {
  }

  /** Unsubscribing closes that channel alone; what waits in it can still be read. */
  lemma UnsubscribeClosesOne(st: State, i: nat, k: nat)
    requires i < |st.subscriptions| && k < |st.subscriptions|
    ensures var next := Unsubscribe(st, i);
      && next.closed == st.closed && next.published == st.published && |next.subscriptions| == |st.subscriptions|
      && next.subscriptions[k].buffer == st.subscriptions[k].buffer
      && next.subscriptions[k].read == st.subscriptions[k].read
      && next.subscriptions[k].open == (st.subscriptions[k].open && k != i)
  {
  }

  /** Closing the broker closes every channel; what waits in them can still be read. */
  lemma CloseClosesAll(st: State, k: nat)
    requires k < |st.subscriptions| && !st.closed
    ensures var next := Close(st);
      && next.closed && next.published == st.published && |next.subscriptions| == |st.subscriptions|
      && next.subscriptions[k].buffer == st.subscriptions[k].buffer
      && next.subscriptions[k].read == st.subscriptions[k].read && !next.subscriptions[k].open
  {
  }

  // ---- What a reader is given ------------------------------------------------------------------

  /** The events the receives of a run return for one stream, in the order they return them. */
  function Returned(st: State, calls: seq<Call>, i: nat): seq<Event>
    decreases |calls|
  {
    if calls == [] then []
    else
      var first :=
        if calls[0] == ReceiveCall(i) && i < |st.subscriptions| && st.subscriptions[i].buffer != [] then
          [st.subscriptions[i].buffer[0]]
        else [];
      first + Returned(Apply(st, calls[0]), calls[1..], i)
  }

  /** What has been read is exactly what the receives returned. */
  lemma {:induction false} ReadIsReturned(st: State, calls: seq<Call>, i: nat)
    requires i < |st.subscriptions|
    ensures var end := Run(st, calls);
      && i < |end.subscriptions| && end.subscriptions[i].userID == st.subscriptions[i].userID
      && end.subscriptions[i].since == st.subscriptions[i].since
      && end.subscriptions[i].read == st.subscriptions[i].read + Returned(st, calls, i)
    decreases |calls|
  {
    if calls == [] {
    } else {
      var next := Apply(st, calls[0]);
      CallReadsHead(st, calls[0], i);
      ReadIsReturned(next, calls[1..], i);
    }
  }

  lemma CallReadsHead(st: State, c: Call, i: nat)
    requires i < |st.subscriptions|
    ensures var s, next := st.subscriptions[i], Apply(st, c).subscriptions;
      && i < |next| && next[i].userID == s.userID && next[i].since == s.since
      && next[i].read == s.read + if c == ReceiveCall(i) && s.buffer != [] then [s.buffer[0]] else []
  {
  }

  /**
   Over any run after a subscribe, the events the receives returned are exactly the first so many of the
   events addressed to the user since then: none repeated, none skipped, none out of order.  While the
   stream is open, what they have not returned yet is what waits in the channel.
   */
  lemma ReceivesReturnWhatWasAddressed(st: State, userID: int, calls: seq<Call>)
    requires Sound(st) && !st.closed
    ensures var i, begun := |st.subscriptions|, Subscribe(st, userID);
      var end, got := Run(begun, calls), Returned(begun, calls, i);
      && i < |end.subscriptions| && |st.published| <= |end.published|
      && var due := AddressedTo(end.published[|st.published|..], userID);
      && |got| <= |due| && got == due[..|got|]
      && got + end.subscriptions[i].buffer <= due
      && (end.subscriptions[i].open ==> got + end.subscriptions[i].buffer == due)
  {
    var i, begun := |st.subscriptions|, Subscribe(st, userID);
    hide Run, AddressedTo, Returned, DeliversInOrder;
    CallKeepsSound(st, SubscribeCall(userID));
    EveryRunDeliversInOrder(begun, calls);
    ReadIsReturned(begun, calls, i);
    SoundDelivers(Run(begun, calls), i);
  }

  lemma SoundDelivers(st: State, i: nat)
    requires Sound(st) && i < |st.subscriptions|
    ensures var s := st.subscriptions[i];
      && s.since <= |st.published|
      && s.read + s.buffer <= AddressedTo(st.published[s.since..], s.userID)
      && (s.open ==> s.read + s.buffer == AddressedTo(st.published[s.since..], s.userID))
  {
    assert DeliversInOrder(st.subscriptions[i], st.published);
  }
}
