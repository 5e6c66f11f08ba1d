/**
 The running system: listings, conversations and event streams changing in any order.  What a
 stream may say, what an open stream cannot miss, and how catch-up reads repair what was lost.
 */
module Realtime {
  import opened Wrappers
  import opened Listings
  import opened ChatModel
  import opened ChatProperties
  import B = BrokerModel

  /** `pending` holds the events of sends that have committed and not yet reached the broker. */
  datatype System = System(table: Table, chat: ChatModel.State, pending: set<B.Event>, broker: B.State)

  datatype Op =
    | ListingOp(write: Write)
    | StartOp(user: User, listingID: int, now: int)
    | SendOp(user: User, conversationID: int, text: string, now: int, fault: Fault)
    | PublishOp(event: B.Event)
    | MarkOp(userID: int, conversationID: int, messageID: int)
    | SubscribeOp(userID: int)
    | UnsubscribeOp(index: nat)
    | ReceiveOp(index: nat)
    | CloseOp

  const INITIAL := System(Table(map[], 1), ChatModel.EMPTY, {}, B.EMPTY)

  function FindListing(t: Table, listingID: int): Option<Listing> {
    if listingID in t.rows then Some(t.rows[listingID]) else None
  }

  /** Only a committed message leaves an event to publish; a failed send leaves none. */
  function AfterSend(s: System, conversationID: int, next: ChatModel.State, sent: Result<Message, ChatError>): System {
    if sent.Success? && conversationID in s.chat.conversations then
      s.(chat := next, pending := s.pending + {EventOf(sent.value, s.chat.conversations[conversationID])})
    else s.(chat := next)
  }

  /** The broker call of a send in flight: sends that overlap may reach the broker in any order. */
  function PublishPending(s: System, e: B.Event): System {
    if e in s.pending then s.(pending := s.pending - {e}, broker := B.Publish(s.broker, e)) else s
  }

  ghost function Step(s: System, op: Op): System {
    match op
    case ListingOp(w) => s.(table := ApplyWrite(s.table, w))
    case StartOp(user, listingID, now) =>
      s.(chat := StartConversation(s.chat, FindListing(s.table, listingID), user, now).0)
    case SendOp(user, conversationID, text, now, fault) =>
      var (next, sent) := SendMessage(s.chat, user, conversationID, text, now, fault);
      AfterSend(s, conversationID, next, sent)
    case PublishOp(e) => PublishPending(s, e)
    case MarkOp(userID, conversationID, messageID) =>
      s.(chat := MarkConversationRead(s.chat, userID, conversationID, messageID).0)
    case SubscribeOp(userID) => s.(broker := B.Subscribe(s.broker, userID))
    case UnsubscribeOp(i) => s.(broker := B.Unsubscribe(s.broker, i))
    case ReceiveOp(i) => s.(broker := B.Receive(s.broker, i))
    case CloseOp => s.(broker := B.Close(s.broker))
  }

  ghost function Steps(s: System, ops: seq<Op>): System
    decreases |ops|
  {
    if ops == [] then s else Steps(Step(s, ops[0]), ops[1..])
  }

  // ---- What every run keeps --------------------------------------------------------------------

  predicate OwnsListing(t: Table, c: Conversation) {
    c.listingID in t.rows && t.rows[c.listingID].sellerID == c.sellerID
  }

  ghost predicate SellersOwn(t: Table, chat: ChatModel.State) {
    forall id | id in chat.conversations :: OwnsListing(t, chat.conversations[id])
  }

  /** The event names a stored message of the conversation, and its two participants. */
  predicate IsEventOf(chat: ChatModel.State, e: B.Event) {
    && e.messageID in chat.messages
    && chat.messages[e.messageID].conversationID == e.conversationID
    && e.conversationID in chat.conversations
    && chat.conversations[e.conversationID].sellerID == e.sellerID
    && chat.conversations[e.conversationID].buyerID == e.buyerID
  }

  ghost predicate InLog(log: seq<B.Event>, messageID: int) {
    exists i :: 0 <= i < |log| && log[i].messageID == messageID
  }

  ghost predicate IsWaiting(pending: set<B.Event>, messageID: int) {
    exists e :: e in pending && e.messageID == messageID
  }

  /** Every stored message has exactly one event, published once or still on its way to the broker. */
  ghost predicate EventsMatchMessages(chat: ChatModel.State, log: seq<B.Event>, pending: set<B.Event>) {
    && (forall i | 0 <= i < |log| :: IsEventOf(chat, log[i]))
    && (forall i, j | 0 <= i < j < |log| :: log[i].messageID != log[j].messageID)
    && (forall e | e in pending :: IsEventOf(chat, e) && !InLog(log, e.messageID))
    && (forall id | id in chat.messages :: InLog(log, id) || IsWaiting(pending, id))
  }

  ghost predicate Coupled(s: System) {
    && Listings.Valid(s.table) && Consistent(s.chat) && B.Sound(s.broker)
    && SellersOwn(s.table, s.chat) && EventsMatchMessages(s.chat, s.broker.published, s.pending)
  }

  lemma InitialIsCoupled()
    ensures Coupled(INITIAL)
  {
  }

  lemma WriteKeepsOwners(t: Table, w: Write, chat: ChatModel.State)
    requires Listings.Valid(t) && SellersOwn(t, chat)
    ensures Listings.Valid(ApplyWrite(t, w)) && SellersOwn(ApplyWrite(t, w), chat)
  {
    hide ApplyWrite, Listings.Valid;
    WriteEvolves(t, w);
    forall id | id in chat.conversations ensures OwnsListing(ApplyWrite(t, w), chat.conversations[id]) {
      assert OwnsListing(t, chat.conversations[id]);
    }
  }

  /** Conversations and messages stay, so what was said about them stays true. */
  lemma ProgressKeepsEvent(chat: ChatModel.State, next: ChatModel.State, e: B.Event)
    requires Progresses(chat, next) && IsEventOf(chat, e)
    ensures IsEventOf(next, e)
  {
    assert SameConversation(chat.conversations[e.conversationID], next.conversations[e.conversationID]);
  }

  lemma SameMessagesKeepEvents(chat: ChatModel.State, next: ChatModel.State, log: seq<B.Event>, pending: set<B.Event>)
    requires Progresses(chat, next) && next.messages == chat.messages && EventsMatchMessages(chat, log, pending)
    ensures EventsMatchMessages(next, log, pending)
  {
    hide Progresses, IsEventOf;
    forall e | IsEventOf(chat, e) ensures IsEventOf(next, e) {
      ProgressKeepsEvent(chat, next, e);
    }
  }

  lemma ProgressKeepsOwners(t: Table, chat: ChatModel.State, next: ChatModel.State)
    requires Progresses(chat, next) && SellersOwn(t, chat) && next.conversations.Keys == chat.conversations.Keys
    ensures SellersOwn(t, next)
  {
    forall id | id in next.conversations ensures OwnsListing(t, next.conversations[id]) {
      assert OwnsListing(t, chat.conversations[id]);
      assert SameConversation(chat.conversations[id], next.conversations[id]);
    }
  }

  lemma StartStaysCoupled(s: System, user: User, listingID: int, now: int)
    requires Coupled(s)
    ensures Coupled(Step(s, StartOp(user, listingID, now)))
  {
    hide Consistent, B.Sound, EventsMatchMessages, Progresses;
    var listing := FindListing(s.table, listingID);
    var next := StartConversation(s.chat, listing, user, now).0;
    StartKeeps(s.chat, listing, user, now);
    SameMessagesKeepEvents(s.chat, next, s.broker.published, s.pending);
    forall id | id in next.conversations ensures OwnsListing(s.table, next.conversations[id]) {
      assert id in s.chat.conversations ==> OwnsListing(s.table, s.chat.conversations[id]);
    }
  }

  lemma MarkStaysCoupled(s: System, userID: int, conversationID: int, messageID: int)
    requires Coupled(s)
    ensures Coupled(Step(s, MarkOp(userID, conversationID, messageID)))
  {
    hide Consistent, B.Sound, EventsMatchMessages, Progresses, SellersOwn;
    var next := MarkConversationRead(s.chat, userID, conversationID, messageID).0;
    MarkKeeps(s.chat, userID, conversationID, messageID);
    SameMessagesKeepEvents(s.chat, next, s.broker.published, s.pending);
    ProgressKeepsOwners(s.table, s.chat, next);
  }

  lemma CommitAddsEvent(chat: ChatModel.State, m: Message, log: seq<B.Event>, pending: set<B.Event>)
    requires Consistent(chat) && EventsMatchMessages(chat, log, pending)
    requires m.id !in chat.messages && m.conversationID in chat.conversations
    requires Progresses(chat, Committed(chat, m))
    ensures EventsMatchMessages(
      Committed(chat, m), log, pending + {EventOf(m, chat.conversations[m.conversationID])})
  {
    var next := Committed(chat, m);
    var added := EventOf(m, chat.conversations[m.conversationID]);
    assert ConversationOK(chat, m.conversationID);
    assert IsEventOf(next, added);
    forall e | IsEventOf(chat, e) ensures IsEventOf(next, e) && e.messageID != m.id {
      ProgressKeepsEvent(chat, next, e);
    }
    forall id | id in next.messages ensures InLog(log, id) || IsWaiting(pending + {added}, id) {
      if id == m.id {
        assert added in pending + {added} && added.messageID == id;
      } else if !InLog(log, id) {
        var e :| e in pending && e.messageID == id;
        assert e in pending + {added};
      }
    }
  }

  lemma SendStaysCoupled(s: System, user: User, conversationID: int, text: string, now: int, fault: Fault)
    requires Coupled(s)
    ensures Coupled(Step(s, SendOp(user, conversationID, text, now, fault)))
  {
    hide Consistent, B.Sound, EventsMatchMessages, Progresses, SellersOwn, SendMessage, Listings.Valid;
    var (next, sent) := SendMessage(s.chat, user, conversationID, text, now, fault);
    CallKeeps(s.chat, Send(user, conversationID, text, now, fault));
    SendCommitsOrStoresNothing(s.chat, user, conversationID, text, now, fault);
    assert next.conversations.Keys == s.chat.conversations.Keys;
    hide Committed;
    ProgressKeepsOwners(s.table, s.chat, next);
    if sent.Success? {
      CommitAddsEvent(s.chat, sent.value, s.broker.published, s.pending);
    } else {
      SameMessagesKeepEvents(s.chat, next, s.broker.published, s.pending);
    }
  }

  lemma SentEventsMatch(chat: ChatModel.State, log: seq<B.Event>, pending: set<B.Event>, e: B.Event)
    requires EventsMatchMessages(chat, log, pending) && e in pending
    ensures EventsMatchMessages(chat, log + [e], pending - {e})
  {
    var all := log + [e];
    assert all[|log|] == e;
    forall id | InLog(log, id) ensures InLog(all, id) {
      var i :| 0 <= i < |log| && log[i].messageID == id;
      assert all[i].messageID == id;
    }
    forall id | id in chat.messages ensures InLog(all, id) || IsWaiting(pending - {e}, id) {
      if !InLog(log, id) {
        var w :| w in pending && w.messageID == id;
        if w == e { assert all[|log|].messageID == id; } else { assert w in pending - {e}; }
      }
    }
    forall w | w in pending - {e} ensures !InLog(all, w.messageID) {
      assert IsEventOf(chat, w) && IsEventOf(chat, e);
    }
  }

  lemma PublishStaysCoupled(s: System, e: B.Event)
    requires Coupled(s)
    ensures Coupled(Step(s, PublishOp(e)))
  {
    hide Consistent, B.Sound, EventsMatchMessages, SellersOwn;
    if e in s.pending {
      SentEventsMatch(s.chat, s.broker.published, s.pending, e);
      B.CallKeepsSound(s.broker, B.PublishCall(e));
    }
  }

  /** The broker call of an operation on streams. */
  function StreamCall(op: Op): Option<B.Call> {
    match op
    case SubscribeOp(userID) => Some(B.SubscribeCall(userID))
    case UnsubscribeOp(i) => Some(B.UnsubscribeCall(i))
    case ReceiveOp(i) => Some(B.ReceiveCall(i))
    case CloseOp => Some(B.CloseCall)
    case _ => None
  }

  lemma StepStaysCoupled(s: System, op: Op)
    requires Coupled(s)
    ensures Coupled(Step(s, op))
  {
    match op
    case ListingOp(w) => WriteKeepsOwners(s.table, w, s.chat);
    case StartOp(user, listingID, now) => StartStaysCoupled(s, user, listingID, now);
    case SendOp(user, conversationID, text, now, fault) => SendStaysCoupled(s, user, conversationID, text, now, fault);
    case PublishOp(e) => PublishStaysCoupled(s, e);
    case MarkOp(userID, conversationID, messageID) => MarkStaysCoupled(s, userID, conversationID, messageID);
    case _ => StreamStaysCoupled(s, op);
  }

  lemma StreamStaysCoupled(s: System, op: Op)
    requires Coupled(s) && StreamCall(op).Some?
    ensures Coupled(Step(s, op))
  {
    hide Consistent, B.Sound, EventsMatchMessages, SellersOwn;
    B.CallKeepsSound(s.broker, StreamCall(op).value);
  }

  /**
   In every run of listing writes, starts, sends that commit or fail, publishes in any order, marks,
   subscribes, receives, unsubscribes and closes: the seller of every conversation owns its listing,
   and every stored message has exactly one event, on its way to the broker or published once.
   */
  lemma {:induction false} EveryRunStaysCoupled(s: System, ops: seq<Op>)
    requires Coupled(s)
    ensures Coupled(Steps(s, ops))
    decreases |ops|
  {
    hide Coupled, Step;
    if ops == [] {
    } else {
      StepStaysCoupled(s, ops[0]);
      EveryRunStaysCoupled(Step(s, ops[0]), ops[1..]);
    }
  }

  // ---- The system is its three parts -----------------------------------------------------------

  function WritesOf(ops: seq<Op>): seq<Write>
    decreases |ops|
  {
    if ops == [] then []
    else (if ops[0].ListingOp? then [ops[0].write] else []) + WritesOf(ops[1..])
  }

  /** A start reads the listing as it is at that moment. */
  function ChatCall(s: System, op: Op): seq<Call> {
    match op
    case StartOp(user, listingID, now) =>
      [Start(if listingID in s.table.rows then Some(s.table.rows[listingID]) else None, user, now)]
    case SendOp(user, conversationID, text, now, fault) => [Send(user, conversationID, text, now, fault)]
    case MarkOp(userID, conversationID, messageID) => [Mark(userID, conversationID, messageID)]
    case _ => []
  }

  ghost function ChatCalls(s: System, ops: seq<Op>): seq<Call>
    decreases |ops|
  {
    if ops == [] then [] else ChatCall(s, ops[0]) + ChatCalls(Step(s, ops[0]), ops[1..])
  }

  function BrokerCall(s: System, op: Op): seq<B.Call> {
    match op
    case PublishOp(e) => if e in s.pending then [B.PublishCall(e)] else []
    case SubscribeOp(userID) => [B.SubscribeCall(userID)]
    case UnsubscribeOp(i) => [B.UnsubscribeCall(i)]
    case ReceiveOp(i) => [B.ReceiveCall(i)]
    case CloseOp => [B.CloseCall]
    case _ => []
  }

  ghost function BrokerCalls(s: System, ops: seq<Op>): seq<B.Call>
    decreases |ops|
  {
    if ops == [] then [] else BrokerCall(s, ops[0]) + BrokerCalls(Step(s, ops[0]), ops[1..])
  }

  lemma StepIsPartCalls(s: System, op: Op)
    ensures var next := Step(s, op);
      && next.table == (if op.ListingOp? then ApplyWrite(s.table, op.write) else s.table)
      && next.chat == (if ChatCall(s, op) == [] then s.chat else ChatModel.Apply(s.chat, ChatCall(s, op)[0]))
      && next.broker == (if BrokerCall(s, op) == [] then s.broker else B.Apply(s.broker, BrokerCall(s, op)[0]))
    ensures |ChatCall(s, op)| <= 1 && |BrokerCall(s, op)| <= 1
  {
    hide ApplyWrite, StartConversation, SendMessage, MarkConversationRead;
    hide B.Publish, B.Subscribe, B.Unsubscribe, B.Receive, B.Close;
  }

  /**
   Running the system runs the listings table, the chat and the broker on the calls it makes to each:
   what holds in every run of one of them holds in every run of the system.
   */
  lemma {:induction false} RunsOfTheParts(s: System, ops: seq<Op>)
    ensures var end := Steps(s, ops);
      && end.table == WriteAll(s.table, WritesOf(ops))
      && end.chat == ChatModel.Run(s.chat, ChatCalls(s, ops))
      && end.broker == B.Run(s.broker, BrokerCalls(s, ops))
    decreases |ops|
  {
    hide Step, ChatCall, BrokerCall, ApplyWrite, ChatModel.Apply, B.Apply;
    if ops == [] {
    } else {
      var next := Step(s, ops[0]);
      StepIsPartCalls(s, ops[0]);
      RunsOfTheParts(next, ops[1..]);
      FirstWrite(s.table, if ops[0].ListingOp? then [ops[0].write] else [], WritesOf(ops[1..]));
      FirstCall(s.chat, ChatCall(s, ops[0]), ChatCalls(next, ops[1..]));
      FirstBrokerCall(s.broker, BrokerCall(s, ops[0]), BrokerCalls(next, ops[1..]));
    }
  }

  lemma FirstWrite(t: Table, first: seq<Write>, rest: seq<Write>)
    requires |first| <= 1
    ensures WriteAll(t, first + rest) == WriteAll(if first == [] then t else ApplyWrite(t, first[0]), rest)
  {
    hide ApplyWrite;
    assert first != [] ==> (first + rest)[1..] == rest && (first + rest)[0] == first[0];
    assert first == [] ==> first + rest == rest;
  }

  lemma FirstCall(st: ChatModel.State, first: seq<Call>, rest: seq<Call>)
    requires |first| <= 1
    ensures ChatModel.Run(st, first + rest)
      == ChatModel.Run(if first == [] then st else ChatModel.Apply(st, first[0]), rest)
  {
    hide ChatModel.Apply;
    assert first != [] ==> (first + rest)[1..] == rest && (first + rest)[0] == first[0];
    assert first == [] ==> first + rest == rest;
  }

  lemma FirstBrokerCall(b: B.State, first: seq<B.Call>, rest: seq<B.Call>)
    requires |first| <= 1
    ensures B.Run(b, first + rest) == B.Run(if first == [] then b else B.Apply(b, first[0]), rest)
  {
    hide B.Apply;
    assert first != [] ==> (first + rest)[1..] == rest && (first + rest)[0] == first[0];
    assert first == [] ==> first + rest == rest;
  }
}
