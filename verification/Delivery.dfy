/** What event streams tell their users, and what may be lost. */
module Delivery {
  import opened ChatModel
  import opened Realtime
  import B = BrokerModel

  // ---- Streams only speak of stored messages of their own user ---------------------------------

  lemma {:induction false} AddressedMembers(log: seq<B.Event>, userID: int, e: B.Event)
    ensures e in B.AddressedTo(log, userID) <==> e in log && B.IsAddressed(e, userID)
  {
    if log == [] {
    } else {
      var before, last := log[..|log| - 1], log[|log| - 1];
      AddressedMembers(before, userID, e);
      assert e in log <==> e in before || e == last;
    }
  }

  /**
   In every run, every event in any channel, read or still buffered, open or closed, names a message
   already stored in that conversation, and the channel belongs to its seller or its buyer.
   */
  lemma EventsAreStoredAndAddressed(ops: seq<Op>, k: nat, e: B.Event)
    requires k < |Steps(INITIAL, ops).broker.subscriptions|
    requires e in B.Delivered(Steps(INITIAL, ops).broker.subscriptions[k])
    ensures var s := Steps(INITIAL, ops);
      && IsEventOf(s.chat, e)
      && IsParticipant(s.chat.conversations[e.conversationID], s.broker.subscriptions[k].userID)
  {
    hide Steps, Consistent, SellersOwn;
    InitialIsCoupled();
    EveryRunStaysCoupled(INITIAL, ops);
    var s := Steps(INITIAL, ops);
    var stream := s.broker.subscriptions[k];
    DeliveredIsDue(s.broker, k, e);
    var i :| 0 <= i < |s.broker.published| && s.broker.published[i] == e;
  }

  lemma DeliveredIsDue(b: B.State, k: nat, e: B.Event)
    requires B.Sound(b) && k < |b.subscriptions| && e in B.Delivered(b.subscriptions[k])
    ensures e in b.published && B.IsAddressed(e, b.subscriptions[k].userID)
  {
    var s := b.subscriptions[k];
    var due := b.published[s.since..];
    assert B.DeliversInOrder(s, b.published);
    PrefixMember(B.Delivered(s), B.AddressedTo(due, s.userID), e);
    AddressedMembers(due, s.userID, e);
  }

  lemma PrefixMember<T>(a: seq<T>, b: seq<T>, x: T)
    requires a <= b && x in a
    ensures x in b
  {
    var i :| 0 <= i < |a| && a[i] == x;
    assert b[i] == x;
  }

  // ---- An open stream misses nothing -----------------------------------------------------------

  predicate Told(stream: B.Subscription, messageID: int) {
    exists e :: e in B.Delivered(stream) && e.messageID == messageID
  }

  /** What later operations leave alone: who a stream belongs to, when it began, and what was published. */
  ghost predicate Extends(b: B.State, next: B.State) {
    && b.published <= next.published
    && |b.subscriptions| <= |next.subscriptions|
    && forall k | 0 <= k < |b.subscriptions| ::
         && next.subscriptions[k].userID == b.subscriptions[k].userID
         && next.subscriptions[k].since == b.subscriptions[k].since
  }

  lemma StepExtends(s: System, op: Op)
    ensures Extends(s.broker, Step(s, op).broker)
  {
    hide SendMessage, StartConversation, MarkConversationRead, Listings.ApplyWrite;
  }

  lemma {:induction false} StepsExtend(s: System, ops: seq<Op>)
    ensures Extends(s.broker, Steps(s, ops).broker)
    decreases |ops|
  {
    hide Step;
    if ops == [] {
    } else {
      StepExtends(s, ops[0]);
      StepsExtend(Step(s, ops[0]), ops[1..]);
      ExtendsIsTransitive(s.broker, Step(s, ops[0]).broker, Steps(s, ops).broker);
    }
  }

  lemma ExtendsIsTransitive(a: B.State, b: B.State, c: B.State)
    requires Extends(a, b) && Extends(b, c)
    ensures Extends(a, c)
  {
  }

  lemma LateInLog(log: seq<B.Event>, since: nat, messageID: int)
    requires since <= |log|
    requires forall i, j | 0 <= i < j < |log| :: log[i].messageID != log[j].messageID
    ensures InLog(log, messageID) <==> InLog(log[..since], messageID) || InLog(log[since..], messageID)
    ensures !(InLog(log[..since], messageID) && InLog(log[since..], messageID))
  {
    if i :| 0 <= i < |log| && log[i].messageID == messageID {
      if i < since {
        assert log[..since][i].messageID == messageID;
      } else {
        assert log[since..][i - since].messageID == messageID;
      }
    }
  }

  /** An open stream was told exactly of the addressed events published since it began. */
  lemma OpenStreamTold(s: System, k: nat, id: int)
    requires Coupled(s) && k < |s.broker.subscriptions| && s.broker.subscriptions[k].open && id in s.chat.messages
    requires s.chat.messages[id].conversationID in s.chat.conversations
    ensures var stream := s.broker.subscriptions[k];
      && stream.since <= |s.broker.published|
      && (Told(stream, id) <==>
            && InLog(s.broker.published[stream.since..], id)
            && IsParticipant(s.chat.conversations[s.chat.messages[id].conversationID], stream.userID))
  {
    hide Consistent, SellersOwn, B.AddressedTo;
    var stream, log := s.broker.subscriptions[k], s.broker.published;
    assert B.DeliversInOrder(stream, log);
    var due := log[stream.since..];
    forall e ensures e in B.Delivered(stream) <==> e in due && B.IsAddressed(e, stream.userID) {
      AddressedMembers(due, stream.userID, e);
    }
    forall i | 0 <= i < |due| ensures IsEventOf(s.chat, due[i]) {
      assert due[i] == log[stream.since + i];
    }
    if i :| 0 <= i < |due| && due[i].messageID == id {
      assert due[i] in due;
    }
  }

  /**
   A stream that is still open has been told, of all messages stored by now, exactly of those in its
   user's conversations whose event was neither published before it began nor is still on its way.
   */
  lemma OpenStreamMissesNothing(s: System, userID: int, ops: seq<Op>, id: int)
    requires Coupled(s) && !s.broker.closed
    requires var end := Steps(Step(s, SubscribeOp(userID)), ops);
      && |s.broker.subscriptions| < |end.broker.subscriptions|
      && end.broker.subscriptions[|s.broker.subscriptions|].open
      && id in end.chat.messages
    ensures var end := Steps(Step(s, SubscribeOp(userID)), ops);
      && end.chat.messages[id].conversationID in end.chat.conversations
      && (Told(end.broker.subscriptions[|s.broker.subscriptions|], id) <==>
            && IsParticipant(end.chat.conversations[end.chat.messages[id].conversationID], userID)
            && !InLog(s.broker.published, id)
            && !IsWaiting(end.pending, id))
  {
    hide Step, Steps, SellersOwn;
    var begun := Step(s, SubscribeOp(userID));
    var k := |s.broker.subscriptions|;
    SubscribeBegins(s, userID);
    StepStaysCoupled(s, SubscribeOp(userID));
    EveryRunStaysCoupled(begun, ops);
    StepsExtend(begun, ops);
    var end := Steps(begun, ops);
    assert MessageOK(end.chat, id);
    OpenStreamTold(end, k, id);
    LateInLog(end.broker.published, |s.broker.published|, id);
    assert end.broker.published[..|s.broker.published|] == s.broker.published;
  }

  lemma SubscribeBegins(s: System, userID: int)
    requires !s.broker.closed
    ensures var b := Step(s, SubscribeOp(userID)).broker;
      && b.published == s.broker.published
      && |b.subscriptions| == |s.broker.subscriptions| + 1
      && b.subscriptions[|s.broker.subscriptions|].userID == userID
      && b.subscriptions[|s.broker.subscriptions|].since == |s.broker.published|
  {
  }
}
