/** What the chat tables promise across calls: one conversation, monotone pointers, unread counts. */
module ChatProperties {
  import opened Wrappers
  import opened Text
  import opened Listings
  import opened ChatModel

  // ---- One conversation per listing, seller and buyer ------------------------------------------

  /** Some call of the run is a successful start for the tuple. */
  ghost predicate StartedIn(st: State, calls: seq<Call>, listingID: int, sellerID: int, buyerID: int)
    decreases |calls|
  {
    calls != [] && (
      || IsStartOf(calls[0], listingID, sellerID, buyerID)
      || StartedIn(Apply(st, calls[0]), calls[1..], listingID, sellerID, buyerID))
  }

  predicate IsStartOf(c: Call, listingID: int, sellerID: int, buyerID: int) {
    && c.Start? && StartRefusal(c.listing, c.user).None?
    && c.listing.value.id == listingID && c.listing.value.sellerID == sellerID && c.user.id == buyerID
  }

  lemma OtherCallsKeepTuples(st: State, c: Call, listingID: int, sellerID: int, buyerID: int, id: int)
    requires Consistent(st) && !IsStartOf(c, listingID, sellerID, buyerID)
    ensures Holds(Apply(st, c), id, listingID, sellerID, buyerID) ==> Holds(st, id, listingID, sellerID, buyerID)
  {
    hide TrimSpace, ConversationOK, MessageOK;
    CallKeeps(st, c);
    var next := Apply(st, c);
    if id in st.conversations {
      assert SameConversation(st.conversations[id], next.conversations[id]);
    }
  }

  lemma CallStarts(st: State, c: Call, listingID: int, sellerID: int, buyerID: int)
    requires Consistent(st)
    ensures HasTuple(Apply(st, c), listingID, sellerID, buyerID)
      <==> HasTuple(st, listingID, sellerID, buyerID) || IsStartOf(c, listingID, sellerID, buyerID)
  {
    hide TrimSpace, ConversationOK, MessageOK;
    CallKeeps(st, c);
    var next := Apply(st, c);
    if HasTuple(st, listingID, sellerID, buyerID) {
      var id :| Holds(st, id, listingID, sellerID, buyerID);
      assert SameConversation(st.conversations[id], next.conversations[id]);
      assert Holds(next, id, listingID, sellerID, buyerID);
    } else if IsStartOf(c, listingID, sellerID, buyerID) {
      assert Holds(next, st.nextConversationID, listingID, sellerID, buyerID);
    } else {
      forall id | Holds(next, id, listingID, sellerID, buyerID) ensures Holds(st, id, listingID, sellerID, buyerID) {
        OtherCallsKeepTuples(st, c, listingID, sellerID, buyerID, id);
      }
    }
  }

  lemma {:induction false} TupleExistsOnceStarted(
      st: State, calls: seq<Call>, listingID: int, sellerID: int, buyerID: int)
    requires Consistent(st)
    ensures HasTuple(Run(st, calls), listingID, sellerID, buyerID)
      <==> HasTuple(st, listingID, sellerID, buyerID) || StartedIn(st, calls, listingID, sellerID, buyerID)
    decreases |calls|
  {
    if calls == [] {
    } else {
      CallKeeps(st, calls[0]);
      CallStarts(st, calls[0], listingID, sellerID, buyerID);
      TupleExistsOnceStarted(Apply(st, calls[0]), calls[1..], listingID, sellerID, buyerID);
    }
  }

  /**
   Of all successful starts for a (listing, seller, buyer) exactly the first reports that it created
   the conversation; a repeat stores nothing.
   */
  lemma OnlyFirstStartCreates(calls: seq<Call>, listing: Listing, user: User, now: int)
    requires StartRefusal(Some(listing), user).None?
    ensures var st := Run(EMPTY, calls);
      var (next, started) := StartConversation(st, Some(listing), user, now);
      && (started.value.created <==> !StartedIn(EMPTY, calls, listing.id, listing.sellerID, user.id))
      && (!started.value.created ==> next == st.(nextConversationID := st.nextConversationID + 1))
  {
    assert Consistent(EMPTY);
    TupleExistsOnceStarted(EMPTY, calls, listing.id, listing.sellerID, user.id);
    assert !HasTuple(EMPTY, listing.id, listing.sellerID, user.id);
  }

  /** Whatever happens in between, starting again returns the conversation the first start returned. */
  lemma RepeatedStartReturnsSame(
      st: State, first: Listing, user: User, now: int, calls: seq<Call>, again: Listing, sameUser: User, later: int)
    requires Consistent(st)
    requires StartRefusal(Some(first), user).None? && StartRefusal(Some(again), sameUser).None?
    requires again.id == first.id && again.sellerID == first.sellerID && sameUser.id == user.id
    ensures var (next, started) := StartConversation(st, Some(first), user, now);
      var (_, repeated) := StartConversation(Run(next, calls), Some(again), sameUser, later);
      && !repeated.value.created
      && SameConversation(started.value.conversation, repeated.value.conversation)
  {
    var (next, started) := StartConversation(st, Some(first), user, now);
    StartKeeps(st, Some(first), user, now);
    EveryRunIsConsistent(next, calls);
    var end := Run(next, calls);
    var id := started.value.conversation.id;
    assert Holds(next, id, first.id, first.sellerID, user.id) && next.conversations[id] == started.value.conversation;
    assert SameConversation(next.conversations[id], end.conversations[id]);
    assert Holds(end, id, first.id, first.sellerID, user.id);
    var found := TupleID(end, first.id, first.sellerID, user.id);
    assert found == id;
  }

  // ---- Read pointers ---------------------------------------------------------------------------

  /** The caller is the conversation's seller or its buyer. */
  predicate TakesPart(st: State, userID: int, conversationID: int) {
    && conversationID in st.conversations
    && (st.conversations[conversationID].sellerID == userID || st.conversations[conversationID].buyerID == userID)
  }

  predicate IsStoredIn(st: State, conversationID: int, messageID: int) {
    messageID in st.messages && st.messages[messageID].conversationID == conversationID
  }

  predicate MayMark(st: State, userID: int, conversationID: int, messageID: int) {
    messageID >= 1 && TakesPart(st, userID, conversationID) && IsStoredIn(st, conversationID, messageID)
  }

  /** Each refusal of a mark, in the order of the checks; a refused mark changes nothing. */
  lemma MarkIsRefusedInOrder(st: State, userID: int, conversationID: int, messageID: int)
    ensures var (next, error) := MarkConversationRead(st, userID, conversationID, messageID);
      && (error.Some? ==> next == st)
      && Apply(st, Mark(userID, conversationID, messageID)) == next
      && error ==
           if messageID < 1 then Some(BadReadTarget)
           else if !TakesPart(st, userID, conversationID) then Some(ConversationNotFound)
           else if !IsStoredIn(st, conversationID, messageID) then Some(InvalidReadTarget)
           else None
  {
  }

  /** A mark succeeds exactly when a participant names a stored message of the conversation. */
  lemma MarkSucceedsExactly(st: State, userID: int, conversationID: int, messageID: int)
    ensures MarkConversationRead(st, userID, conversationID, messageID).1 == None
      <==> MayMark(st, userID, conversationID, messageID)
  {
    MarkIsRefusedInOrder(st, userID, conversationID, messageID);
  }

  function MarkAll(st: State, userID: int, conversationID: int, ids: seq<int>): State {
    if ids == [] then st
    else
      var before := MarkAll(st, userID, conversationID, ids[..|ids| - 1]);
      MarkConversationRead(before, userID, conversationID, ids[|ids| - 1]).0
  }

  function Max(ids: seq<int>): int
    requires ids != []
  {
    if |ids| == 1 then ids[0]
    else
      var m := Max(ids[..|ids| - 1]);
      if m < ids[|ids| - 1] then ids[|ids| - 1] else m
  }

  /**
   Marking any messages of the conversation read, in any order and with repeats, is marking the
   newest of them.
   */
  lemma {:induction false} MarksAmountToTheirMaximum(st: State, userID: int, conversationID: int, ids: seq<int>)
    requires ids != [] && forall i | 0 <= i < |ids| :: MayMark(st, userID, conversationID, ids[i])
    ensures Max(ids) in ids && forall i | 0 <= i < |ids| :: ids[i] <= Max(ids)
    ensures MarkAll(st, userID, conversationID, ids) == MarkConversationRead(st, userID, conversationID, Max(ids)).0
  {
    if |ids| == 1 {
      assert MarkAll(st, userID, conversationID, ids[..0]) == st;
    } else {
      var before, last := ids[..|ids| - 1], ids[|ids| - 1];
      MarksAmountToTheirMaximum(st, userID, conversationID, before);
      var i :| 0 <= i < |before| && before[i] == Max(before);
      assert ids[i] == Max(before);
      MarkTwice(st, userID, conversationID, Max(before), last);
    }
  }

  lemma MarkTwice(st: State, userID: int, conversationID: int, a: int, b: int)
    requires MayMark(st, userID, conversationID, a) && MayMark(st, userID, conversationID, b)
    ensures var once := MarkConversationRead(st, userID, conversationID, a).0;
      MarkConversationRead(once, userID, conversationID, b).0
        == MarkConversationRead(st, userID, conversationID, if a < b then b else a).0
  {
    var c := st.conversations[conversationID];
    assert AdvanceReadPointer(AdvanceReadPointer(c, userID, a), userID, b)
      == AdvanceReadPointer(c, userID, if a < b then b else a);
  }

  /** Marking moves the caller's pointer of one conversation, never back, and nothing else. */
  lemma MarkMovesOnlyOwnPointer(st: State, userID: int, conversationID: int, messageID: int, otherID: int)
    requires Consistent(st) && MayMark(st, userID, conversationID, messageID)
    requires IsParticipant(st.conversations[conversationID], otherID) && otherID != userID
    ensures var next := MarkConversationRead(st, userID, conversationID, messageID).0;
      var was, now := st.conversations[conversationID], next.conversations[conversationID];
      && next == st.(conversations := st.conversations[conversationID := now])
      && now == was.(sellerRead := now.sellerRead, buyerRead := now.buyerRead)
      && Pointer(now, otherID) == Pointer(was, otherID)
      && NotBefore(Pointer(was, userID), Pointer(now, userID)) && NotBefore(Some(messageID), Pointer(now, userID))
      && (Pointer(now, userID) == Pointer(was, userID) || Pointer(now, userID) == Some(messageID))
  {
    assert ConversationOK(st, conversationID);
  }

  // ---- Unread counts ---------------------------------------------------------------------------

  /** The state after a message was committed. */
  function Committed(st: State, m: Message): State
    requires m.conversationID in st.conversations
  {
    st.(messages := st.messages[m.id := m],
        conversations := st.conversations[m.conversationID :=
          st.conversations[m.conversationID].(lastMessageAt := Some(m.createdAt))],
        nextMessageID := st.nextMessageID + 1)
  }

  /** A send either stores one message with the next identifier or stores nothing. */
  lemma SendCommitsOrStoresNothing(st: State, user: User, conversationID: int, text: string, now: int, fault: Fault)
    requires Consistent(st)
    ensures var (next, sent) := SendMessage(st, user, conversationID, text, now, fault);
      && (sent.Success? ==>
            && var m := sent.value;
            && m.id == st.nextMessageID && m.id !in st.messages
            && m.conversationID == conversationID && conversationID in st.conversations
            && m.senderID == user.id && IsParticipant(st.conversations[conversationID], user.id)
            && m.body == TrimSpace(text) && m.createdAt == now
            && next == Committed(st, m))
      && (sent.Failure? ==> next.messages == st.messages && next.conversations == st.conversations)
  {
    hide TrimSpace;
    assert forall id | id in st.messages :: MessageOK(st, id);
    assert forall id | id in st.conversations :: ConversationOK(st, id);
  }

  /** A send of text with nothing to trim, by a participant, on a healthy store. */
  lemma TrimmedSendCommits(st: State, user: User, conversationID: int, body: string, now: int)
    requires !user.disabled && TrimSpace(body) == body && !BadMessageBody(body)
    requires conversationID in st.conversations && st.conversations[conversationID].id == conversationID
    requires IsParticipant(st.conversations[conversationID], user.id)
    requires now >= st.conversations[conversationID].createdAt
    ensures var m := Message(st.nextMessageID, conversationID, user.id, body, now);
      SendMessage(st, user, conversationID, body, now, NoFault) == (Committed(st, m), Success(m))
  {
    hide TrimSpace, BadMessageBody;
  }

  lemma PointerIsOld(st: State, conversationID: int, userID: int)
    requires Consistent(st) && conversationID in st.conversations
    ensures 0 <= Floor(Pointer(st.conversations[conversationID], userID)) < st.nextMessageID
  {
    assert ConversationOK(st, conversationID);
    var pointer := Pointer(st.conversations[conversationID], userID);
    assert forall id | id in st.messages :: MessageOK(st, id);
  }

  /** The new message is the only one that becomes unread, and only for the other participant. */
  lemma UnreadAfterCommit(st: State, m: Message, conversationID: int, userID: int, id: int)
    requires Consistent(st) && m.id == st.nextMessageID && m.id !in st.messages
    requires m.conversationID in st.conversations && conversationID in st.conversations
    ensures var isNews := id == m.id && conversationID == m.conversationID && userID != m.senderID;
      IsUnread(Committed(st, m), conversationID, userID, id) <==>
        IsUnread(st, conversationID, userID, id) || isNews
  {
    PointerIsOld(st, conversationID, userID);
    hide Consistent;
    assert Pointer(Committed(st, m).conversations[conversationID], userID)
      == Pointer(st.conversations[conversationID], userID);
  }

  lemma CommitRaisesUnread(st: State, m: Message, conversationID: int, userID: int)
    requires Consistent(st) && m.id == st.nextMessageID && m.id !in st.messages
    requires m.conversationID in st.conversations && conversationID in st.conversations
    ensures UnreadCount(Committed(st, m), conversationID, userID) == UnreadCount(st, conversationID, userID)
      + if conversationID == m.conversationID && userID != m.senderID then 1 else 0
  {
    hide Consistent, IsUnread;
    var next := Committed(st, m);
    var added := if conversationID == m.conversationID && userID != m.senderID then {m.id} else {};
    forall id ensures id in UnreadIDs(next, conversationID, userID)
      <==> id in UnreadIDs(st, conversationID, userID) + added
    {
      UnreadAfterCommit(st, m, conversationID, userID, id);
      UnreadIsStored(st, conversationID, userID, id);
      UnreadIsStored(next, conversationID, userID, id);
    }
    assert UnreadIDs(next, conversationID, userID) == UnreadIDs(st, conversationID, userID) + added;
    UnreadIsStored(st, conversationID, userID, m.id);
  }

  lemma UnreadIsStored(st: State, conversationID: int, userID: int, id: int)
    requires conversationID in st.conversations
    ensures IsUnread(st, conversationID, userID, id) ==> id in st.messages
  {
  }

  /**
   A stored message raises the other participant's unread count of that conversation by exactly
   one; the sender's count there, and every count elsewhere, stay as they were.
   */
  lemma SendRaisesCounterpart(
      st: State, user: User, conversationID: int, text: string, now: int, fault: Fault, at: int, userID: int)
    requires Consistent(st) && SendMessage(st, user, conversationID, text, now, fault).1.Success?
    requires at in st.conversations && IsParticipant(st.conversations[at], userID)
    ensures var next := SendMessage(st, user, conversationID, text, now, fault).0;
      && at in next.conversations
      && UnreadCount(next, at, userID) == UnreadCount(st, at, userID)
           + if at == conversationID && userID != user.id then 1 else 0
  {
    SendCommitsOrStoresNothing(st, user, conversationID, text, now, fault);
    CommitRaisesUnread(st, SendMessage(st, user, conversationID, text, now, fault).1.value, at, userID);
  }

  /** Marking the newest message of a conversation leaves the caller nothing unread. */
  lemma MarkNewestClearsUnread(st: State, userID: int, conversationID: int, messageID: int)
    requires Consistent(st) && MayMark(st, userID, conversationID, messageID)
    requires forall id | id in st.messages && st.messages[id].conversationID == conversationID :: id <= messageID
    ensures UnreadCount(MarkConversationRead(st, userID, conversationID, messageID).0, conversationID, userID) == 0
  {
    var next := MarkConversationRead(st, userID, conversationID, messageID).0;
    assert UnreadIDs(next, conversationID, userID) == {};
  }

  /** In general, marking a message read leaves unread exactly what was unread and is newer. */
  lemma MarkLeavesNewerUnread(st: State, userID: int, conversationID: int, messageID: int)
    requires Consistent(st) && MayMark(st, userID, conversationID, messageID)
    ensures UnreadIDs(MarkConversationRead(st, userID, conversationID, messageID).0, conversationID, userID)
      == set id | id in UnreadIDs(st, conversationID, userID) && id > messageID
  {
    PointerIsOld(st, conversationID, userID);
  }

  // ---- Activity --------------------------------------------------------------------------------

  predicate IsLatest(st: State, conversationID: int, id: int) {
    && id in st.messages && st.messages[id].conversationID == conversationID
    && forall k | k in st.messages && st.messages[k].conversationID == conversationID :: k <= id
  }

  /** last_message_at is the time of the newest message, and null while there is none. */
  ghost predicate ActivityOK(st: State, conversationID: int)
    requires conversationID in st.conversations
  {
    match st.conversations[conversationID].lastMessageAt
    case None => forall k | k in st.messages :: st.messages[k].conversationID != conversationID
    case Some(at) => exists id :: IsLatest(st, conversationID, id) && st.messages[id].createdAt == at
  }

  ghost predicate ActivitiesOK(st: State) {
    forall id | id in st.conversations :: ActivityOK(st, id)
  }

  lemma CommitKeepsActivity(st: State, m: Message)
    requires Consistent(st) && ActivitiesOK(st)
    requires m.id == st.nextMessageID && m.conversationID in st.conversations
    ensures ActivitiesOK(Committed(st, m))
  {
    var next := Committed(st, m);
    forall k | k in st.messages ensures k < m.id { assert MessageOK(st, k); }
    forall id | id in next.conversations ensures ActivityOK(next, id) {
      if id == m.conversationID {
        assert IsLatest(next, id, m.id);
      } else {
        assert ActivityOK(st, id);
        if st.conversations[id].lastMessageAt.Some? {
          var k :| IsLatest(st, id, k) && st.messages[k].createdAt == st.conversations[id].lastMessageAt.value;
          assert IsLatest(next, id, k);
        }
      }
    }
  }

  /** The rows an activity depends on. */
  lemma SameRowsKeepActivity(st: State, next: State)
    requires ActivitiesOK(st) && next.messages == st.messages && next.conversations.Keys == st.conversations.Keys
    requires forall id | id in st.conversations ::
      next.conversations[id].lastMessageAt == st.conversations[id].lastMessageAt
    ensures ActivitiesOK(next)
  {
    forall id | id in next.conversations ensures ActivityOK(next, id) {
      assert ActivityOK(st, id);
      if st.conversations[id].lastMessageAt.Some? {
        var k :| IsLatest(st, id, k) && st.messages[k].createdAt == st.conversations[id].lastMessageAt.value;
        assert IsLatest(next, id, k);
      }
    }
  }

  lemma StartKeepsActivity(st: State, listing: Option<Listing>, user: User, now: int)
    requires Consistent(st) && ActivitiesOK(st)
    ensures ActivitiesOK(StartConversation(st, listing, user, now).0)
  {
    var next := StartConversation(st, listing, user, now).0;
    forall id | id in next.conversations ensures ActivityOK(next, id) {
      if id in st.conversations {
        assert ActivityOK(st, id);
        if st.conversations[id].lastMessageAt.Some? {
          var k :| IsLatest(st, id, k) && st.messages[k].createdAt == st.conversations[id].lastMessageAt.value;
          assert IsLatest(next, id, k);
        }
      } else {
        assert forall k | k in st.messages :: MessageOK(st, k);
      }
    }
  }

  lemma CallKeepsActivity(st: State, c: Call)
    requires Consistent(st) && ActivitiesOK(st)
    ensures ActivitiesOK(Apply(st, c))
  {
    match c
    case Start(listing, user, now) => StartKeepsActivity(st, listing, user, now);
    case Send(user, conversationID, text, now, fault) =>
      SendCommitsOrStoresNothing(st, user, conversationID, text, now, fault);
      var (next, sent) := SendMessage(st, user, conversationID, text, now, fault);
      if sent.Success? { CommitKeepsActivity(st, sent.value); } else { SameRowsKeepActivity(st, next); }
    case Mark(userID, conversationID, messageID) =>
      SameRowsKeepActivity(st, MarkConversationRead(st, userID, conversationID, messageID).0);
  }

  /**
   Although last_message_at is overwritten, never maximised, in every run it is exactly the time of
   the conversation's newest message, and null exactly while the conversation has none.
   */
  lemma {:induction false} EveryRunActivityIsLatest(st: State, calls: seq<Call>)
    requires Consistent(st) && ActivitiesOK(st)
    ensures ActivitiesOK(Run(st, calls))
    decreases |calls|
  {
    if calls == [] {
    } else {
      CallKeeps(st, calls[0]);
      CallKeepsActivity(st, calls[0]);
      EveryRunActivityIsLatest(Apply(st, calls[0]), calls[1..]);
    }
  }

  // ---- When a start or a send succeeds, and what it stores -------------------------------------

  /** Each refusal of a start, in the order of the checks; a refused start changes nothing. */
  lemma StartIsRefusedInOrder(st: State, listing: Option<Listing>, user: User, now: int)
    ensures var (next, result) := StartConversation(st, listing, user, now);
      && (result.Failure? ==> next == st)
      && Apply(st, Start(listing, user, now)) == next
      && if user.disabled then result == Failure(UserDisabled)
         else if listing == None then result == Failure(ListingNotFound)
         else if listing.value.moderation != Visible
           || (listing.value.status != Active && listing.value.status != Reserved) then
           result == Failure(ListingUnavailable)
         else if listing.value.sellerID == user.id then result == Failure(SelfConversation)
         else result.Success?
  {
    hide Upsert;
  }

  /** The conversation a start returns is between the listing's seller and the caller, new or as it was. */
  lemma StartStores(st: State, listing: Listing, user: User, now: int)
    requires Consistent(st) && StartConversation(st, Some(listing), user, now).1.Success?
    ensures var (next, result) := StartConversation(st, Some(listing), user, now);
      var c := result.value.conversation;
      && c.listingID == listing.id && c.sellerID == listing.sellerID && c.buyerID == user.id
      && next.messages == st.messages && next.nextMessageID == st.nextMessageID
      && next.conversations == st.conversations[c.id := c]
      && (result.value.created ==>
            && c.id !in st.conversations && c.createdAt == now
            && c.sellerRead == None && c.buyerRead == None && c.lastMessageAt == None)
      && (!result.value.created ==> c.id in st.conversations && st.conversations[c.id] == c)
  {
    var c := StartConversation(st, Some(listing), user, now).1.value.conversation;
    assert st.nextConversationID in st.conversations ==> ConversationOK(st, st.nextConversationID);
    if HasTuple(st, listing.id, listing.sellerID, user.id) {
      assert ConversationOK(st, TupleID(st, listing.id, listing.sellerID, user.id));
      assert st.conversations == st.conversations[c.id := c];
    }
  }

  predicate BodyFits(text: string) { 1 <= |TrimSpace(text)| <= 2000 }

  /** Each refusal of a send, in the order of the checks and statements; a refused send leaves the rows as they were. */
  lemma SendIsRefusedInOrder(st: State, user: User, conversationID: int, text: string, now: int, fault: Fault)
    requires Consistent(st)
    ensures var (next, result) := SendMessage(st, user, conversationID, text, now, fault);
      && (result.Failure? ==> next.messages == st.messages && next.conversations == st.conversations)
      && Apply(st, Send(user, conversationID, text, now, fault)) == next
      && if user.disabled then result == Failure(UserDisabled)
         else if !BodyFits(text) then result == Failure(BadBody)
         else if fault == FailsBeforeInsert then result == Failure(StoreFailure)
         else if !TakesPart(st, user.id, conversationID) then result == Failure(ConversationNotFound)
         else if fault == FailsAfterInsert || now < st.conversations[conversationID].createdAt then
           result == Failure(StoreFailure)
         else result.Success?
  {
    hide TrimSpace, Consistent;
    SendCommitsOrStoresNothing(st, user, conversationID, text, now, fault);
  }
}
