/** The chat store over tables it updates in place, and the service that publishes after commit. */
module Messaging {
  import opened Wrappers
  import opened Text
  import opened Listings
  import opened ChatModel
  import BrokerModel
  import opened Sse

  class ChatStore {
    var conversations: map<int, Conversation>
    var messages: map<int, Message>
    var nextConversationID: int
    var nextMessageID: int

    function View(): State
      reads this
    {
      State(conversations, messages, nextConversationID, nextMessageID)
    }

    constructor ()
      ensures View() == EMPTY && Consistent(View())
    {
      conversations := map[];
      messages := map[];
      nextConversationID := 1;
      nextMessageID := 1;
    }

    /** INSERT ... ON CONFLICT DO UPDATE: one statement, whether or not the row was there. */
    method StartConversation(listingID: int, sellerID: int, buyerID: int, now: int) returns (started: Started)
      requires Consistent(View())
      modifies this`conversations, this`nextConversationID
      ensures (View(), started) == Upsert(old(View()), listingID, sellerID, buyerID, now)
    {
      var newID := nextConversationID;
      nextConversationID := nextConversationID + 1;
      if id: int :| id in conversations && SameTuple(conversations[id], listingID, sellerID, buyerID) {
        assert Holds(old(View()), id, listingID, sellerID, buyerID);
        return Started(conversations[id], false);
      }
      var c := Conversation(newID, listingID, sellerID, buyerID, None, None, now, None);
      conversations := conversations[newID := c];
      return Started(c, true);
    }

    method GetConversationForParticipant(conversationID: int, userID: int)
      returns (row: Result<Conversation, ChatError>)
      ensures row == if conversationID in conversations && IsParticipant(conversations[conversationID], userID)
                     then Success(conversations[conversationID]) else Failure(ConversationNotFound)
    {
      if conversationID !in conversations || !IsParticipant(conversations[conversationID], userID) {
        return Failure(ConversationNotFound);
      }
      return Success(conversations[conversationID]);
    }

    /** The identity sequence is not transactional: a rolled-back insert has used its number up. */
    method InsertMessage(conversationID: int, senderID: int, body: string, now: int) returns (m: Message)
      modifies this`messages, this`nextMessageID
      ensures m == Message(old(nextMessageID), conversationID, senderID, body, now)
      ensures messages == old(messages)[m.id := m] && nextMessageID == old(nextMessageID) + 1
    {
      m := Message(nextMessageID, conversationID, senderID, body, now);
      messages := messages[m.id := m];
      nextMessageID := nextMessageID + 1;
    }

    /** Refused by the check that last_message_at is not before created_at. */
    method UpdateConversationLastMessageAt(conversationID: int, now: int) returns (ok: bool)
      requires conversationID in conversations
      modifies this`conversations
      ensures ok == (now >= old(conversations)[conversationID].createdAt)
      ensures conversations == if ok
        then old(conversations)[conversationID := old(conversations)[conversationID].(lastMessageAt := Some(now))]
        else old(conversations)
    {
      var c := conversations[conversationID];
      if now < c.createdAt {
        return false;
      }
      conversations := conversations[conversationID := c.(lastMessageAt := Some(now))];
      return true;
    }

    /** BEGIN; read the conversation; insert; update the activity; COMMIT, or roll everything back. */
    method CreateMessage(conversationID: int, senderID: int, body: string, now: int, fault: Fault)
      returns (result: Result<Message, ChatError>, conversation: Option<Conversation>)
      requires Consistent(View())
      modifies this`conversations, this`messages, this`nextMessageID
      ensures (View(), result) == ChatModel.CreateMessage(old(View()), conversationID, senderID, body, now, fault)
      ensures result.Success? ==> conversationID in old(conversations)
      ensures result.Success? ==> conversation == Some(old(conversations)[conversationID])
    {
      if fault.FailsBeforeInsert? {
        return Failure(StoreFailure), None;
      }
      var conversationsBefore, messagesBefore := conversations, messages;
      var row := GetConversationForParticipant(conversationID, senderID);
      if row.Failure? {
        return Failure(row.error), None;
      }
      assert ConversationOK(old(View()), conversationID);
      var m := InsertMessage(conversationID, senderID, body, now);
      if !fault.FailsAfterInsert? {
        var updated := UpdateConversationLastMessageAt(conversationID, now);
        if updated {
          return Success(m), Some(row.value);
        }
      }
      conversations, messages := conversationsBefore, messagesBefore;
      return Failure(StoreFailure), None;
    }

    /** The CASE expressions of the two monotone pointer updates. */
    method AdvanceReadPointer(conversation: Conversation, userID: int, messageID: int)
      returns (error: Option<ChatError>)
      requires conversation.id in conversations && conversations[conversation.id] == conversation
      requires IsParticipant(conversation, userID)
      modifies this`conversations
      ensures error == if messageID in messages && messages[messageID].conversationID == conversation.id
        then None else Some(InvalidReadTarget)
      ensures conversations == if error.None?
        then old(conversations)[conversation.id := ChatModel.AdvanceReadPointer(conversation, userID, messageID)]
        else old(conversations)
    {
      if messageID !in messages || messages[messageID].conversationID != conversation.id {
        return Some(InvalidReadTarget);
      }
      var c := conversations[conversation.id];
      if c.sellerID == userID {
        if c.sellerRead.None? || c.sellerRead.value < messageID {
          c := c.(sellerRead := Some(messageID));
        }
      } else if c.buyerRead.None? || c.buyerRead.value < messageID {
        c := c.(buyerRead := Some(messageID));
      }
      conversations := conversations[conversation.id := c];
      return None;
    }
  }

  class ChatService {
    const listings: CatalogService
    const store: ChatStore
    const broker: Broker

    constructor (listings: CatalogService, store: ChatStore, broker: Broker)
      ensures this.listings == listings && this.store == store && this.broker == broker
    {
      this.listings := listings;
      this.store := store;
      this.broker := broker;
    }

    method StartConversation(user: User, listingID: int, now: int) returns (result: Result<Started, ChatError>)
      requires Consistent(store.View())
      modifies store
      ensures var row := if listingID in listings.rows then Some(listings.rows[listingID]) else None;
        (store.View(), result) == ChatModel.StartConversation(old(store.View()), row, user, now)
      ensures Consistent(store.View())
    {
      ghost var row := if listingID in listings.rows then Some(listings.rows[listingID]) else None;
      StartKeeps(store.View(), row, user, now);
      if user.disabled {
        return Failure(UserDisabled);
      }
      if listingID !in listings.rows {
        return Failure(ListingNotFound);
      }
      var listing := listings.rows[listingID];
      if !listing.moderation.Visible? || (!listing.status.Active? && !listing.status.Reserved?) {
        return Failure(ListingUnavailable);
      }
      if listing.sellerID == user.id {
        return Failure(SelfConversation);
      }
      var started := store.StartConversation(listing.id, listing.sellerID, user.id, now);
      return Success(started);
    }

    /** The event is published only after the message has been committed, and never otherwise. */
    method SendMessage(user: User, conversationID: int, text: string, now: int, fault: Fault)
      returns (result: Result<Message, ChatError>)
      requires Consistent(store.View()) && broker.Valid()
      modifies store, broker, broker.issued
      ensures (store.View(), result) == ChatModel.SendMessage(old(store.View()), user, conversationID, text, now, fault)
      ensures Consistent(store.View()) && broker.Valid() && broker.issued == old(broker.issued)
      ensures result.Failure? ==> broker.View() == old(broker.View())
      ensures result.Success? ==> conversationID in old(store.conversations)
      ensures result.Success? ==> broker.View() == BrokerModel.Publish(
        old(broker.View()), EventOf(result.value, old(store.conversations)[conversationID]))
    {
      hide TrimSpace;
      if user.disabled {
        return Failure(UserDisabled);
      }
      var body := TrimSpace(text);
      if BadMessageBody(body) {
        return Failure(BadBody);
      }
      CreateKeeps(store.View(), conversationID, user.id, body, now, fault);
      var conversation;
      result, conversation := store.CreateMessage(conversationID, user.id, body, now, fault);
      if result.Failure? {
        return;
      }
      broker.PublishMessageCreated(EventOf(result.value, conversation.value));
    }

    method MarkConversationRead(userID: int, conversationID: int, messageID: int) returns (error: Option<ChatError>)
      requires Consistent(store.View())
      modifies store
      ensures (store.View(), error)
        == ChatModel.MarkConversationRead(old(store.View()), userID, conversationID, messageID)
      ensures Consistent(store.View())
    {
      MarkKeeps(store.View(), userID, conversationID, messageID);
      if messageID < 1 {
        return Some(BadReadTarget);
      }
      var row := store.GetConversationForParticipant(conversationID, userID);
      if row.Failure? {
        return Some(row.error);
      }
      assert ConversationOK(store.View(), conversationID);
      error := store.AdvanceReadPointer(row.value, userID, messageID);
    }
  }
}
