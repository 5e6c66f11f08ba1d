/** Conversations, append-only messages and read pointers: the chat tables and service calls. */
module ChatModel {
  import opened Wrappers
  import opened Text
  import opened Listings
  import BrokerModel

  const MAX_BODY := 2000

  datatype User = User(id: int, disabled: bool)

  datatype Conversation = Conversation(
    id: int, listingID: int, sellerID: int, buyerID: int,
    sellerRead: Option<int>, buyerRead: Option<int>, createdAt: int, lastMessageAt: Option<int>)

  datatype Message = Message(id: int, conversationID: int, senderID: int, body: string, createdAt: int)

  datatype State = State(
    conversations: map<int, Conversation>, messages: map<int, Message>,
    nextConversationID: int, nextMessageID: int)

  const EMPTY := State(map[], map[], 1, 1)

  datatype ChatError =
    | UserDisabled | ConversationNotFound | ListingNotFound | ListingUnavailable | SelfConversation
    | BadBody | BadReadTarget | InvalidReadTarget | StoreFailure

  predicate IsParticipant(c: Conversation, userID: int) { c.sellerID == userID || c.buyerID == userID }

  // ---- Starting a conversation -----------------------------------------------------------------

  predicate SameTuple(c: Conversation, listingID: int, sellerID: int, buyerID: int) {
    c.listingID == listingID && c.sellerID == sellerID && c.buyerID == buyerID
  }

  predicate Holds(st: State, id: int, listingID: int, sellerID: int, buyerID: int) {
    id in st.conversations && SameTuple(st.conversations[id], listingID, sellerID, buyerID)
  }

  ghost predicate HasTuple(st: State, listingID: int, sellerID: int, buyerID: int) {
    exists id :: Holds(st, id, listingID, sellerID, buyerID)
  }

  ghost function TupleID(st: State, listingID: int, sellerID: int, buyerID: int): (id: int)
    requires HasTuple(st, listingID, sellerID, buyerID)
    ensures Holds(st, id, listingID, sellerID, buyerID)
  {
    var id :| Holds(st, id, listingID, sellerID, buyerID);
    id
  }

  datatype Started = Started(conversation: Conversation, created: bool)

  /**
   INSERT ... ON CONFLICT (listing, seller, buyer) DO UPDATE SET created_at = its own value: the
   existing row comes back unchanged.  Either way the identity sequence moves on.
   */
  ghost function Upsert(st: State, listingID: int, sellerID: int, buyerID: int, now: int): (State, Started) {
    if HasTuple(st, listingID, sellerID, buyerID) then
      (st.(nextConversationID := st.nextConversationID + 1),
       Started(st.conversations[TupleID(st, listingID, sellerID, buyerID)], false))
    else
      var c := Conversation(st.nextConversationID, listingID, sellerID, buyerID, None, None, now, None);
      (st.(conversations := st.conversations[c.id := c], nextConversationID := st.nextConversationID + 1),
       Started(c, true))
  }

  /** The guards of StartConversation on the listing that was read. */
  function StartRefusal(listing: Option<Listing>, user: User): Option<ChatError> {
    if user.disabled then Some(UserDisabled)
    else if listing.None? then Some(ListingNotFound)
    else if !listing.value.moderation.Visible?
      || !(listing.value.status.Active? || listing.value.status.Reserved?) then Some(ListingUnavailable)
    else if listing.value.sellerID == user.id then Some(SelfConversation)
    else None
  }

  ghost function StartConversation(st: State, listing: Option<Listing>, user: User, now: int)
    : (State, Result<Started, ChatError>)
  {
    var refusal := StartRefusal(listing, user);
    if refusal.Some? then (st, Failure(refusal.value))
    else
      var (next, started) := Upsert(st, listing.value.id, listing.value.sellerID, user.id, now);
      (next, Success(started))
  }

  // ---- Sending a message -----------------------------------------------------------------------

  /** Where, if anywhere, the store fails during the send transaction. */
  datatype Fault = NoFault | FailsBeforeInsert | FailsAfterInsert

  predicate BadMessageBody(body: string) { body == "" || |body| > MAX_BODY }

  /**
   The send transaction.  Anything that goes wrong after the insert (a fault, or the check that
   last_message_at is not before created_at) rolls back, but the message id is gone.
   */
  function CreateMessage(st: State, conversationID: int, senderID: int, body: string, now: int, fault: Fault)
    : (State, Result<Message, ChatError>)
  {
    if fault.FailsBeforeInsert? then (st, Failure(StoreFailure))
    else if conversationID !in st.conversations || !IsParticipant(st.conversations[conversationID], senderID) then
      (st, Failure(ConversationNotFound))
    else
      var c := st.conversations[conversationID];
      var burned := st.(nextMessageID := st.nextMessageID + 1);
      if fault.FailsAfterInsert? || now < c.createdAt then (burned, Failure(StoreFailure))
      else
        var m := Message(st.nextMessageID, conversationID, senderID, body, now);
        (burned.(messages := st.messages[m.id := m],
                 conversations := st.conversations[c.id := c.(lastMessageAt := Some(now))]),
         Success(m))
  }

  function SendMessage(st: State, user: User, conversationID: int, text: string, now: int, fault: Fault)
    : (State, Result<Message, ChatError>)
  {
    if user.disabled then (st, Failure(UserDisabled))
    else
      var body := TrimSpace(text);
      if BadMessageBody(body) then (st, Failure(BadBody))
      else CreateMessage(st, conversationID, user.id, body, now, fault)
  }

  /** What the service asks the broker to publish once the message is committed. */
  function EventOf(m: Message, c: Conversation): BrokerModel.Event {
    BrokerModel.Event(c.id, m.id, c.sellerID, c.buyerID)
  }

  // ---- Read pointers ---------------------------------------------------------------------------

  function Advanced(pointer: Option<int>, messageID: int): Option<int> {
    if pointer.None? || pointer.value < messageID then Some(messageID) else pointer
  }

  function AdvanceReadPointer(c: Conversation, userID: int, messageID: int): Conversation {
    if c.sellerID == userID then c.(sellerRead := Advanced(c.sellerRead, messageID))
    else if c.buyerID == userID then c.(buyerRead := Advanced(c.buyerRead, messageID))
    else c
  }

  function MarkRefusal(st: State, userID: int, conversationID: int, messageID: int): Option<ChatError> {
    if messageID < 1 then Some(BadReadTarget)
    else if conversationID !in st.conversations || !IsParticipant(st.conversations[conversationID], userID) then
      Some(ConversationNotFound)
    else if messageID !in st.messages || st.messages[messageID].conversationID != conversationID then
      Some(InvalidReadTarget)
    else None
  }

  function MarkConversationRead(st: State, userID: int, conversationID: int, messageID: int)
    : (State, Option<ChatError>)
  {
    var refusal := MarkRefusal(st, userID, conversationID, messageID);
    if refusal.Some? then (st, refusal)
    else
      var c := AdvanceReadPointer(st.conversations[conversationID], userID, messageID);
      (st.(conversations := st.conversations[conversationID := c]), None)
  }

  function Pointer(c: Conversation, userID: int): Option<int> {
    if c.sellerID == userID then c.sellerRead else c.buyerRead
  }

  /** COALESCE(pointer, 0) */
  function Floor(pointer: Option<int>): int {
    if pointer.Some? then pointer.value else 0
  }

  /** A message of the other participant past the caller's pointer. */
  predicate IsUnread(st: State, conversationID: int, userID: int, id: int)
    requires conversationID in st.conversations
  {
    && id in st.messages
    && st.messages[id].conversationID == conversationID
    && st.messages[id].senderID != userID
    && id > Floor(Pointer(st.conversations[conversationID], userID))
  }

  /** The sub-select of the inbox. */
  function UnreadIDs(st: State, conversationID: int, userID: int): set<int>
    requires conversationID in st.conversations
  {
    set id | id in st.messages && IsUnread(st, conversationID, userID, id)
  }

  function UnreadCount(st: State, conversationID: int, userID: int): nat
    requires conversationID in st.conversations
  {
    |UnreadIDs(st, conversationID, userID)|
  }

  // ---- Runs ------------------------------------------------------------------------------------

  datatype Call =
    | Start(listing: Option<Listing>, user: User, now: int)
    | Send(user: User, conversationID: int, text: string, now: int, fault: Fault)
    | Mark(userID: int, conversationID: int, messageID: int)

  ghost function Apply(st: State, c: Call): State {
    match c
    case Start(listing, user, now) => StartConversation(st, listing, user, now).0
    case Send(user, conversationID, text, now, fault) => SendMessage(st, user, conversationID, text, now, fault).0
    case Mark(userID, conversationID, messageID) => MarkConversationRead(st, userID, conversationID, messageID).0
  }

  ghost function Run(st: State, calls: seq<Call>): State
    decreases |calls|
  {
    if calls == [] then st else Run(Apply(st, calls[0]), calls[1..])
  }

  // ---- What every run keeps --------------------------------------------------------------------

  ghost predicate PointsInside(st: State, conversationID: int, pointer: Option<int>) {
    pointer.Some? ==> pointer.value in st.messages && st.messages[pointer.value].conversationID == conversationID
  }

  ghost predicate ConversationOK(st: State, id: int)
    requires id in st.conversations
  {
    var c := st.conversations[id];
    && c.id == id && 1 <= id < st.nextConversationID && c.sellerID != c.buyerID
    && PointsInside(st, id, c.sellerRead) && PointsInside(st, id, c.buyerRead)
    && (c.lastMessageAt.Some? ==> c.createdAt <= c.lastMessageAt.value)
  }

  ghost predicate MessageOK(st: State, id: int)
    requires id in st.messages
  {
    var m := st.messages[id];
    && m.id == id && 1 <= id < st.nextMessageID && !BadMessageBody(m.body)
    && m.conversationID in st.conversations && IsParticipant(st.conversations[m.conversationID], m.senderID)
  }

  ghost predicate OneConversationPerTuple(st: State) {
    forall a, b | a in st.conversations && b in st.conversations
      && SameTuple(st.conversations[a], st.conversations[b].listingID, st.conversations[b].sellerID,
                   st.conversations[b].buyerID) :: a == b
  }

  ghost predicate Consistent(st: State) {
    && 1 <= st.nextConversationID && 1 <= st.nextMessageID
    && (forall id | id in st.conversations :: ConversationOK(st, id))
    && (forall id | id in st.messages :: MessageOK(st, id))
    && OneConversationPerTuple(st)
  }

  /** The states the tables' constraints allow; every reachable state is one. */
  type Chat = st: State | Consistent(st) ghost witness EMPTY

  /** What a call may change: rows stay, keep their identity, and pointers only move forward. */
  ghost predicate Progresses(st: State, next: State) {
    && st.nextMessageID <= next.nextMessageID && st.nextConversationID <= next.nextConversationID
    && (forall id | id in st.messages :: id in next.messages && next.messages[id] == st.messages[id])
    && (forall id | id in next.messages && id !in st.messages :: st.nextMessageID <= id)
    && (forall id | id in st.conversations :: id in next.conversations
          && SameConversation(st.conversations[id], next.conversations[id]))
  }

  predicate SameConversation(c: Conversation, d: Conversation) {
    && c.id == d.id && SameTuple(c, d.listingID, d.sellerID, d.buyerID) && c.createdAt == d.createdAt
    && NotBefore(c.sellerRead, d.sellerRead) && NotBefore(c.buyerRead, d.buyerRead)
  }

  predicate NotBefore(p: Option<int>, q: Option<int>) {
    p.Some? ==> q.Some? && p.value <= q.value
  }

  lemma StartKeeps(st: State, listing: Option<Listing>, user: User, now: int)
    requires Consistent(st)
    ensures var next := StartConversation(st, listing, user, now).0; Consistent(next) && Progresses(st, next)
  {
    var next := StartConversation(st, listing, user, now).0;
    forall id | id in next.messages ensures MessageOK(next, id) { assert MessageOK(st, id); }
    forall id | id in next.conversations ensures ConversationOK(next, id) {
      if id in st.conversations { assert ConversationOK(st, id); }
    }
    if StartRefusal(listing, user).None? && !HasTuple(st, listing.value.id, listing.value.sellerID, user.id) {
      forall id | id in st.conversations
        ensures !SameTuple(st.conversations[id], listing.value.id, listing.value.sellerID, user.id)
      {
        assert !Holds(st, id, listing.value.id, listing.value.sellerID, user.id);
      }
    }
  }

  lemma CreateKeeps(st: State, conversationID: int, senderID: int, body: string, now: int, fault: Fault)
    requires Consistent(st) && !BadMessageBody(body)
    ensures var next := CreateMessage(st, conversationID, senderID, body, now, fault).0;
      Consistent(next) && Progresses(st, next)
  {
    hide BadMessageBody;
    var next := CreateMessage(st, conversationID, senderID, body, now, fault).0;
    forall id | id in next.conversations ensures ConversationOK(next, id) { assert ConversationOK(st, id); }
    forall id | id in next.messages ensures MessageOK(next, id) {
      if id in st.messages { assert MessageOK(st, id); }
    }
    assert forall id | id in st.messages :: MessageOK(st, id) && id != st.nextMessageID;
  }

  lemma MarkKeeps(st: State, userID: int, conversationID: int, messageID: int)
    requires Consistent(st)
    ensures var next := MarkConversationRead(st, userID, conversationID, messageID).0;
      Consistent(next) && Progresses(st, next)
  {
    hide BadMessageBody;
    var next := MarkConversationRead(st, userID, conversationID, messageID).0;
    forall id | id in next.conversations ensures ConversationOK(next, id) { assert ConversationOK(st, id); }
    forall id | id in next.messages ensures MessageOK(next, id) { assert MessageOK(st, id); }
  }

  lemma SendKeeps(st: State, user: User, conversationID: int, text: string, now: int, fault: Fault)
    requires Consistent(st)
    ensures var next := SendMessage(st, user, conversationID, text, now, fault).0;
      Consistent(next) && Progresses(st, next)
  {
    hide Consistent, CreateMessage, TrimSpace, BadMessageBody;
    if !user.disabled && !BadMessageBody(TrimSpace(text)) {
      CreateKeeps(st, conversationID, user.id, TrimSpace(text), now, fault);
    }
  }

  lemma CallKeeps(st: State, c: Call)
    requires Consistent(st)
    ensures Consistent(Apply(st, c)) && Progresses(st, Apply(st, c))
  {
    hide Consistent, Progresses, StartConversation, SendMessage, MarkConversationRead;
    match c
    case Start(listing, user, now) => StartKeeps(st, listing, user, now);
    case Send(user, conversationID, text, now, fault) => SendKeeps(st, user, conversationID, text, now, fault);
    case Mark(userID, conversationID, messageID) => MarkKeeps(st, userID, conversationID, messageID);
  }

  /**
   In every run each read pointer is null or names a message of its own conversation, there is at
   most one conversation per (listing, seller, buyer), participants differ and senders take part;
   and nothing stored is lost or rewritten while pointers only move forward.
   */
  lemma {:induction false} EveryRunIsConsistent(st: State, calls: seq<Call>)
    requires Consistent(st)
    ensures Consistent(Run(st, calls)) && Progresses(st, Run(st, calls))
    decreases |calls|
  {
    if calls == [] {
    } else {
      CallKeeps(st, calls[0]);
      EveryRunIsConsistent(Apply(st, calls[0]), calls[1..]);
      ProgressIsTransitive(st, Apply(st, calls[0]), Run(st, calls));
    }
  }

  lemma ProgressIsTransitive(a: State, b: State, c: State)
    requires Progresses(a, b) && Progresses(b, c)
    ensures Progresses(a, c)
  {
    forall id | id in a.conversations
      ensures id in c.conversations && SameConversation(a.conversations[id], c.conversations[id])
    {
      assert id in b.conversations && SameConversation(a.conversations[id], b.conversations[id]);
    }
  }
}
