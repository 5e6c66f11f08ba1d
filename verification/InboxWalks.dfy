/** Inbox walks while people keep starting conversations, sending messages and marking them read. */
module InboxWalks {
  import opened Wrappers
  import opened Keyset
  import opened ChatModel
  import opened ChatHistory
  import opened Inbox

  datatype Client = Client(cursor: InboxCursor, done: bool, shown: seq<Summary>)

  datatype Op = ChatOp(call: Call) | PageOp(limit: int)

  datatype Session = Session(st: Chat, client: Client)

  const FRESH := Client(NoCursor, false, [])

  ghost function StepChat(st: Chat, c: Call): Chat {
    CallKeeps(st, c);
    ChatModel.Apply(st, c)
  }

  /** A refused request shows nothing and leaves the client where it was. */
  ghost function FetchPage(st: Chat, userID: int, c: Client, limit: int): Client {
    if c.done then c
    else
      match ListConversations(st, userID, c.cursor, limit)
      case Failure(_) => c
      case Success(page) => Client(page.next, page.next.NoCursor?, c.shown + page.items)
  }

  ghost function ApplyOp(s: Session, userID: int, op: Op): Session {
    match op
    case ChatOp(call) => s.(st := StepChat(s.st, call))
    case PageOp(limit) => s.(client := FetchPage(s.st, userID, s.client, limit))
  }

  ghost function RunOps(s: Session, userID: int, ops: seq<Op>): Session
    decreases |ops|
  {
    if ops == [] then s else RunOps(ApplyOp(s, userID, ops[0]), userID, ops[1..])
  }

  // ---- A session is a keyset walk over conversations -------------------------------------------

  function Plain(c: Conversation): Conversation { c.(sellerRead := None, buyerRead := None) }

  ghost predicate ShowsRows(shown: seq<Summary>, rows: seq<Conversation>) {
    |shown| == |rows| && forall i | 0 <= i < |rows| :: shown[i].conversation == Plain(rows[i])
  }

  ghost predicate Linked(c: Client, w: Walk<Conversation>) {
    && c.done == w.done && ShowsRows(c.shown, w.shown)
    && Coherent(w, ActivityKey)
    && (!c.done ==> DecodeInboxCursor(c.cursor).Success? && InboxKey(DecodeInboxCursor(c.cursor).value) == w.cursor)
  }

  ghost function Advance(st: Chat, userID: int, op: Op, w: Walk<Conversation>): Walk<Conversation> {
    if op.PageOp? && IsChatLimit(op.limit) then
      ConversationsSeparate(st, userID, ConversationsOf(st, userID));
      WalkStep(w, Request(ConversationsOf(st, userID), ChatPageSize(op.limit)), ActivityKey)
    else w
  }

  lemma SummariesShowRows(st: Chat, userID: int, rows: seq<Conversation>)
    ensures ShowsRows(Summaries(st, userID, rows), rows)
  {
  }

  lemma CutIsPageAt(st: Chat, userID: int, p: InboxPosition, n: nat)
    requires n >= 1 && Separates(ConversationsOf(st, userID), ActivityKey)
    ensures var rows := ConversationsOf(st, userID);
      var page := PageAt(rows, ActivityKey, InboxKey(p), n);
      var cut := CutInbox(Summaries(st, userID, Limit(Remaining(rows, ActivityKey, InboxKey(p)), n + 1)), n);
      && cut.items == Summaries(st, userID, page.items)
      && DecodeInboxCursor(cut.next).Success?
      && InboxKey(DecodeInboxCursor(cut.next).value) == page.next
      && (cut.next.NoCursor? <==> page.next.None?)
  {
    hide Summarise, ConversationsOf, Remaining, CutInbox;
    var rest := Remaining(ConversationsOf(st, userID), ActivityKey, InboxKey(p));
    CutOfSummaries(st, userID, rest, n);
    CutOfLimited(rest, n, ActivityKey);
    if |rest| > n {
      LastRowIsStored(st, userID, p, n);
    }
  }

  lemma FetchIsWalkStep(st: Chat, userID: int, c: Client, w: Walk<Conversation>, limit: int)
    requires Linked(c, w) && IsChatLimit(limit)
    ensures Linked(FetchPage(st, userID, c, limit), Advance(st, userID, PageOp(limit), w))
  {
    hide Summaries, ConversationsOf, Remaining, CutInbox, SelectConversations, PageAt;
    var rows := ConversationsOf(st, userID);
    ConversationsSeparate(st, userID, rows);
    StepStaysCoherent(w, Request(rows, ChatPageSize(limit)), ActivityKey);
    if !c.done {
      var p := DecodeInboxCursor(c.cursor).value;
      SelectIsRemaining(st, userID, p, ChatPageSize(limit) + 1);
      CutIsPageAt(st, userID, p, ChatPageSize(limit));
      SummariesShowRows(st, userID, PageAt(rows, ActivityKey, w.cursor, ChatPageSize(limit)).items);
    }
  }

  lemma ApplyIsAdvance(s: Session, userID: int, op: Op, w: Walk<Conversation>)
    requires Linked(s.client, w)
    ensures Linked(ApplyOp(s, userID, op).client, Advance(s.st, userID, op, w))
  {
    hide Linked, Consistent, SelectConversations, CutInbox;
    if op.PageOp? && IsChatLimit(op.limit) {
      FetchIsWalkStep(s.st, userID, s.client, w, op.limit);
    }
  }

  // ---- No conversation twice -------------------------------------------------------------------

  function Activity(c: Conversation): int { Coalesce(c.lastMessageAt, c.createdAt) }

  function ConversationID(c: Conversation): int { c.id }

  /** Every conversation shown so far still exists and has not become less recent. */
  ghost predicate StaysAhead(st: Chat, rows: seq<Conversation>) {
    forall i | 0 <= i < |rows| ::
      rows[i].id in st.conversations && Activity(rows[i]) <= Activity(st.conversations[rows[i].id])
  }

  /** Messages are never dated before the activity of their conversation. */
  ghost predicate ClockForward(s: Session, userID: int, ops: seq<Op>)
    decreases |ops|
  {
    ops != [] ==>
      && (ops[0].ChatOp? && ops[0].call.Send? && ops[0].call.conversationID in s.st.conversations ==>
            Activity(s.st.conversations[ops[0].call.conversationID]) <= ops[0].call.now)
      && ClockForward(ApplyOp(s, userID, ops[0]), userID, ops[1..])
  }

  lemma CallStaysAhead(st: Chat, c: Call, rows: seq<Conversation>)
    requires StaysAhead(st, rows)
    requires c.Send? && c.conversationID in st.conversations ==> Activity(st.conversations[c.conversationID]) <= c.now
    ensures StaysAhead(StepChat(st, c), rows)
  {
    hide Consistent;
    forall id | id in st.conversations
      ensures id in StepChat(st, c).conversations
        && Activity(st.conversations[id]) <= Activity(StepChat(st, c).conversations[id])
    {
      CallKeepsActivityTime(st, c, id);
    }
  }

  /** Only a committed message changes an activity, and only that of its own conversation. */
  lemma CallKeepsActivityTime(st: Chat, c: Call, id: int)
    requires id in st.conversations
    ensures id in StepChat(st, c).conversations
    ensures var was, now := st.conversations[id], StepChat(st, c).conversations[id];
      && now.id == was.id && (forall u :: IsParticipant(now, u) <==> IsParticipant(was, u))
      && (Activity(now) == Activity(was)
          || (c.Send? && c.conversationID == id && SendMessage(st, c.user, id, c.text, c.now, c.fault).1.Success?
              && Activity(now) == c.now))
  {
    hide Text.TrimSpace, BadMessageBody, MessageOK, OneConversationPerTuple;
    assert ConversationOK(st, id);
  }

  lemma PageIsNew(st: Chat, userID: int, w: Walk<Conversation>, limit: nat)
    requires limit >= 1 && Coherent(w, ActivityKey) && !w.done
    requires StaysAhead(st, w.shown) && Distinct(w.shown, ConversationID)
    requires Separates(ConversationsOf(st, userID), ActivityKey)
    ensures var next := WalkStep(w, Request(ConversationsOf(st, userID), limit), ActivityKey);
      StaysAhead(st, next.shown) && Distinct(next.shown, ConversationID)
  {
    hide ConversationsOf, Consistent, PageAt;
    var items := PageAt(ConversationsOf(st, userID), ActivityKey, w.cursor, limit).items;
    PageIsAhead(ConversationsOf(st, userID), ActivityKey, w.cursor, limit);
    forall j | 0 <= j < |items| ensures items[j].id in st.conversations && st.conversations[items[j].id] == items[j] {
      assert items[j] in items;
      ConversationIsStored(st, userID, items[j]);
    }
    forall i, j | 0 <= i < j < |items| ensures items[i].id != items[j].id {
      assert Precedes(ActivityKey(items[i]), ActivityKey(items[j]));
    }
    forall i, j | 0 <= i < |w.shown| && 0 <= j < |items| ensures w.shown[i].id != items[j].id {
      assert items[j] in items && After(w.cursor, ActivityKey(items[j]));
      assert i < |w.shown| - 1 ==> Precedes(ActivityKey(w.shown[i]), ActivityKey(w.shown[|w.shown| - 1]));
    }
    AppendDistinct(st, w.shown, items);
  }

  lemma AppendDistinct(st: Chat, shown: seq<Conversation>, items: seq<Conversation>)
    requires Distinct(shown, ConversationID) && Distinct(items, ConversationID) && StaysAhead(st, shown)
    requires forall i, j | 0 <= i < |shown| && 0 <= j < |items| :: shown[i].id != items[j].id
    requires forall j | 0 <= j < |items| :: items[j].id in st.conversations && st.conversations[items[j].id] == items[j]
    ensures Distinct(shown + items, ConversationID) && StaysAhead(st, shown + items)
  {
    hide Consistent;
  }

  lemma StepKeepsDistinct(s: Session, userID: int, op: Op, w: Walk<Conversation>)
    requires Linked(s.client, w) && StaysAhead(s.st, w.shown) && Distinct(w.shown, ConversationID)
    requires op.ChatOp? && op.call.Send? && op.call.conversationID in s.st.conversations ==>
      Activity(s.st.conversations[op.call.conversationID]) <= op.call.now
    ensures var next := Advance(s.st, userID, op, w);
      StaysAhead(ApplyOp(s, userID, op).st, next.shown) && Distinct(next.shown, ConversationID)
  {
    hide Consistent, ConversationsOf;
    if op.ChatOp? {
      CallStaysAhead(s.st, op.call, w.shown);
    } else {
      assert ApplyOp(s, userID, op).st == s.st;
      if IsChatLimit(op.limit) {
        ConversationsSeparate(s.st, userID, ConversationsOf(s.st, userID));
        if !w.done { PageIsNew(s.st, userID, w, ChatPageSize(op.limit)); }
      }
    }
  }

  function SummaryID(s: Summary): int { s.conversation.id }

  /**
   Whatever is started, sent and marked between the pages, an inbox walk lists no conversation twice
   as long as messages are not dated before the activity they replace.
   */
  lemma {:induction false} NoConversationTwice(s: Session, userID: int, ops: seq<Op>, w: Walk<Conversation>)
    requires Linked(s.client, w) && StaysAhead(s.st, w.shown) && Distinct(w.shown, ConversationID)
    requires ClockForward(s, userID, ops)
    ensures Distinct(RunOps(s, userID, ops).client.shown, SummaryID)
    decreases |ops|
  {
    hide FetchPage, StepChat, Advance, StaysAhead, Coherent;
    if ops == [] {
      var shown := s.client.shown;
      forall i, j | 0 <= i < j < |shown| ensures shown[i].conversation.id != shown[j].conversation.id {
        assert w.shown[i].id != w.shown[j].id;
      }
    } else {
      ApplyIsAdvance(s, userID, ops[0], w);
      StepKeepsDistinct(s, userID, ops[0], w);
      NoConversationTwice(ApplyOp(s, userID, ops[0]), userID, ops[1..], Advance(s.st, userID, ops[0], w));
    }
  }

  // ---- Nothing quiet is missed -----------------------------------------------------------------

  /** No message is committed to the conversation during the run. */
  ghost predicate IsQuiet(s: Session, userID: int, ops: seq<Op>, id: int)
    decreases |ops|
  {
    ops != [] ==>
      && !CommitsTo(s.st, ops[0], id)
      && IsQuiet(ApplyOp(s, userID, ops[0]), userID, ops[1..], id)
  }

  predicate CommitsTo(st: Chat, op: Op, id: int) {
    && op.ChatOp? && op.call.Send? && op.call.conversationID == id
    && SendMessage(st, op.call.user, id, op.call.text, op.call.now, op.call.fault).1.Success?
  }

  /** The position is already shown, or still lies ahead of the cursor. */
  ghost predicate ShownOrAhead(w: Walk<Conversation>, k: Key) {
    Shown(w, ActivityKey, k) || (!w.done && After(w.cursor, k))
  }

  lemma StepKeepsShownOrAhead(s: Session, userID: int, op: Op, w: Walk<Conversation>, id: int)
    requires id in s.st.conversations && IsParticipant(s.st.conversations[id], userID)
    requires ShownOrAhead(w, ActivityKey(s.st.conversations[id]))
    ensures ShownOrAhead(Advance(s.st, userID, op, w), ActivityKey(s.st.conversations[id]))
  {
    hide Consistent, PageAt;
    var k := ActivityKey(s.st.conversations[id]);
    if op.PageOp? && IsChatLimit(op.limit) && !w.done {
      var rows := ConversationsOf(s.st, userID);
      ConversationsSeparate(s.st, userID, rows);
      assert s.st.conversations[id] in rows;
      if Shown(w, ActivityKey, k) {
        var r :| r in w.shown && ActivityKey(r) == k;
        assert r in WalkStep(w, Request(rows, ChatPageSize(op.limit)), ActivityKey).shown;
      } else {
        StepPassesOrShows(w, Request(rows, ChatPageSize(op.limit)), ActivityKey, k);
      }
    }
  }

  /**
   A conversation of the user that gets no new message during the walk is listed by every inbox walk
   that finishes, whatever happens to the others.
   */
  lemma {:induction false} QuietConversationIsListed(
      s: Session, userID: int, ops: seq<Op>, w: Walk<Conversation>, id: int)
    requires Linked(s.client, w) && id in s.st.conversations && IsParticipant(s.st.conversations[id], userID)
    requires ShownOrAhead(w, ActivityKey(s.st.conversations[id])) && IsQuiet(s, userID, ops, id)
    ensures var end := RunOps(s, userID, ops).client;
      end.done ==> Lists(end.shown, SummaryID, id)
    decreases |ops|
  {
    var c := s.st.conversations[id];
    assert ConversationOK(s.st, id);
    hide Advance, Consistent, FetchPage, ShownOrAhead, StepChat, Coherent;
    if ops == [] {
      ListedAtEnd(s.client, w, c);
    } else {
      var next := ApplyOp(s, userID, ops[0]);
      ApplyIsAdvance(s, userID, ops[0], w);
      StepKeepsShownOrAhead(s, userID, ops[0], w, id);
      if ops[0].ChatOp? { CallKeepsActivityTime(s.st, ops[0].call, id); }
      QuietConversationIsListed(next, userID, ops[1..], Advance(s.st, userID, ops[0], w), id);
    }
  }

  lemma ListedAtEnd(client: Client, w: Walk<Conversation>, c: Conversation)
    requires Linked(client, w) && ShownOrAhead(w, ActivityKey(c))
    ensures client.done ==> Lists(client.shown, SummaryID, c.id)
  {
    if client.done {
      var r :| r in w.shown && ActivityKey(r) == ActivityKey(c);
      var i :| 0 <= i < |w.shown| && w.shown[i] == r;
      assert SummaryID(client.shown[i]) == c.id;
    }
  }

  /** Both, for a walk from the top. */
  lemma InboxWalkAmidWrites(st: Chat, userID: int, ops: seq<Op>, id: int)
    ensures var s := Session(st, FRESH);
      var end := RunOps(s, userID, ops).client;
      && (ClockForward(s, userID, ops) ==> Distinct(end.shown, SummaryID))
      && (id in st.conversations && IsParticipant(st.conversations[id], userID) && IsQuiet(s, userID, ops, id) ==>
            end.done ==> Lists(end.shown, SummaryID, id))
  {
    hide RunOps, Consistent;
    var s := Session(st, FRESH);
    if ClockForward(s, userID, ops) {
      NoConversationTwice(s, userID, ops, Keyset.Start());
    }
    if id in st.conversations && IsParticipant(st.conversations[id], userID) && IsQuiet(s, userID, ops, id) {
      QuietConversationIsListed(s, userID, ops, Keyset.Start(), id);
    }
  }

  // ---- The calls of a session ------------------------------------------------------------------

  function CallsOf(ops: seq<Op>): seq<Call>
    decreases |ops|
  {
    if ops == [] then []
    else (if ops[0].ChatOp? then [ops[0].call] else []) + CallsOf(ops[1..])
  }

  /** A session leaves the chat that its calls leave; reading the inbox changes no row. */
  lemma {:induction false} SessionRunsCalls(s: Session, userID: int, ops: seq<Op>)
    ensures RunOps(s, userID, ops).st == ChatModel.Run(s.st, CallsOf(ops))
    decreases |ops|
  {
    hide Consistent, ChatModel.Apply, FetchPage;
    if ops == [] {
    } else {
      var rest := CallsOf(ops[1..]);
      if ops[0].ChatOp? {
        assert ([ops[0].call] + rest)[1..] == rest;
      } else {
        assert [] + rest == rest;
      }
      SessionRunsCalls(ApplyOp(s, userID, ops[0]), userID, ops[1..]);
    }
  }
}
