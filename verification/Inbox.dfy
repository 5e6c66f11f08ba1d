/** The inbox: a user's conversations by latest activity, with unread counts, page by page. */
module Inbox {
  import opened Wrappers
  import opened Keyset
  import opened ChatModel
  import opened ChatHistory

  const CHAT_CURSOR_VERSION := 1

  /** The text of a cursor: absent, undecodable, or its three fields (`activityAt` None: not a time). */
  datatype InboxCursor = NoCursor | Unreadable | Payload(version: int, activityAt: Option<int>, id: int)

  /** What the resume predicate of the query receives. */
  datatype InboxPosition = FromTop | Behind(activityAt: int, id: int)

  datatype Summary = Summary(
    conversation: Conversation, counterpartID: int, latest: Option<Message>, unread: nat)

  datatype InboxPage = InboxPage(items: seq<Summary>, next: InboxCursor)

  datatype InboxError = BadInboxLimit | BadInboxCursor

  // ---- The query -------------------------------------------------------------------------------

  function Coalesce(value: Option<int>, fallback: int): int {
    if value.Some? then value.value else fallback
  }

  predicate ResumesInbox(p: InboxPosition, c: Conversation) {
    p.FromTop? || RowLess(Coalesce(c.lastMessageAt, c.createdAt), c.id, p.activityAt, p.id)
  }

  /** ORDER BY COALESCE(last_message_at, created_at) DESC, id DESC */
  function ActivityKey(c: Conversation): Key { Key(0, -Coalesce(c.lastMessageAt, c.createdAt), -c.id) }

  ghost function ConversationsOf(st: Chat, userID: int): set<Conversation> {
    set id | id in st.conversations && IsParticipant(st.conversations[id], userID) :: st.conversations[id]
  }

  lemma ConversationIsStored(st: Chat, userID: int, c: Conversation)
    requires c in ConversationsOf(st, userID)
    ensures c.id in st.conversations && st.conversations[c.id] == c && IsParticipant(c, userID)
  {
    var id :| id in st.conversations && st.conversations[id] == c && IsParticipant(c, userID);
    assert ConversationOK(st, id);
  }

  lemma ConversationsSeparate(st: Chat, userID: int, rows: set<Conversation>)
    requires rows <= ConversationsOf(st, userID)
    ensures Separates(rows, ActivityKey)
  {
    forall a, b | a in rows && b in rows && ActivityKey(a) == ActivityKey(b) ensures a == b {
      ConversationIsStored(st, userID, a);
      ConversationIsStored(st, userID, b);
    }
  }

  /** One result row: the read pointers are not selected, and the latest message comes from a lateral join. */
  ghost function Summarise(st: Chat, userID: int, c: Conversation): Summary {
    var latest := ListMessagesBefore(st, c.id, None, 1);
    Summary(c.(sellerRead := None, buyerRead := None),
            if c.sellerID == userID then c.buyerID else c.sellerID,
            if latest == [] then None else Some(latest[0]),
            if c.id in st.conversations then UnreadCount(st, c.id, userID) else 0)
  }

  ghost function Summaries(st: Chat, userID: int, rows: seq<Conversation>): seq<Summary> {
    seq(|rows|, i requires 0 <= i < |rows| => Summarise(st, userID, rows[i]))
  }

  ghost function SelectConversations(st: Chat, userID: int, p: InboxPosition, limit: nat): seq<Summary> {
    var rows := set c | c in ConversationsOf(st, userID) && ResumesInbox(p, c);
    ConversationsSeparate(st, userID, rows);
    Summaries(st, userID, Limit(OrderBy(rows, ActivityKey), limit))
  }

  // ---- The service -----------------------------------------------------------------------------

  function DecodeInboxCursor(c: InboxCursor): Result<InboxPosition, InboxError> {
    match c
    case NoCursor => Success(FromTop)
    case Unreadable => Failure(BadInboxCursor)
    case Payload(version, activityAt, id) =>
      if version != CHAT_CURSOR_VERSION || id < 1 || activityAt.None? then Failure(BadInboxCursor)
      else Success(Behind(activityAt.value, id))
  }

  function EncodeInboxCursor(activityAt: int, id: int): InboxCursor {
    Payload(CHAT_CURSOR_VERSION, Some(activityAt), id)
  }

  function CutInbox(rows: seq<Summary>, limit: nat): InboxPage
    requires limit >= 1
  {
    if |rows| <= limit then InboxPage(rows, NoCursor)
    else
      var last := rows[limit - 1].conversation;
      var activityAt := if last.lastMessageAt.Some? then last.lastMessageAt.value else last.createdAt;
      InboxPage(rows[..limit], EncodeInboxCursor(activityAt, last.id))
  }

  ghost function ListConversations(st: Chat, userID: int, cursor: InboxCursor, limit: int)
    : Result<InboxPage, InboxError>
  {
    if !IsChatLimit(limit) then Failure(BadInboxLimit)
    else
      var p :- DecodeInboxCursor(cursor);
      Success(CutInbox(SelectConversations(st, userID, p, ChatPageSize(limit) + 1), ChatPageSize(limit)))
  }

  // ---- Positions are keys ----------------------------------------------------------------------

  function InboxKey(p: InboxPosition): Option<Key> {
    if p.FromTop? then None else Some(Key(0, -p.activityAt, -p.id))
  }

  /** The row comparison of the WHERE clause is "strictly after" in the ORDER BY. */
  lemma InboxResumeMatchesOrder(p: InboxPosition, c: Conversation)
    ensures ResumesInbox(p, c) <==> After(InboxKey(p), ActivityKey(c))
  {
  }

  lemma SelectIsRemaining(st: Chat, userID: int, p: InboxPosition, limit: nat)
    ensures Separates(ConversationsOf(st, userID), ActivityKey)
    ensures SelectConversations(st, userID, p, limit)
      == Summaries(st, userID, Limit(Remaining(ConversationsOf(st, userID), ActivityKey, InboxKey(p)), limit))
  {
    ConversationsSeparate(st, userID, ConversationsOf(st, userID));
    forall c ensures ResumesInbox(p, c) <==> After(InboxKey(p), ActivityKey(c)) {
      InboxResumeMatchesOrder(p, c);
    }
    assert (set c | c in ConversationsOf(st, userID) && ResumesInbox(p, c))
      == Resumed(ConversationsOf(st, userID), ActivityKey, InboxKey(p));
  }

  lemma SummariesSplit(st: Chat, userID: int, rows: seq<Conversation>, n: nat)
    requires n <= |rows|
    ensures Summaries(st, userID, rows[..n]) + Summaries(st, userID, rows[n..]) == Summaries(st, userID, rows)
  {
    hide Summarise;
  }

  /** The page cut out of limit + 1 fetched rows, and the activity time the service puts in its cursor. */
  lemma CutOfSummaries(st: Chat, userID: int, rest: seq<Conversation>, n: nat)
    requires n >= 1
    ensures CutInbox(Summaries(st, userID, Limit(rest, n + 1)), n)
      == if |rest| <= n then InboxPage(Summaries(st, userID, rest), NoCursor)
         else InboxPage(Summaries(st, userID, rest[..n]),
                        EncodeInboxCursor(Coalesce(rest[n - 1].lastMessageAt, rest[n - 1].createdAt), rest[n - 1].id))
  {
    if |rest| > n {
      assert Summaries(st, userID, rest[..n + 1])[..n] == Summaries(st, userID, rest[..n]);
    }
  }

  /** What a page leaves for later: the rows behind its cursor, or nothing when there is no cursor. */
  ghost predicate LeavesRest(st: Chat, userID: int, page: InboxPage, rest: seq<Conversation>)
    requires Separates(ConversationsOf(st, userID), ActivityKey)
  {
    && DecodeInboxCursor(page.next).Success?
    && (page.next.NoCursor? ==> page.items == Summaries(st, userID, rest))
    && (!page.next.NoCursor? ==>
          && var p := DecodeInboxCursor(page.next).value;
          var later := Remaining(ConversationsOf(st, userID), ActivityKey, InboxKey(p));
          page.items != [] && page.items + Summaries(st, userID, later) == Summaries(st, userID, rest))
  }

  lemma CutLeavesRest(st: Chat, userID: int, p: InboxPosition, n: nat)
    requires n >= 1 && Separates(ConversationsOf(st, userID), ActivityKey)
    ensures var rest := Remaining(ConversationsOf(st, userID), ActivityKey, InboxKey(p));
      LeavesRest(st, userID, CutInbox(Summaries(st, userID, Limit(rest, n + 1)), n), rest)
  {
    hide Summarise, ConversationsOf, Remaining, CutInbox;
    var rest := Remaining(ConversationsOf(st, userID), ActivityKey, InboxKey(p));
    CutOfSummaries(st, userID, rest, n);
    if |rest| > n {
      SummariesSplit(st, userID, rest, n);
      ResumeDropsPrefix(ConversationsOf(st, userID), ActivityKey, InboxKey(p), n);
      LastRowIsStored(st, userID, p, n);
    }
  }

  lemma InboxPageIs(st: Chat, userID: int, cursor: InboxCursor, limit: int)
    requires IsChatLimit(limit) && DecodeInboxCursor(cursor).Success?
    ensures Separates(ConversationsOf(st, userID), ActivityKey)
    ensures ListConversations(st, userID, cursor, limit).Success?
    ensures LeavesRest(st, userID, ListConversations(st, userID, cursor, limit).value,
                       Remaining(ConversationsOf(st, userID), ActivityKey, InboxKey(DecodeInboxCursor(cursor).value)))
  {
    hide Summarise, ConversationsOf, Remaining, LeavesRest, SelectConversations, CutInbox, Limit;
    var p := DecodeInboxCursor(cursor).value;
    SelectIsRemaining(st, userID, p, ChatPageSize(limit) + 1);
    CutLeavesRest(st, userID, p, ChatPageSize(limit));
  }

  lemma LastRowIsStored(st: Chat, userID: int, p: InboxPosition, n: nat)
    requires n >= 1 && Separates(ConversationsOf(st, userID), ActivityKey)
    requires n <= |Remaining(ConversationsOf(st, userID), ActivityKey, InboxKey(p))|
    ensures Remaining(ConversationsOf(st, userID), ActivityKey, InboxKey(p))[n - 1].id >= 1
  {
    var c := Remaining(ConversationsOf(st, userID), ActivityKey, InboxKey(p))[n - 1];
    RemainingMembers(ConversationsOf(st, userID), ActivityKey, InboxKey(p), c);
    ConversationIsStored(st, userID, c);
    assert ConversationOK(st, c.id);
  }

  // ---- The walk --------------------------------------------------------------------------------

  /** Follow the next cursor until it is absent. */
  ghost function WalkInbox(st: Chat, userID: int, cursor: InboxCursor, limits: seq<int>): (seq<Summary>, bool)
    decreases |limits|
  {
    if limits == [] then ([], false)
    else
      var page := ListConversations(st, userID, cursor, limits[0]);
      if page.Failure? then ([], false)
      else if page.value.next.NoCursor? then (page.value.items, true)
      else
        var (rest, done) := WalkInbox(st, userID, page.value.next, limits[1..]);
        (page.value.items + rest, done)
  }

  lemma {:induction false} WalkInboxYieldsRest(st: Chat, userID: int, cursor: InboxCursor, limits: seq<int>)
    requires AreChatLimits(limits) && DecodeInboxCursor(cursor).Success?
    ensures Separates(ConversationsOf(st, userID), ActivityKey)
    ensures var p := DecodeInboxCursor(cursor).value;
      var rest := Remaining(ConversationsOf(st, userID), ActivityKey, InboxKey(p));
      Yields(WalkInbox(st, userID, cursor, limits), Summaries(st, userID, rest), |limits|)
    decreases |limits|
  {
    hide ListConversations, ConversationsOf, Summarise, Remaining;
    ConversationsSeparate(st, userID, ConversationsOf(st, userID));
    if limits == [] {
    } else {
      InboxPageIs(st, userID, cursor, limits[0]);
      var page := ListConversations(st, userID, cursor, limits[0]).value;
      if !page.next.NoCursor? {
        WalkInboxYieldsRest(st, userID, page.next, limits[1..]);
        var rest := Remaining(ConversationsOf(st, userID), ActivityKey, InboxKey(DecodeInboxCursor(page.next).value));
        StepYields(page.items, WalkInbox(st, userID, page.next, limits[1..]), Summaries(st, userID, rest), |limits|);
      }
    }
  }

  /** The whole inbox of a user: each conversation once, latest activity first. */
  ghost function WholeInbox(st: Chat, userID: int): seq<Conversation> {
    ConversationsSeparate(st, userID, ConversationsOf(st, userID));
    OrderBy(ConversationsOf(st, userID), ActivityKey)
  }

  predicate MoreRecent(a: Conversation, b: Conversation) {
    RowLess(Coalesce(b.lastMessageAt, b.createdAt), b.id, Coalesce(a.lastMessageAt, a.createdAt), a.id)
  }

  lemma WholeInboxIsSorted(st: Chat, userID: int)
    ensures forall c :: (c in WholeInbox(st, userID)
      <==> c.id in st.conversations && st.conversations[c.id] == c && IsParticipant(c, userID))
    ensures var all := WholeInbox(st, userID); forall i, j | 0 <= i < j < |all| :: MoreRecent(all[i], all[j])
  {
    var all := WholeInbox(st, userID);
    forall c ensures c in all <==> c.id in st.conversations && st.conversations[c.id] == c && IsParticipant(c, userID) {
      assert c in all <==> c in Elements(all);
      if c in all { ConversationIsStored(st, userID, c); }
    }
    forall i, j | 0 <= i < j < |all| ensures MoreRecent(all[i], all[j]) {
      assert Precedes(ActivityKey(all[i]), ActivityKey(all[j]));
    }
  }

  /**
   For any limits that change from page to page, following the inbox cursor until it is absent lists
   exactly the user's conversations, each once, by descending activity and id; the cursor does
   become absent.
   */
  lemma InboxWalkIsWholeInbox(st: Chat, userID: int, limits: seq<int>)
    requires AreChatLimits(limits)
    ensures Yields(WalkInbox(st, userID, NoCursor, limits), Summaries(st, userID, WholeInbox(st, userID)), |limits|)
  {
    hide WalkInbox, Summarise;
    WalkInboxYieldsRest(st, userID, NoCursor, limits);
    assert Resumed(ConversationsOf(st, userID), ActivityKey, None) == ConversationsOf(st, userID);
  }

  /** A summary names the other participant, the last message of the history, and the true unread count. */
  lemma SummaryIsAccurate(st: Chat, userID: int, c: Conversation)
    requires c in ConversationsOf(st, userID)
    ensures var s, h := Summarise(st, userID, c), History(st, c.id);
      && c.id in st.conversations
      && s.counterpartID != userID && IsParticipant(c, s.counterpartID)
      && s.latest == (if h == [] then None else Some(h[|h| - 1]))
      && s.unread == UnreadCount(st, c.id, userID)
  {
    ConversationIsStored(st, userID, c);
    assert ConversationOK(st, c.id);
    hide Consistent, History, ListMessagesBefore, UnreadCount, ConversationsOf;
    var h := History(st, c.id);
    var latest := ListMessagesBefore(st, c.id, None, 1);
    BeforePageIsLastStretch(st, c.id, None, 1);
    assert Reversed(latest) == LastN(h[..|h|], 1);
    assert |latest| == |Reversed(latest)|;
    if h != [] {
      assert latest[0] == Reversed(latest)[0];
    }
  }

  // ---- What the inbox accepts ------------------------------------------------------------------

  /** A cursor is refused unless it is absent, or of version 1 with a positive identifier and a time. */
  lemma InboxIsRefusedInOrder(st: Chat, userID: int, cursor: InboxCursor, limit: int)
    ensures var result := ListConversations(st, userID, cursor, limit);
      if !(0 <= limit <= 100) then result == Failure(BadInboxLimit)
      else if cursor == NoCursor
        || (cursor.Payload? && cursor.version == 1 && cursor.id >= 1 && cursor.activityAt.Some?) then result.Success?
      else result == Failure(BadInboxCursor)
  {
    hide SelectConversations, CutInbox;
  }

  /** Twenty conversations unless the request says how many; a cursor exactly when there are more. */
  lemma FirstInboxPageIs(st: Chat, userID: int, limit: int)
    requires 0 <= limit <= 100
    ensures var n := if limit == 0 then 20 else limit;
      var all, page := WholeInbox(st, userID), ListConversations(st, userID, NoCursor, limit);
      && page.Success?
      && page.value.items == Summaries(st, userID, if |all| <= n then all else all[..n])
      && (page.value.next == NoCursor <==> |all| <= n)
  {
    hide Summarise, CutInbox, SelectConversations, ConversationsOf, Remaining, WholeInbox, Summaries, Limit;
    var n: nat := if limit == 0 then 20 else limit;
    SelectIsRemaining(st, userID, FromTop, n + 1);
    NothingBehindTop(st, userID);
    CutOfSummaries(st, userID, WholeInbox(st, userID), n);
  }

  lemma NothingBehindTop(st: Chat, userID: int)
    requires Separates(ConversationsOf(st, userID), ActivityKey)
    ensures Remaining(ConversationsOf(st, userID), ActivityKey, None) == WholeInbox(st, userID)
  {
    hide ConversationsOf;
    assert Resumed(ConversationsOf(st, userID), ActivityKey, None) == ConversationsOf(st, userID);
  }

  /** The whole inbox by the rows' own fields: latest message, or creation while there is none. */
  lemma InboxOrderIs(st: Chat, userID: int, i: nat, j: nat)
    requires i < j < |WholeInbox(st, userID)|
    ensures var a, b := WholeInbox(st, userID)[i], WholeInbox(st, userID)[j];
      var at := if a.lastMessageAt.Some? then a.lastMessageAt.value else a.createdAt;
      var earlier := if b.lastMessageAt.Some? then b.lastMessageAt.value else b.createdAt;
      at > earlier || (at == earlier && a.id > b.id)
  {
    hide WholeInbox;
    WholeInboxIsSorted(st, userID);
    assert MoreRecent(WholeInbox(st, userID)[i], WholeInbox(st, userID)[j]);
  }
}
