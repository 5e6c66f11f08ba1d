/** Exactly which conversations an inbox walk lists, and exactly when it repeats one, while messages arrive. */
module InboxTurns {
  import opened Keyset
  import opened ChatModel
  import opened ChatHistory
  import opened Inbox
  import opened InboxWalks

  /** The user's conversations that lie behind the position and are more recent than `c`. */
  ghost function MoreRecentThan(st: Chat, userID: int, p: InboxPosition, c: Conversation): set<Conversation> {
    set d | d in ConversationsOf(st, userID) && ResumesInbox(p, d) && MoreRecent(d, c)
  }

  /** The user takes part in the conversation, and it lies behind the client's cursor. */
  predicate IsAhead(st: Chat, userID: int, c: Client, id: int) {
    && id in st.conversations && IsParticipant(st.conversations[id], userID)
    && DecodeInboxCursor(c.cursor).Success?
    && ResumesInbox(DecodeInboxCursor(c.cursor).value, st.conversations[id])
  }

  /** The next page lists the conversation: it is ahead, and fewer than a page of others are more recent. */
  ghost predicate TurnComes(st: Chat, userID: int, c: Client, limit: int, id: int) {
    && !c.done && IsChatLimit(limit) && IsAhead(st, userID, c, id)
    && |MoreRecentThan(st, userID, DecodeInboxCursor(c.cursor).value, st.conversations[id])| < ChatPageSize(limit)
  }

  /** The next page lists some conversation again. */
  ghost predicate Relists(st: Chat, userID: int, c: Client, limit: int) {
    exists i :: 0 <= i < |c.shown| && TurnComes(st, userID, c, limit, SummaryID(c.shown[i]))
  }

  ghost predicate NeverRelists(s: Session, userID: int, ops: seq<Op>)
    decreases |ops|
  {
    ops != [] ==>
      && (ops[0].PageOp? ==> !Relists(s.st, userID, s.client, ops[0].limit))
      && NeverRelists(ApplyOp(s, userID, ops[0]), userID, ops[1..])
  }

  ghost predicate HasItsTurn(s: Session, userID: int, ops: seq<Op>, id: int)
    decreases |ops|
  {
    ops != [] && (
      || (ops[0].PageOp? && TurnComes(s.st, userID, s.client, ops[0].limit, id))
      || HasItsTurn(ApplyOp(s, userID, ops[0]), userID, ops[1..], id))
  }

  // ---- One page --------------------------------------------------------------------------------

  ghost function RequestOf(st: Chat, userID: int, limit: int): Request<Conversation>
    requires IsChatLimit(limit)
  {
    Request(ConversationsOf(st, userID), ChatPageSize(limit))
  }

  lemma ConversationsAreIdentified(st: Chat, userID: int)
    ensures Identifies(ConversationsOf(st, userID), ConversationID)
  {
    var rows := ConversationsOf(st, userID);
    forall a, b | a in rows && b in rows && ConversationID(a) == ConversationID(b) ensures a == b {
      ConversationIsStored(st, userID, a);
      ConversationIsStored(st, userID, b);
    }
  }

  lemma MoreRecentAreBetween(st: Chat, userID: int, p: InboxPosition, c: Conversation)
    ensures MoreRecentThan(st, userID, p, c) == Between(ConversationsOf(st, userID), ActivityKey, InboxKey(p), c)
  {
    hide ConversationsOf;
    forall d ensures ResumesInbox(p, d) && MoreRecent(d, c)
      <==> After(InboxKey(p), ActivityKey(d)) && Precedes(ActivityKey(d), ActivityKey(c))
    {
      InboxResumeMatchesOrder(p, d);
    }
  }

  lemma TurnIsHasTurn(st: Chat, userID: int, c: Client, limit: int, id: int)
    requires !c.done && IsChatLimit(limit) && id in st.conversations && DecodeInboxCursor(c.cursor).Success?
    ensures TurnComes(st, userID, c, limit, id)
      <==> HasTurn(ConversationsOf(st, userID), ActivityKey, InboxKey(DecodeInboxCursor(c.cursor).value),
                   ChatPageSize(limit), st.conversations[id])
  {
    var d, p := st.conversations[id], DecodeInboxCursor(c.cursor).value;
    MoreRecentAreBetween(st, userID, p, d);
    InboxResumeMatchesOrder(p, d);
    assert d in ConversationsOf(st, userID) <==> IsParticipant(d, userID);
  }

  lemma TurnIsWillList(st: Chat, userID: int, c: Client, w: Walk<Conversation>, limit: int, id: int)
    requires Linked(c, w) && IsChatLimit(limit)
    ensures TurnComes(st, userID, c, limit, id)
      <==> WillList(w, RequestOf(st, userID, limit), ActivityKey, ConversationID, id)
  {
    hide Coherent, ShowsRows, Between, MoreRecentThan, Consistent;
    if !c.done {
      forall d | d in ConversationsOf(st, userID) && ConversationID(d) == id
        ensures id in st.conversations && st.conversations[id] == d
      {
        ConversationIsStored(st, userID, d);
      }
      if id in st.conversations {
        StoredUnderItsID(st, id);
        TurnIsHasTurn(st, userID, c, limit, id);
      }
    }
  }

  lemma StoredUnderItsID(st: Chat, id: int)
    requires id in st.conversations
    ensures ConversationID(st.conversations[id]) == id
  {
    assert ConversationOK(st, id);
  }

  lemma SameListing(shown: seq<Summary>, rows: seq<Conversation>, x: int)
    requires ShowsRows(shown, rows)
    ensures Distinct(shown, SummaryID) <==> Distinct(rows, ConversationID)
    ensures Lists(shown, SummaryID, x) <==> Lists(rows, ConversationID, x)
  {
    forall i | 0 <= i < |rows| ensures SummaryID(shown[i]) == ConversationID(rows[i]) {
      assert shown[i].conversation == Plain(rows[i]);
    }
  }

  lemma RefusedPageStays(s: Session, userID: int, limit: int)
    requires !IsChatLimit(limit)
    ensures ApplyOp(s, userID, PageOp(limit)).client == s.client
  {
  }

  lemma PageIsWalkStep(s: Session, userID: int, limit: int, w: Walk<Conversation>)
    requires Linked(s.client, w) && IsChatLimit(limit)
    ensures Separates(ConversationsOf(s.st, userID), ActivityKey)
    ensures var next := WalkStep(w, RequestOf(s.st, userID, limit), ActivityKey);
      && Linked(ApplyOp(s, userID, PageOp(limit)).client, next)
      && ShowsRows(ApplyOp(s, userID, PageOp(limit)).client.shown, next.shown)
      && ShowsRows(s.client.shown, w.shown)
  {
    ConversationsSeparate(s.st, userID, ConversationsOf(s.st, userID));
    ApplyIsAdvance(s, userID, PageOp(limit), w);
  }

  lemma PageListsExactlyTurns(s: Session, userID: int, limit: int, w: Walk<Conversation>, id: int)
    requires Linked(s.client, w)
    ensures Lists(ApplyOp(s, userID, PageOp(limit)).client.shown, SummaryID, id)
      <==> Lists(s.client.shown, SummaryID, id) || TurnComes(s.st, userID, s.client, limit, id)
  {
    hide Linked, WalkStep, WillList, FetchPage, IsAhead, ShowsRows, Lists, ConversationsOf;
    if IsChatLimit(limit) {
      PageIsWalkStep(s, userID, limit, w);
      StepListsExactly(w, RequestOf(s.st, userID, limit), ActivityKey, ConversationID, id);
      TurnIsWillList(s.st, userID, s.client, w, limit, id);
      SameListing(s.client.shown, w.shown, id);
      SameListing(ApplyOp(s, userID, PageOp(limit)).client.shown,
                  WalkStep(w, RequestOf(s.st, userID, limit), ActivityKey).shown, id);
    } else {
      RefusedPageStays(s, userID, limit);
    }
  }

  lemma RelistsIsWillRepeat(st: Chat, userID: int, c: Client, w: Walk<Conversation>, limit: int)
    requires Linked(c, w) && IsChatLimit(limit)
    ensures Relists(st, userID, c, limit)
      <==> WillRepeat(w, RequestOf(st, userID, limit), ActivityKey, ConversationID)
  {
    hide WillList, TurnComes, Coherent;
    forall i | 0 <= i < |w.shown|
      ensures TurnComes(st, userID, c, limit, SummaryID(c.shown[i]))
        <==> WillList(w, RequestOf(st, userID, limit), ActivityKey, ConversationID, ConversationID(w.shown[i]))
    {
      assert c.shown[i].conversation == Plain(w.shown[i]);
      TurnIsWillList(st, userID, c, w, limit, w.shown[i].id);
    }
  }

  lemma PageRepeatsExactly(s: Session, userID: int, limit: int, w: Walk<Conversation>)
    requires Linked(s.client, w) && Distinct(s.client.shown, SummaryID)
    ensures Distinct(ApplyOp(s, userID, PageOp(limit)).client.shown, SummaryID)
      <==> !Relists(s.st, userID, s.client, limit)
  {
    hide Linked, WalkStep, WillRepeat, FetchPage, IsAhead, ShowsRows, Distinct, ConversationsOf;
    if IsChatLimit(limit) {
      PageIsWalkStep(s, userID, limit, w);
      ConversationsAreIdentified(s.st, userID);
      RelistsIsWillRepeat(s.st, userID, s.client, w, limit);
      SameListing(s.client.shown, w.shown, 0);
      SameListing(ApplyOp(s, userID, PageOp(limit)).client.shown,
                  WalkStep(w, RequestOf(s.st, userID, limit), ActivityKey).shown, 0);
      StepRepeatsExactly(w, RequestOf(s.st, userID, limit), ActivityKey, ConversationID);
    } else {
      RefusedPageStays(s, userID, limit);
    }
  }

  // ---- Whole runs ------------------------------------------------------------------------------

  lemma {:induction false} ScreenGrows(s: Session, userID: int, ops: seq<Op>)
    ensures s.client.shown <= RunOps(s, userID, ops).client.shown
    decreases |ops|
  {
    hide ListConversations, StepChat;
    if ops == [] {
    } else {
      ScreenGrows(ApplyOp(s, userID, ops[0]), userID, ops[1..]);
    }
  }

  lemma RepeatStays(shown: seq<Summary>, later: seq<Summary>)
    requires !Distinct(shown, SummaryID) && shown <= later
    ensures !Distinct(later, SummaryID)
  {
    var i, j :| 0 <= i < j < |shown| && SummaryID(shown[i]) == SummaryID(shown[j]);
    assert later[i] == shown[i] && later[j] == shown[j];
  }

  /**
   For every run of starts, sends, marks and page requests: an inbox walk lists some conversation
   twice exactly when, at some page, the turn of a conversation already on screen comes again.
   */
  lemma {:induction false} RepeatsExactlyWhenRelisted(s: Session, userID: int, ops: seq<Op>, w: Walk<Conversation>)
    requires Linked(s.client, w) && Distinct(s.client.shown, SummaryID)
    ensures Distinct(RunOps(s, userID, ops).client.shown, SummaryID) <==> NeverRelists(s, userID, ops)
    decreases |ops|
  {
    hide Distinct, Relists, FetchPage, StepChat, Linked;
    if ops == [] {
    } else {
      var next := ApplyOp(s, userID, ops[0]);
      ApplyIsAdvance(s, userID, ops[0], w);
      if ops[0].PageOp? {
        PageRepeatsExactly(s, userID, ops[0].limit, w);
      }
      if Distinct(next.client.shown, SummaryID) {
        RepeatsExactlyWhenRelisted(next, userID, ops[1..], Advance(s.st, userID, ops[0], w));
      } else {
        ScreenGrows(next, userID, ops[1..]);
        RepeatStays(next.client.shown, RunOps(s, userID, ops).client.shown);
      }
    }
  }

  /** A run lists a conversation exactly when it was on screen before or its turn comes at some page. */
  lemma {:induction false} ListedExactlyWhenItsTurnComes(
      s: Session, userID: int, ops: seq<Op>, w: Walk<Conversation>, id: int)
    requires Linked(s.client, w)
    ensures Lists(RunOps(s, userID, ops).client.shown, SummaryID, id)
      <==> Lists(s.client.shown, SummaryID, id) || HasItsTurn(s, userID, ops, id)
    decreases |ops|
  {
    hide Lists, TurnComes, FetchPage, StepChat, Linked;
    if ops == [] {
    } else {
      ApplyIsAdvance(s, userID, ops[0], w);
      if ops[0].PageOp? {
        PageListsExactlyTurns(s, userID, ops[0].limit, w, id);
      }
      ListedExactlyWhenItsTurnComes(ApplyOp(s, userID, ops[0]), userID, ops[1..], Advance(s.st, userID, ops[0], w), id);
    }
  }

  /** Both, for a walk from the top. */
  lemma InboxIsDecidedByTurns(st: Chat, userID: int, ops: seq<Op>, id: int)
    ensures var s := Session(st, FRESH);
      var shown := RunOps(s, userID, ops).client.shown;
      && (Lists(shown, SummaryID, id) <==> HasItsTurn(s, userID, ops, id))
      && (Distinct(shown, SummaryID) <==> NeverRelists(s, userID, ops))
  {
    hide RunOps, HasItsTurn, NeverRelists, Consistent;
    ListedExactlyWhenItsTurnComes(Session(st, FRESH), userID, ops, Keyset.Start(), id);
    RepeatsExactlyWhenRelisted(Session(st, FRESH), userID, ops, Keyset.Start());
  }
}
