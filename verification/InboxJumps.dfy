/** Two concrete inbox walks: a back-dated message makes one list a conversation twice, a new one makes one miss it. */
module InboxJumps {
  import opened Wrappers
  import opened Sets
  import opened Listings
  import opened Keyset
  import opened ChatModel
  import opened ChatProperties
  import opened ChatHistory
  import opened Inbox
  import opened InboxWalks
  import opened InboxTurns

  const BUYER := User(8, false)
  const LATER := Conversation(1, 5, 7, 8, None, None, 0, Some(10))
  const EARLIER := Conversation(2, 6, 7, 8, None, None, 5, None)
  const GREETING := Message(1, 1, 8, "hi", 10)
  const BOTH := State(map[1 := LATER, 2 := EARLIER], map[1 := GREETING], 3, 2)

  function Keycaps(id: int): Listing {
    Listing(id, 7, "keycaps", "a", "", 10, 1, Used, Active, Visible, false, 0, 0)
  }

  lemma BothIsConsistent()
    ensures Consistent(BOTH)
  {
    assert ConversationOK(BOTH, 1) && ConversationOK(BOTH, 2) && MessageOK(BOTH, 1);
  }

  ghost function Both(): Chat {
    BothIsConsistent();
    BOTH
  }

  // ---- The state is reachable ------------------------------------------------------------------

  const ONE := State(map[1 := Conversation(1, 5, 7, 8, None, None, 0, None)], map[], 2, 1)
  const TWO := State(map[1 := Conversation(1, 5, 7, 8, None, None, 0, None), 2 := EARLIER], map[], 3, 1)

  lemma FirstStart()
    ensures StartConversation(EMPTY, Some(Keycaps(5)), BUYER, 0).0 == ONE
  {
    assert !HasTuple(EMPTY, 5, 7, 8);
  }

  lemma SecondStart()
    ensures StartConversation(ONE, Some(Keycaps(6)), BUYER, 5).0 == TWO
  {
    assert !HasTuple(ONE, 6, 7, 8);
  }

  /** Two conversations started and one message sent lead there. */
  lemma BothIsReachable()
    ensures ChatModel.Run(EMPTY, [Start(Some(Keycaps(5)), BUYER, 0), Start(Some(Keycaps(6)), BUYER, 5),
                                  Send(BUYER, 1, "hi", 10, NoFault)]) == BOTH
  {
    hide StartConversation, SendMessage;
    var send := Send(BUYER, 1, "hi", 10, NoFault);
    var calls := [Start(Some(Keycaps(5)), BUYER, 0), Start(Some(Keycaps(6)), BUYER, 5), send];
    FirstStart();
    SecondStart();
    HiIsABody();
    TrimmedSendCommits(TWO, BUYER, 1, "hi", 10);
    hide Text.TrimSpace, BadMessageBody;
    assert Committed(TWO, GREETING) == BOTH;
    assert calls[1..] == [Start(Some(Keycaps(6)), BUYER, 5), calls[2]] && calls[1..][1..] == [calls[2]];
    assert ChatModel.Apply(EMPTY, calls[0]) == ONE && ChatModel.Apply(ONE, calls[1]) == TWO;
    assert ChatModel.Run(TWO, [calls[2]]) == ChatModel.Run(BOTH, [calls[2]][1..]);
    assert ChatModel.Run(ONE, calls[1..]) == ChatModel.Run(TWO, [calls[2]]);
  }

  // ---- The first page --------------------------------------------------------------------------

  lemma TwoRows(st: Chat)
    requires st.conversations.Keys == {1, 2}
    requires IsParticipant(st.conversations[1], 8) && IsParticipant(st.conversations[2], 8)
    ensures ConversationsOf(st, 8) == {st.conversations[1], st.conversations[2]}
  {
    hide Consistent;
  }

  /** The client after the first page of one: conversation 1 is on screen, the cursor is (10, 1). */
  ghost function AfterFirst(): Client { ApplyOp(Session(Both(), FRESH), 8, PageOp(1)).client }

  lemma FirstPage()
    ensures var c := AfterFirst();
      && !c.done && DecodeInboxCursor(c.cursor) == Success(Behind(10, 1))
      && |c.shown| == 1 && SummaryID(c.shown[0]) == 1
      && Linked(c, Walk(Some(ActivityKey(LATER)), false, [LATER]))
  {
    var s := Session(Both(), FRESH);
    hide ApplyOp, ConversationsOf, WalkStep, Consistent;
    TwoRows(Both());
    PageIsWalkStep(s, 8, 1, Keyset.Start());
    FirstOfTwo(LATER, EARLIER, ActivityKey);
    var c := AfterFirst();
    assert c.shown[0].conversation == Plain(LATER);
    assert InboxKey(DecodeInboxCursor(c.cursor).value) == Some(Key(0, -10, -1));
  }

  // ---- A repeat --------------------------------------------------------------------------------

  /** Conversation 1 after a message dated 3, at or after its creation but before its last activity. */
  const BACKDATED := LATER.(lastMessageAt := Some(3))

  ghost function Write(conversationID: int, now: int): Op { ChatOp(Send(BUYER, conversationID, "hi", now, NoFault)) }

  ghost function AfterWrite(conversationID: int, now: int): Chat {
    StepChat(Both(), Write(conversationID, now).call)
  }

  lemma WriteCommits(conversationID: int, now: int)
    requires conversationID in BOTH.conversations && now >= BOTH.conversations[conversationID].createdAt
    ensures AfterWrite(conversationID, now) == Committed(BOTH, Message(2, conversationID, 8, "hi", now))
  {
    HiIsABody();
    hide Text.TrimSpace, BadMessageBody, Consistent, SendMessage;
    TrimmedSendCommits(BOTH, BUYER, conversationID, "hi", now);
  }

  lemma RowsAfterWrite(conversationID: int, now: int)
    requires conversationID in BOTH.conversations && now >= BOTH.conversations[conversationID].createdAt
    ensures var written := BOTH.conversations[conversationID].(lastMessageAt := Some(now));
      AfterWrite(conversationID, now).conversations == BOTH.conversations[conversationID := written]
  {
    WriteCommits(conversationID, now);
    hide AfterWrite;
  }

  lemma BackdatedPair()
    ensures var rows := BOTH.conversations[1 := BACKDATED];
      rows.Keys == {1, 2} && rows[1] == BACKDATED && rows[2] == EARLIER
  {
  }

  lemma Backdate()
    ensures var st := AfterWrite(1, 3);
      && 1 in st.conversations && st.conversations[1] == BACKDATED
      && ConversationsOf(st, 8) == {BACKDATED, EARLIER}
  {
    RowsAfterWrite(1, 3);
    BackdatedPair();
    hide AfterWrite, ConversationsOf, Consistent;
    TwoRows(AfterWrite(1, 3));
  }

  lemma TurnComesAgain()
    ensures TurnComes(AfterWrite(1, 3), 8, AfterFirst(), 2, 1)
  {
    var st := AfterWrite(1, 3);
    Backdate();
    FirstPage();
    hide AfterWrite, ConversationsOf, AfterFirst, Consistent, Linked;
    var ahead := MoreRecentThan(st, 8, Behind(10, 1), BACKDATED);
    assert ahead <= {EARLIER};
    SubsetSize(ahead, {EARLIER});
  }

  ghost predicate TurnAt(s: Session, op: Op, id: int) {
    op.PageOp? && TurnComes(s.st, 8, s.client, op.limit, id)
  }

  lemma RunThree(s: Session, a: Op, b: Op, c: Op, id: int)
    ensures RunOps(s, 8, [a, b, c]) == ApplyOp(ApplyOp(ApplyOp(s, 8, a), 8, b), 8, c)
    ensures var t := ApplyOp(ApplyOp(s, 8, a), 8, b);
      NeverRelists(s, 8, [a, b, c]) && c.PageOp? ==> !Relists(t.st, 8, t.client, c.limit)
    ensures var t := ApplyOp(s, 8, a);
      HasItsTurn(s, 8, [a, b, c], id) <==> TurnAt(s, a, id) || TurnAt(t, b, id) || TurnAt(ApplyOp(t, 8, b), c, id)
  {
    hide ApplyOp, Relists, TurnComes;
    assert [a, b, c][1..] == [b, c] && [b, c][1..] == [c] && [c][1..] == [];
    var t := ApplyOp(s, 8, a);
    var u := ApplyOp(t, 8, b);
    assert RunOps(u, 8, [c]) == ApplyOp(u, 8, c);
    assert RunOps(t, 8, [b, c]) == RunOps(u, 8, [c]);
    assert NeverRelists(t, 8, [b, c]) ==> NeverRelists(u, 8, [c]);
    assert !HasItsTurn(ApplyOp(u, 8, c), 8, [], id);
    assert HasItsTurn(u, 8, [c], id) <==> TurnAt(u, c, id);
    assert HasItsTurn(t, 8, [b, c], id) <==> TurnAt(t, b, id) || TurnAt(u, c, id);
  }

  /**
   "Each conversation once" is false of inbox walks with writes in between: last_message_at is
   overwritten, so a message dated before the last activity sends the conversation behind the cursor
   again, and the walk lists it a second time.
   */
  lemma InboxWalkCanRepeat()
    ensures !Distinct(RunOps(Session(Both(), FRESH), 8, [PageOp(1), Write(1, 3), PageOp(2)]).client.shown, SummaryID)
  {
    var s := Session(Both(), FRESH);
    var ops := [PageOp(1), Write(1, 3), PageOp(2)];
    TurnComesAgain();
    FirstPage();
    RunThree(s, PageOp(1), Write(1, 3), PageOp(2), 1);
    InboxIsDecidedByTurns(Both(), 8, ops, 1);
    hide TurnComes, RunOps, NeverRelists, FetchPage, StepChat, Linked;
    var t := ApplyOp(ApplyOp(s, 8, PageOp(1)), 8, Write(1, 3));
    assert t.client == AfterFirst();
    assert TurnComes(t.st, 8, t.client, 2, SummaryID(t.client.shown[0]));
    assert Relists(t.st, 8, t.client, 2);
  }

  // ---- A miss ----------------------------------------------------------------------------------

  lemma NotOnFirstPage()
    ensures !TurnComes(Both(), 8, FRESH, 1, 2)
  {
    TwoRows(Both());
    hide ConversationsOf, Consistent;
    assert LATER in MoreRecentThan(Both(), 8, FromTop, EARLIER);
  }

  lemma NothingAhead(st: Chat, c: Client, w: Walk<Conversation>)
    requires Linked(c, w) && !c.done && Resumed(ConversationsOf(st, 8), ActivityKey, w.cursor) == {}
    ensures ApplyOp(Session(st, c), 8, PageOp(1)).client.done
  {
    hide ConversationsOf, Consistent, FetchPage;
    PageIsWalkStep(Session(st, c), 8, 1, w);
    assert Remaining(ConversationsOf(st, 8), ActivityKey, w.cursor) == [];
  }

  const JUMPED := EARLIER.(lastMessageAt := Some(20))

  lemma JumpedPair()
    ensures var rows := BOTH.conversations[2 := JUMPED];
      rows.Keys == {1, 2} && rows[1] == LATER && rows[2] == JUMPED
  {
  }

  lemma JumpedRows()
    ensures var st := AfterWrite(2, 20);
      && 2 in st.conversations && st.conversations[2] == JUMPED
      && ConversationsOf(st, 8) == {LATER, JUMPED}
  {
    RowsAfterWrite(2, 20);
    JumpedPair();
    hide AfterWrite, ConversationsOf, Consistent;
    TwoRows(AfterWrite(2, 20));
  }

  lemma Jump()
    ensures Resumed(ConversationsOf(AfterWrite(2, 20), 8), ActivityKey, Some(ActivityKey(LATER))) == {}
  {
    hide AfterWrite, ConversationsOf, Consistent, Resumed;
    JumpedRows();
    NoneOfTwo(LATER, JUMPED, ActivityKey, Some(ActivityKey(LATER)));
  }

  lemma NoneOfTwo<R(!new)>(a: R, b: R, key: R -> Key, cursor: Option<Key>)
    requires !After(cursor, key(a)) && !After(cursor, key(b))
    ensures Resumed({a, b}, key, cursor) == {}
  {
  }

  lemma TurnNeverComes()
    ensures var t := Session(AfterWrite(2, 20), AfterFirst());
      !TurnComes(t.st, 8, t.client, 1, 2) && ApplyOp(t, 8, PageOp(1)).client.done
  {
    Jump();
    JumpedRows();
    FirstPage();
    hide AfterWrite, ConversationsOf, AfterFirst, Consistent, Linked, ApplyOp;
    NothingAhead(AfterWrite(2, 20), AfterFirst(), Walk(Some(ActivityKey(LATER)), false, [LATER]));
  }

  /**
   Nor does a finished walk list every conversation: one that gets a message before its turn jumps to
   the front, which the walk has passed.
   */
  lemma InboxWalkCanMiss()
    ensures var end := RunOps(Session(Both(), FRESH), 8, [PageOp(1), Write(2, 20), PageOp(1)]).client;
      end.done && !Lists(end.shown, SummaryID, 2)
  {
    var s := Session(Both(), FRESH);
    NotOnFirstPage();
    TurnNeverComes();
    RunThree(s, PageOp(1), Write(2, 20), PageOp(1), 2);
    InboxIsDecidedByTurns(Both(), 8, [PageOp(1), Write(2, 20), PageOp(1)], 2);
    hide TurnComes, RunOps, HasItsTurn, FetchPage, StepChat;
    assert ApplyOp(ApplyOp(s, 8, PageOp(1)), 8, Write(2, 20))
      == Session(StepChat(Both(), Write(2, 20).call), AfterFirst());
  }
}
