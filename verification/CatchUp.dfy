/** A browser's view of one conversation while everyone keeps writing, and how catch-up reads repair it. */
module CatchUp {
  import opened Wrappers
  import opened Keyset
  import opened ChatModel
  import opened ChatHistory
  import opened Realtime
  import B = BrokerModel

  // ---- Histories only grow at the end ----------------------------------------------------------

  lemma ProgressIsReflexive(chat: ChatModel.State)
    ensures Progresses(chat, chat)
  {
  }

  lemma StepProgresses(s: System, op: Op)
    requires Coupled(s)
    ensures Progresses(s.chat, Step(s, op).chat)
  {
    hide Consistent, B.Sound, EventsMatchMessages, SellersOwn, Progresses;
    hide SendMessage, StartConversation, MarkConversationRead;
    match op
    case StartOp(user, listingID, now) => CallKeeps(s.chat, Start(FindListing(s.table, listingID), user, now));
    case SendOp(user, conversationID, text, now, fault) =>
      CallKeeps(s.chat, Send(user, conversationID, text, now, fault));
    case MarkOp(userID, conversationID, messageID) => CallKeeps(s.chat, Mark(userID, conversationID, messageID));
    case _ => ProgressIsReflexive(s.chat);
  }

  /** New messages have greater identifiers, so every earlier history is a prefix of every later one. */
  lemma HistoryGrows(st: Chat, next: Chat, conversationID: int)
    requires Progresses(st, next)
    ensures History(st, conversationID) <= History(next, conversationID)
  {
    hide MessagesOf, Progresses, History, Consistent, IsHistory;
    var h, g := History(st, conversationID), History(next, conversationID);
    forall m ensures m in h <==> m in g && m.id < st.nextMessageID {
      OldMessages(st, next, conversationID, m);
      InHistory(st, conversationID, m);
      InHistory(next, conversationID, m);
    }
    HistoryIsHistory(st, conversationID);
    HistoryIsHistory(next, conversationID);
    OldestAreAPrefix(h, g, st.nextMessageID);
  }

  lemma OldestAreAPrefix(h: seq<Message>, g: seq<Message>, bound: int)
    requires IsHistory(h) && IsHistory(g)
    requires forall m :: m in h <==> m in g && m.id < bound
    ensures h <= g
  {
    var n := CountUpTo(g, bound - 1);
    CountSplits(g, bound - 1);
    hide CountUpTo;
    forall m ensures m in h <==> m in g[..n] {
      SliceMembers(g, n, m);
      if m in g && m.id < bound {
        var i :| 0 <= i < |g| && g[i] == m;
      }
    }
    assert Elements(h) == Elements(g[..n]);
    AscendingIsUnique(h, g[..n], OldestFirst);
  }

  lemma OldMessages(st: Chat, next: Chat, conversationID: int, m: Message)
    requires Progresses(st, next)
    ensures m in MessagesOf(st, conversationID) <==> m in MessagesOf(next, conversationID) && m.id < st.nextMessageID
  {
    if m in MessagesOf(st, conversationID) {
      MessageIsStored(st, conversationID, m);
      assert MessageOK(st, m.id);
    }
    if m in MessagesOf(next, conversationID) {
      MessageIsStored(next, conversationID, m);
    }
  }

  // ---- What one participant has on screen for one conversation ---------------------------------

  datatype Read = Older(limit: int) | Newer(limit: int)

  ghost function Page(st: Chat, userID: int, conversationID: int, view: seq<Message>, read: Read)
    : Result<seq<Message>, ReadError>
    requires read.Newer? ==> view != []
  {
    if read.Older? then
      ListMessages(st, userID, conversationID, MessageOptions(OldestShown(view), None, read.limit))
    else
      ListMessages(st, userID, conversationID, MessageOptions(None, Some(view[|view| - 1].id), read.limit))
  }

  /** Older pages go in front, newer pages behind; there is nothing to read after an empty view. */
  ghost function Shown(st: Chat, userID: int, conversationID: int, view: seq<Message>, read: Read): seq<Message> {
    if read.Newer? && view == [] then view
    else
      var page := Page(st, userID, conversationID, view, read);
      if page.Failure? then view
      else if read.Older? then page.value + view
      else view + page.value
  }

  ghost predicate IsContiguous(view: seq<Message>, h: seq<Message>) {
    exists from, to :: IsStretch(view, h, from, to)
  }

  /** With nothing on screen the stretch is the empty one at the end. */
  lemma StretchOf(view: seq<Message>, h: seq<Message>) returns (from: nat, to: nat)
    requires IsContiguous(view, h)
    ensures IsStretch(view, h, from, to) && (view == [] ==> from == to == |h|)
  {
    from, to :| IsStretch(view, h, from, to);
    if view == [] {
      from, to := |h|, |h|;
    }
  }

  /** Only a participant asking for an acceptable number of messages is answered. */
  lemma AnsweredMeansAllowed(st: Chat, userID: int, conversationID: int, o: MessageOptions)
    requires ListMessages(st, userID, conversationID, o).Success?
    ensures MayRead(st, userID, conversationID) && IsChatLimit(o.limit)
  {
    hide ListMessagesAfter, ListMessagesBefore, Reversed, Consistent;
  }

  lemma ReadStaysContiguous(st: Chat, userID: int, conversationID: int, view: seq<Message>, read: Read)
    requires IsContiguous(view, History(st, conversationID))
    ensures IsContiguous(Shown(st, userID, conversationID, view, read), History(st, conversationID))
  {
    hide History, Consistent, ListMessages;
    var h := History(st, conversationID);
    var from, to := StretchOf(view, h);
    if (read.Older? || view != []) && Page(st, userID, conversationID, view, read).Success? {
      var n := |Page(st, userID, conversationID, view, read).value|;
      if read.Older? {
        AnsweredMeansAllowed(st, userID, conversationID, MessageOptions(OldestShown(view), None, read.limit));
        OlderPageExtends(st, userID, conversationID, view, from, to, read.limit);
        assert IsStretch(Shown(st, userID, conversationID, view, read), h, from - n, to);
      } else {
        AnsweredMeansAllowed(st, userID, conversationID, MessageOptions(None, Some(view[|view| - 1].id), read.limit));
        NewerPageExtends(st, userID, conversationID, view, from, to, read.limit);
        assert IsStretch(Shown(st, userID, conversationID, view, read), h, from, to + n);
      }
    }
  }

  /** An empty older page and an empty newer page (or nothing to read after) mean nothing is missing. */
  lemma EmptyPagesMeanComplete(st: Chat, userID: int, conversationID: int, view: seq<Message>, older: int, newer: int)
    requires IsContiguous(view, History(st, conversationID))
    requires Page(st, userID, conversationID, view, Older(older)) == Success([])
    requires view == [] || Page(st, userID, conversationID, view, Newer(newer)) == Success([])
    ensures view == History(st, conversationID)
  {
    hide History, Consistent, ListMessages, IsContiguous, MayRead;
    var from, to := StretchOf(view, History(st, conversationID));
    AnsweredMeansAllowed(st, userID, conversationID, MessageOptions(OldestShown(view), None, older));
    OlderPageExtends(st, userID, conversationID, view, from, to, older);
    if view != [] {
      AnsweredMeansAllowed(st, userID, conversationID, MessageOptions(None, Some(view[|view| - 1].id), newer));
      NewerPageExtends(st, userID, conversationID, view, from, to, newer);
    }
  }

  // ---- A view while the system runs ------------------------------------------------------------

  type Live = s: System | Coupled(s) ghost witness INITIAL

  datatype Viewer = Viewer(system: Live, view: seq<Message>)

  /** An event says only that there may be more to read, so it leads to reads like any other. */
  datatype ViewerOp = Elsewhere(op: Op) | Here(read: Read)

  ghost function StepLive(s: Live, op: Op): Live {
    StepStaysCoupled(s, op);
    Step(s, op)
  }

  ghost function ChatOf(s: Live): Chat { s.chat }

  ghost function View(v: Viewer, userID: int, conversationID: int, op: ViewerOp): Viewer {
    match op
    case Elsewhere(op) => v.(system := StepLive(v.system, op))
    case Here(read) => v.(view := Shown(ChatOf(v.system), userID, conversationID, v.view, read))
  }

  ghost function Views(v: Viewer, userID: int, conversationID: int, ops: seq<ViewerOp>): Viewer
    decreases |ops|
  {
    if ops == [] then v else Views(View(v, userID, conversationID, ops[0]), userID, conversationID, ops[1..])
  }

  ghost predicate ShowsStretch(v: Viewer, conversationID: int) {
    IsContiguous(v.view, History(ChatOf(v.system), conversationID))
  }

  lemma LongerHistory(view: seq<Message>, h: seq<Message>, g: seq<Message>)
    requires IsContiguous(view, h) && h <= g
    ensures IsContiguous(view, g)
  {
    var from, to :| IsStretch(view, h, from, to);
    assert g[..|h|] == h;
    assert IsStretch(view, g, from, to);
  }

  lemma StepStaysContiguous(s: Live, view: seq<Message>, conversationID: int, op: Op)
    requires IsContiguous(view, History(ChatOf(s), conversationID))
    ensures IsContiguous(view, History(ChatOf(StepLive(s, op)), conversationID))
  {
    hide Coupled, History, Consistent, Step, Progresses, IsContiguous;
    StepProgresses(s, op);
    HistoryGrows(ChatOf(s), ChatOf(StepLive(s, op)), conversationID);
    LongerHistory(view, History(ChatOf(s), conversationID), History(ChatOf(StepLive(s, op)), conversationID));
  }

  /**
   Whatever is sent, published, dropped or read in between, what a participant has on screen is always
   a contiguous stretch of the stored history: no message twice, none out of order, no gap.
   */
  lemma {:induction false} EveryViewIsContiguous(v: Viewer, userID: int, conversationID: int, ops: seq<ViewerOp>)
    requires ShowsStretch(v, conversationID)
    ensures ShowsStretch(Views(v, userID, conversationID, ops), conversationID)
    decreases |ops|
  {
    hide Coupled, IsContiguous, StepLive, History, Shown, Consistent;
    if ops == [] {
    } else {
      if ops[0].Elsewhere? {
        StepStaysContiguous(v.system, v.view, conversationID, ops[0].op);
      } else {
        ReadStaysContiguous(ChatOf(v.system), userID, conversationID, v.view, ops[0].read);
      }
      EveryViewIsContiguous(View(v, userID, conversationID, ops[0]), userID, conversationID, ops[1..]);
    }
  }

  // ---- Repair ----------------------------------------------------------------------------------

  /** The catch-up of a reconnecting client: newer pages until one is empty. */
  ghost function CaughtUp(st: Chat, userID: int, conversationID: int, view: seq<Message>, limits: seq<int>)
    : (seq<Message>, bool)
  {
    if view == [] then ([], true) else WalkForward(st, userID, conversationID, view[|view| - 1].id, limits)
  }

  /**
   After any run, whichever events were lost, repeating `after_id` reads until a page is empty and
   then reading back to the beginning leaves exactly the stored history on screen.
   */
  lemma CatchUpRepairs(
      st: Chat, userID: int, conversationID: int, view: seq<Message>, forward: seq<int>, back: seq<int>)
    requires IsContiguous(view, History(st, conversationID))
    requires MayRead(st, userID, conversationID) && AreChatLimits(forward) && AreChatLimits(back)
    ensures var h := History(st, conversationID);
      var newer := CaughtUp(st, userID, conversationID, view, forward);
      var end := WalkBack(st, userID, conversationID, view + newer.0, back);
      && (newer.1 && end.1 ==> end.0 == h)
      && (|forward| > |h| && |back| > |h| ==> newer.1 && end.1)
  {
    hide History, Consistent, WalkForward, WalkBack;
    var h := History(st, conversationID);
    var from, to := StretchOf(view, h);
    var newer := CaughtUp(st, userID, conversationID, view, forward);
    if view != [] {
      HistoryIsHistory(st, conversationID);
      LastShown(h, view, from, to);
      WalkForwardYieldsNewer(st, userID, conversationID, view[|view| - 1].id, forward);
    }
    if newer.1 {
      Glue(h, from, to, |h|);
      assert view + newer.0 == h[from..];
      WalkBackRebuilds(st, userID, conversationID, view + newer.0, from, back);
    }
  }

  lemma LastShown(h: seq<Message>, view: seq<Message>, from: nat, to: nat)
    requires IsHistory(h) && IsStretch(view, h, from, to) && view != []
    ensures view[|view| - 1].id >= 1 && CountUpTo(h, view[|view| - 1].id) == to
  {
    assert view[|view| - 1] == h[to - 1];
    CountAt(h, to - 1);
  }

  /** The two together, for a participant who opens the conversation at any point of any run. */
  lemma LossesAreRepaired(
      start: Live, userID: int, conversationID: int, ops: seq<ViewerOp>, forward: seq<int>, back: seq<int>)
    requires MayRead(start.chat, userID, conversationID) && AreChatLimits(forward) && AreChatLimits(back)
    ensures var end := Views(Viewer(start, []), userID, conversationID, ops);
      var st := ChatOf(end.system);
      var newer := CaughtUp(st, userID, conversationID, end.view, forward);
      var repaired := WalkBack(st, userID, conversationID, end.view + newer.0, back);
      && (newer.1 && repaired.1 ==> repaired.0 == History(st, conversationID))
      && (|forward| > |History(st, conversationID)| && |back| > |History(st, conversationID)| ==> newer.1 && repaired.1)
  {
    hide Coupled, Consistent, History, WalkBack, CaughtUp, Views;
    var h := History(ChatOf(start), conversationID);
    assert IsStretch([], h, 0, 0);
    EveryViewIsContiguous(Viewer(start, []), userID, conversationID, ops);
    ParticipantsStay(Viewer(start, []), userID, conversationID, ops);
    var end := Views(Viewer(start, []), userID, conversationID, ops);
    CatchUpRepairs(ChatOf(end.system), userID, conversationID, end.view, forward, back);
  }

  lemma {:induction false} ParticipantsStay(v: Viewer, userID: int, conversationID: int, ops: seq<ViewerOp>)
    requires MayRead(ChatOf(v.system), userID, conversationID)
    ensures MayRead(ChatOf(Views(v, userID, conversationID, ops).system), userID, conversationID)
    decreases |ops|
  {
    hide Coupled, Consistent, Step, Shown;
    if ops == [] {
    } else {
      if ops[0].Elsewhere? {
        StepProgresses(v.system, ops[0].op);
        assert SameConversation(v.system.chat.conversations[conversationID],
                                Step(v.system, ops[0].op).chat.conversations[conversationID]);
      }
      ParticipantsStay(View(v, userID, conversationID, ops[0]), userID, conversationID, ops[1..]);
    }
  }

  // ---- The system behind a view ----------------------------------------------------------------

  function Others(ops: seq<ViewerOp>): seq<Op>
    decreases |ops|
  {
    if ops == [] then []
    else (if ops[0].Elsewhere? then [ops[0].op] else []) + Others(ops[1..])
  }

  /** Looking changes nothing: the system is where the operations of everyone else left it. */
  lemma {:induction false} ViewsLeaveSystem(v: Viewer, userID: int, conversationID: int, ops: seq<ViewerOp>)
    ensures Views(v, userID, conversationID, ops).system == Steps(v.system, Others(ops))
    decreases |ops|
  {
    hide Coupled, Step, Shown;
    if ops == [] {
    } else {
      var rest := Others(ops[1..]);
      if ops[0].Elsewhere? {
        assert ([ops[0].op] + rest)[1..] == rest;
      } else {
        assert [] + rest == rest;
      }
      ViewsLeaveSystem(View(v, userID, conversationID, ops[0]), userID, conversationID, ops[1..]);
    }
  }
}
