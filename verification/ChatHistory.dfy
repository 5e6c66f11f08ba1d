/** Reading a conversation: latest, older and newer pages, and the walks that rebuild its history. */
module ChatHistory {
  import opened Wrappers
  import opened Keyset
  import opened Text
  import opened Listings
  import opened ChatModel
  import opened ChatProperties

  const DEFAULT_CHAT_LIMIT := 20
  const MAX_CHAT_LIMIT := 100

  function OldestFirst(m: Message): Key { Key(0, 0, m.id) }

  function NewestFirst(m: Message): Key { Key(0, 0, -m.id) }

  ghost function MessagesOf(st: Chat, conversationID: int): set<Message> {
    set id | id in st.messages && st.messages[id].conversationID == conversationID :: st.messages[id]
  }

  lemma MessageIsStored(st: Chat, conversationID: int, m: Message)
    requires m in MessagesOf(st, conversationID)
    ensures m.id in st.messages && st.messages[m.id] == m && m.id >= 1
  {
    var id :| id in st.messages && st.messages[id] == m;
    assert MessageOK(st, id);
  }

  lemma IDsSeparate(st: Chat, conversationID: int, rows: set<Message>)
    requires rows <= MessagesOf(st, conversationID)
    ensures Separates(rows, OldestFirst) && Separates(rows, NewestFirst)
  {
    forall a, b | a in rows && b in rows && (OldestFirst(a) == OldestFirst(b) || NewestFirst(a) == NewestFirst(b))
      ensures a == b
    {
      MessageIsStored(st, conversationID, a);
      MessageIsStored(st, conversationID, b);
    }
  }

  /** The whole conversation, oldest message first. */
  ghost function History(st: Chat, conversationID: int): seq<Message>
  {
    IDsSeparate(st, conversationID, MessagesOf(st, conversationID));
    OrderBy(MessagesOf(st, conversationID), OldestFirst)
  }

  // ---- The two page queries and the service ----------------------------------------------------

  ghost function ListMessagesBefore(st: Chat, conversationID: int, beforeID: Option<int>, limit: nat): seq<Message>
  {
    var rows := set m | m in MessagesOf(st, conversationID) && (beforeID.None? || m.id < beforeID.value);
    IDsSeparate(st, conversationID, rows);
    Limit(OrderBy(rows, NewestFirst), limit)
  }

  ghost function ListMessagesAfter(st: Chat, conversationID: int, afterID: int, limit: nat): seq<Message>
  {
    var rows := set m | m in MessagesOf(st, conversationID) && m.id > afterID;
    IDsSeparate(st, conversationID, rows);
    Limit(OrderBy(rows, OldestFirst), limit)
  }

  function Reversed<T>(s: seq<T>): seq<T> {
    seq(|s|, i requires 0 <= i < |s| => s[|s| - 1 - i])
  }

  /** reverseMessages: swaps from both ends towards the middle. */
  method ReverseMessages(items: array<Message>)
    modifies items
    ensures items[..] == Reversed(old(items[..]))
  {
    var left, right := 0, items.Length - 1;
    while left < right
      invariant 0 <= left && left + right == items.Length - 1
      invariant left <= right + 1
      invariant forall k | 0 <= k < left :: items[k] == old(items[items.Length - 1 - k])
      invariant forall k | right < k < items.Length :: items[k] == old(items[items.Length - 1 - k])
      invariant forall k | left <= k <= right :: items[k] == old(items[k])
    {
      items[left], items[right] := items[right], items[left];
      left, right := left + 1, right - 1;
    }
  }

  datatype MessageOptions = MessageOptions(beforeID: Option<int>, afterID: Option<int>, limit: int)

  datatype ReadError = BadLimit | ConflictingDirections | BadBeforeID | BadAfterID | NoSuchConversation

  predicate IsChatLimit(limit: int) { 0 <= limit <= MAX_CHAT_LIMIT }

  function ChatPageSize(limit: int): nat
    requires IsChatLimit(limit)
  {
    if limit == 0 then DEFAULT_CHAT_LIMIT else limit
  }

  predicate MayRead(st: Chat, userID: int, conversationID: int) {
    conversationID in st.conversations && IsParticipant(st.conversations[conversationID], userID)
  }

  ghost function ListMessages(st: Chat, userID: int, conversationID: int, o: MessageOptions)
    : Result<seq<Message>, ReadError>
  {
    if !IsChatLimit(o.limit) then Failure(BadLimit)
    else if o.beforeID.Some? && o.afterID.Some? then Failure(ConflictingDirections)
    else if o.beforeID.Some? && o.beforeID.value < 1 then Failure(BadBeforeID)
    else if o.afterID.Some? && o.afterID.value < 1 then Failure(BadAfterID)
    else if !MayRead(st, userID, conversationID) then Failure(NoSuchConversation)
    else if o.afterID.Some? then
      Success(ListMessagesAfter(st, conversationID, o.afterID.value, ChatPageSize(o.limit)))
    else Success(Reversed(ListMessagesBefore(st, conversationID, o.beforeID, ChatPageSize(o.limit))))
  }

  // ---- Pages are pieces of the history ---------------------------------------------------------

  /** How many leading messages of a history have an identifier of at most `id`. */
  function CountUpTo(h: seq<Message>, id: int): (n: nat)
    ensures n <= |h|
  {
    if h == [] || h[0].id > id then 0 else 1 + CountUpTo(h[1..], id)
  }

  lemma {:induction false} CountSplits(h: seq<Message>, id: int)
    requires Ascending(h, OldestFirst)
    ensures forall i | 0 <= i < |h| :: i < CountUpTo(h, id) <==> h[i].id <= id
  {
    if h == [] {
    } else {
      SuffixIsAscending(h, OldestFirst, 1);
      CountSplits(h[1..], id);
      forall i | 0 < i < |h| ensures h[0].id < h[i].id && h[i] == h[1..][i - 1] {
        assert Precedes(OldestFirst(h[0]), OldestFirst(h[i]));
      }
    }
  }

  /** The last `n` elements. */
  function LastN<T>(s: seq<T>, n: nat): seq<T> {
    if |s| <= n then s else s[|s| - n..]
  }

  lemma InHistory(st: Chat, conversationID: int, m: Message)
    ensures m in MessagesOf(st, conversationID) <==> m in History(st, conversationID)
  {
    assert m in History(st, conversationID) <==> m in Elements(History(st, conversationID));
  }

  lemma SliceMembers(h: seq<Message>, n: nat, m: Message)
    requires n <= |h|
    ensures m in h[n..] <==> exists i :: n <= i < |h| && h[i] == m
    ensures m in h[..n] <==> exists i :: 0 <= i < n && h[i] == m
  {
    if m in h[n..] {
      var i :| 0 <= i < |h[n..]| && h[n..][i] == m;
      assert h[i + n] == m;
    }
    if i :| n <= i < |h| && h[i] == m {
      assert h[n..][i - n] == m;
    }
    if m in h[..n] {
      var i :| 0 <= i < n && h[..n][i] == m;
      assert h[i] == m;
    }
    if i :| 0 <= i < n && h[i] == m {
      assert h[..n][i] == m;
    }
  }

  /** A newer page is the next stretch of the history after `afterID`. */
  lemma AfterPageIsNextStretch(st: Chat, conversationID: int, afterID: int, limit: nat)
    ensures var h := History(st, conversationID);
      ListMessagesAfter(st, conversationID, afterID, limit) == Limit(h[CountUpTo(h, afterID)..], limit)
  {
    var h := History(st, conversationID);
    var n := CountUpTo(h, afterID);
    CountSplits(h, afterID);
    var rows := set m | m in MessagesOf(st, conversationID) && m.id > afterID;
    IDsSeparate(st, conversationID, rows);
    assert Elements(h[n..]) == rows by {
      forall m ensures m in rows <==> m in h[n..] {
        InHistory(st, conversationID, m);
        SliceMembers(h, n, m);
      }
    }
    SuffixIsAscending(h, OldestFirst, n);
    AscendingIsUnique(OrderBy(rows, OldestFirst), h[n..], OldestFirst);
  }

  /** The end of the stretch an older page is taken from. */
  function StretchEnd(h: seq<Message>, beforeID: Option<int>): (n: nat)
    ensures n <= |h|
  {
    if beforeID.None? then |h| else CountUpTo(h, beforeID.value - 1)
  }

  lemma ReversedIsNewestFirst(h: seq<Message>, n: nat)
    requires Ascending(h, OldestFirst) && n <= |h|
    ensures Ascending(Reversed(h[..n]), NewestFirst)
  {
    var r := Reversed(h[..n]);
    forall i, j | 0 <= i < j < |r| ensures Precedes(NewestFirst(r[i]), NewestFirst(r[j])) {
      assert Precedes(OldestFirst(h[n - 1 - j]), OldestFirst(h[n - 1 - i]));
    }
  }

  lemma ReversedMembers<T>(s: seq<T>, x: T)
    ensures x in Reversed(s) <==> x in s
  {
    if x in s {
      var i :| 0 <= i < |s| && s[i] == x;
      assert Reversed(s)[|s| - 1 - i] == x;
    }
  }

  lemma ReversedLimit<T>(s: seq<T>, limit: nat)
    ensures Reversed(Limit(Reversed(s), limit)) == LastN(s, limit)
  {
  }

  /** An older page, once put back in order, is the last stretch of the history before `beforeID`. */
  lemma BeforePageIsLastStretch(st: Chat, conversationID: int, beforeID: Option<int>, limit: nat)
    ensures var h := History(st, conversationID);
      Reversed(ListMessagesBefore(st, conversationID, beforeID, limit)) == LastN(h[..StretchEnd(h, beforeID)], limit)
  {
    var h := History(st, conversationID);
    var n := StretchEnd(h, beforeID);
    if beforeID.Some? { CountSplits(h, beforeID.value - 1); }
    var rows := set m | m in MessagesOf(st, conversationID) && (beforeID.None? || m.id < beforeID.value);
    IDsSeparate(st, conversationID, rows);
    assert Elements(Reversed(h[..n])) == rows by {
      forall m ensures m in rows <==> m in Reversed(h[..n]) {
        InHistory(st, conversationID, m);
        SliceMembers(h, n, m);
        ReversedMembers(h[..n], m);
      }
    }
    ReversedIsNewestFirst(h, n);
    AscendingIsUnique(OrderBy(rows, NewestFirst), Reversed(h[..n]), NewestFirst);
    ReversedLimit(h[..n], limit);
  }

  // ---- The same pages, cut from a history ------------------------------------------------------

  ghost predicate IsHistory(h: seq<Message>) {
    Ascending(h, OldestFirst) && forall i | 0 <= i < |h| :: h[i].id >= 1
  }

  lemma HistoryIsHistory(st: Chat, conversationID: int)
    ensures IsHistory(History(st, conversationID))
  {
    var h := History(st, conversationID);
    forall i | 0 <= i < |h| ensures h[i].id >= 1 {
      InHistory(st, conversationID, h[i]);
      MessageIsStored(st, conversationID, h[i]);
    }
  }

  function OlderStretch(h: seq<Message>, beforeID: Option<int>, limit: nat): seq<Message> {
    LastN(h[..StretchEnd(h, beforeID)], limit)
  }

  function NewerStretch(h: seq<Message>, afterID: int, limit: nat): seq<Message> {
    Limit(h[CountUpTo(h, afterID)..], limit)
  }

  lemma ReadsOlder(st: Chat, userID: int, conversationID: int, beforeID: Option<int>, limit: int)
    requires MayRead(st, userID, conversationID) && IsChatLimit(limit) && (beforeID.Some? ==> beforeID.value >= 1)
    ensures ListMessages(st, userID, conversationID, MessageOptions(beforeID, None, limit))
      == Success(OlderStretch(History(st, conversationID), beforeID, ChatPageSize(limit)))
  {
    BeforePageIsLastStretch(st, conversationID, beforeID, ChatPageSize(limit));
  }

  lemma ReadsNewer(st: Chat, userID: int, conversationID: int, afterID: int, limit: int)
    requires MayRead(st, userID, conversationID) && IsChatLimit(limit) && afterID >= 1
    ensures ListMessages(st, userID, conversationID, MessageOptions(None, Some(afterID), limit))
      == Success(NewerStretch(History(st, conversationID), afterID, ChatPageSize(limit)))
  {
    AfterPageIsNextStretch(st, conversationID, afterID, ChatPageSize(limit));
  }

  // ---- What a read accepts ---------------------------------------------------------------------

  /** Each refusal of a read, in the order of the checks, and an answer exactly when none applies. */
  lemma ReadIsRefusedInOrder(st: Chat, userID: int, conversationID: int, o: MessageOptions)
    ensures var result := ListMessages(st, userID, conversationID, o);
      if !(0 <= o.limit <= 100) then result == Failure(BadLimit)
      else if o.beforeID.Some? && o.afterID.Some? then result == Failure(ConflictingDirections)
      else if o.beforeID.Some? && o.beforeID.value < 1 then result == Failure(BadBeforeID)
      else if o.afterID.Some? && o.afterID.value < 1 then result == Failure(BadAfterID)
      else if !TakesPart(st, userID, conversationID) then result == Failure(NoSuchConversation)
      else result.Success?
  {
    hide Consistent, ListMessagesAfter, ListMessagesBefore, Reversed;
  }

  /** Twenty messages unless the request says how many, next to the identifier asked about. */
  lemma ReadIsAPieceOfHistory(st: Chat, userID: int, conversationID: int, o: MessageOptions)
    requires ListMessages(st, userID, conversationID, o).Success?
    ensures var h, n := History(st, conversationID), if o.limit == 0 then 20 else o.limit;
      && n >= 1
      && ListMessages(st, userID, conversationID, o).value ==
           if o.afterID.Some? then Limit(h[CountUpTo(h, o.afterID.value)..], n)
           else if o.beforeID.Some? then LastN(h[..CountUpTo(h, o.beforeID.value - 1)], n)
           else LastN(h, n)
  {
    ReadIsRefusedInOrder(st, userID, conversationID, o);
    hide Consistent, ListMessages, History, CountUpTo, LastN, Limit;
    var h := History(st, conversationID);
    if o.afterID.Some? {
      ReadsNewer(st, userID, conversationID, o.afterID.value, o.limit);
    } else {
      ReadsOlder(st, userID, conversationID, o.beforeID, o.limit);
      assert h[..|h|] == h;
    }
  }

  // ---- A client's view -------------------------------------------------------------------------

  /** The view holds the messages h[from..to], with no gap and no repeat. */
  ghost predicate IsStretch(view: seq<Message>, h: seq<Message>, from: nat, to: nat) {
    from <= to <= |h| && view == h[from..to]
  }

  /** The oldest identifier on screen; with nothing on screen the client asks for the latest page. */
  function OldestShown(view: seq<Message>): Option<int> {
    if view == [] then None else Some(view[0].id)
  }

  lemma IDsAscend(h: seq<Message>, i: nat, j: nat)
    requires Ascending(h, OldestFirst) && i < j < |h|
    ensures h[i].id < h[j].id
  {
    assert Precedes(OldestFirst(h[i]), OldestFirst(h[j]));
  }

  lemma CountAt(h: seq<Message>, i: nat)
    requires Ascending(h, OldestFirst) && i < |h|
    ensures CountUpTo(h, h[i].id) == i + 1
  {
    CountSplits(h, h[i].id);
    if i + 1 < |h| { IDsAscend(h, i, i + 1); }
  }

  lemma EndAt(h: seq<Message>, i: nat)
    requires Ascending(h, OldestFirst) && i < |h|
    ensures StretchEnd(h, Some(h[i].id)) == i
  {
    CountSplits(h, h[i].id - 1);
    if i > 0 { IDsAscend(h, i - 1, i); }
  }

  function Min(a: nat, b: nat): nat { if a <= b then a else b }

  lemma Glue<T>(h: seq<T>, a: nat, b: nat, c: nat)
    requires a <= b <= c <= |h|
    ensures h[a..b] + h[b..c] == h[a..c]
  {
  }

  lemma LastOfPrefix<T>(h: seq<T>, to: nat, n: nat)
    requires to <= |h|
    ensures LastN(h[..to], n) == h[to - Min(to, n)..to]
  {
  }

  lemma FirstOfSuffix<T>(h: seq<T>, from: nat, n: nat)
    requires from <= |h|
    ensures Limit(h[from..], n) == h[from..from + Min(|h| - from, n)]
  {
  }

  /** Prepending an older page extends the view without a gap; an empty one means it starts at the beginning. */
  lemma OlderStretchExtends(h: seq<Message>, view: seq<Message>, from: nat, to: nat, n: nat)
    requires IsHistory(h) && IsStretch(view, h, from, to) && (view == [] ==> from == |h|)
    ensures var page := OlderStretch(h, OldestShown(view), n);
      |page| == Min(from, n) && IsStretch(page + view, h, from - |page|, to)
  {
    if view != [] {
      assert view[0] == h[from];
      EndAt(h, from);
    }
    LastOfPrefix(h, from, n);
    Glue(h, from - Min(from, n), from, to);
  }

  /** Appending a newer page extends the view without a gap; an empty one means it is up to date. */
  lemma NewerStretchExtends(h: seq<Message>, view: seq<Message>, from: nat, to: nat, n: nat)
    requires IsHistory(h) && IsStretch(view, h, from, to) && view != []
    ensures var page := NewerStretch(h, view[|view| - 1].id, n);
      |page| == Min(|h| - to, n) && IsStretch(view + page, h, from, to + |page|)
  {
    assert view[|view| - 1] == h[to - 1];
    CountAt(h, to - 1);
    FirstOfSuffix(h, to, n);
    Glue(h, from, to, to + Min(|h| - to, n));
  }

  lemma OlderPageExtends(st: Chat, userID: int, conversationID: int, view: seq<Message>, from: nat, to: nat, limit: int)
    requires MayRead(st, userID, conversationID) && IsChatLimit(limit)
    requires IsStretch(view, History(st, conversationID), from, to)
    requires view == [] ==> from == |History(st, conversationID)|
    ensures var page := ListMessages(st, userID, conversationID, MessageOptions(OldestShown(view), None, limit));
      && page.Success?
      && |page.value| == Min(from, ChatPageSize(limit))
      && IsStretch(page.value + view, History(st, conversationID), from - |page.value|, to)
  {
    hide ListMessages, History;
    HistoryIsHistory(st, conversationID);
    ReadsOlder(st, userID, conversationID, OldestShown(view), limit);
    OlderStretchExtends(History(st, conversationID), view, from, to, ChatPageSize(limit));
  }

  lemma NewerPageExtends(st: Chat, userID: int, conversationID: int, view: seq<Message>, from: nat, to: nat, limit: int)
    requires MayRead(st, userID, conversationID) && IsChatLimit(limit)
    requires IsStretch(view, History(st, conversationID), from, to) && view != []
    ensures var h := History(st, conversationID);
      var page := ListMessages(st, userID, conversationID, MessageOptions(None, Some(view[|view| - 1].id), limit));
      && page.Success?
      && |page.value| == Min(|h| - to, ChatPageSize(limit))
      && IsStretch(view + page.value, h, from, to + |page.value|)
  {
    hide ListMessages, History;
    HistoryIsHistory(st, conversationID);
    ReadsNewer(st, userID, conversationID, view[|view| - 1].id, limit);
    NewerStretchExtends(History(st, conversationID), view, from, to, ChatPageSize(limit));
  }

  // ---- Walks over a fixed state ----------------------------------------------------------------

  /** Read older pages and prepend them until one is empty. */
  ghost function WalkBack(st: Chat, userID: int, conversationID: int, view: seq<Message>, limits: seq<int>)
    : (seq<Message>, bool)
    decreases |limits|
  {
    if limits == [] then (view, false)
    else
      var page := ListMessages(st, userID, conversationID, MessageOptions(OldestShown(view), None, limits[0]));
      if page.Failure? then (view, false)
      else if page.value == [] then (view, true)
      else WalkBack(st, userID, conversationID, page.value + view, limits[1..])
  }

  /** Read newer pages and append them until one is empty. */
  ghost function WalkForward(st: Chat, userID: int, conversationID: int, afterID: int, limits: seq<int>)
    : (seq<Message>, bool)
    decreases |limits|
  {
    if limits == [] then ([], false)
    else
      var page := ListMessages(st, userID, conversationID, MessageOptions(None, Some(afterID), limits[0]));
      if page.Failure? then ([], false)
      else if page.value == [] then ([], true)
      else
        var (rest, done) := WalkForward(st, userID, conversationID, page.value[|page.value| - 1].id, limits[1..]);
        (page.value + rest, done)
  }

  ghost predicate AreChatLimits(limits: seq<int>) {
    forall i | 0 <= i < |limits| :: IsChatLimit(limits[i])
  }

  ghost predicate RebuiltUpTo(end: (seq<Message>, bool), h: seq<Message>, from: nat, requests: nat) {
    && (end.1 ==> end.0 == h)
    && (requests > from ==> end.1)
    && |end.0| <= |h| && IsStretch(end.0, h, |h| - |end.0|, |h|)
  }

  /**
   Walking backwards from the end of the conversation until an empty page rebuilds the whole history
   in ascending order, for any limits that change from page to page; and the empty page does come.
   */
  lemma {:induction false} WalkBackRebuilds(
      st: Chat, userID: int, conversationID: int, view: seq<Message>, from: nat, limits: seq<int>)
    requires MayRead(st, userID, conversationID) && AreChatLimits(limits)
    requires IsStretch(view, History(st, conversationID), from, |History(st, conversationID)|)
    ensures RebuiltUpTo(WalkBack(st, userID, conversationID, view, limits), History(st, conversationID), from, |limits|)
    decreases |limits|
  {
    hide ListMessages, History;
    var h := History(st, conversationID);
    if limits == [] {
    } else {
      OlderPageExtends(st, userID, conversationID, view, from, |h|, limits[0]);
      var page := ListMessages(st, userID, conversationID, MessageOptions(OldestShown(view), None, limits[0])).value;
      if page != [] {
        WalkBackRebuilds(st, userID, conversationID, page + view, from - |page|, limits[1..]);
      }
    }
  }

  ghost predicate Yields<T>(end: (seq<T>, bool), due: seq<T>, requests: nat) {
    end.0 <= due && (end.1 ==> end.0 == due) && (requests > |due| ==> end.1)
  }

  /** A newer page and what lies after its last message are what lay after `afterID`. */
  lemma NewerStep(h: seq<Message>, afterID: int, limit: nat)
    requires IsHistory(h) && limit >= 1
    ensures var newer := h[CountUpTo(h, afterID)..];
      var page := NewerStretch(h, afterID, limit);
      && (page == [] <==> newer == [])
      && (page != [] ==>
            && page[|page| - 1].id >= 1
            && newer == page + h[CountUpTo(h, page[|page| - 1].id)..])
  {
    var n := CountUpTo(h, afterID);
    var k := Min(|h| - n, limit);
    FirstOfSuffix(h, n, limit);
    hide CountUpTo, Limit;
    assert NewerStretch(h, afterID, limit) == h[n..n + k];
    hide NewerStretch, Ascending;
    if k > 0 {
      LastOfSlice(h, n, n + k);
      CountAt(h, n + k - 1);
    }
  }

  lemma LastOfSlice<T>(h: seq<T>, from: nat, to: nat)
    requires from < to <= |h|
    ensures h[from..to] != [] && h[from..to][to - from - 1] == h[to - 1]
    ensures h[from..] == h[from..to] + h[to..]
  {
  }

  lemma StepYields<T>(page: seq<T>, rest: (seq<T>, bool), after: seq<T>, requests: nat)
    requires page != [] && requests >= 1 && Yields(rest, after, requests - 1)
    ensures Yields((page + rest.0, rest.1), page + after, requests)
  {
  }

  /** Walking forwards from `afterID` until an empty page yields exactly the newer messages. */
  lemma {:induction false} WalkForwardYieldsNewer(
      st: Chat, userID: int, conversationID: int, afterID: int, limits: seq<int>)
    requires MayRead(st, userID, conversationID) && afterID >= 1 && AreChatLimits(limits)
    ensures var h := History(st, conversationID);
      Yields(WalkForward(st, userID, conversationID, afterID, limits), h[CountUpTo(h, afterID)..], |limits|)
    decreases |limits|
  {
    hide ListMessages, History;
    var h := History(st, conversationID);
    if limits == [] {
    } else {
      HistoryIsHistory(st, conversationID);
      ReadsNewer(st, userID, conversationID, afterID, limits[0]);
      NewerStep(h, afterID, ChatPageSize(limits[0]));
      var page := NewerStretch(h, afterID, ChatPageSize(limits[0]));
      if page != [] {
        var last := page[|page| - 1].id;
        WalkForwardYieldsNewer(st, userID, conversationID, last, limits[1..]);
        StepYields(page, WalkForward(st, userID, conversationID, last, limits[1..]),
                        h[CountUpTo(h, last)..], |limits|);
      }
    }
  }

  /**
   A forward walk alone rebuilds the whole history exactly when no message of the conversation has
   an identifier up to its starting point; the smallest accepted starting point is 1.
   */
  lemma ForwardWalkIsWholeHistory(st: Chat, userID: int, conversationID: int, afterID: int, limits: seq<int>)
    requires MayRead(st, userID, conversationID) && afterID >= 1
    requires AreChatLimits(limits)
    requires WalkForward(st, userID, conversationID, afterID, limits).1
    ensures WalkForward(st, userID, conversationID, afterID, limits).0 == History(st, conversationID)
      <==> forall id | id in st.messages && st.messages[id].conversationID == conversationID :: id > afterID
  {
    var h := History(st, conversationID);
    WalkForwardYieldsNewer(st, userID, conversationID, afterID, limits);
    var n := CountUpTo(h, afterID);
    CountSplits(h, afterID);
    assert n == 0 ==> h[n..] == h;
    forall id | id in st.messages && st.messages[id].conversationID == conversationID
      ensures exists i :: 0 <= i < |h| && h[i].id == id
    {
      assert MessageOK(st, id);
      InHistory(st, conversationID, st.messages[id]);
    }
    if n > 0 {
      InHistory(st, conversationID, h[0]);
      MessageIsStored(st, conversationID, h[0]);
    }
  }

  const FIRST_CHAT_STATE := State(
    map[1 := Conversation(1, 5, 7, 8, None, None, 0, Some(0))],
    map[1 := Message(1, 1, 8, "hi", 0)], 2, 2)

  const FIRST_LISTING :=
    Listing(5, 7, "keycaps", "a", "", 10, 1, Used, Active, Visible, false, 0, 0)

  const FIRST_STARTED := State(map[1 := Conversation(1, 5, 7, 8, None, None, 0, None)], map[], 2, 1)

  lemma FirstStart()
    ensures StartConversation(EMPTY, Some(FIRST_LISTING), User(8, false), 0).0 == FIRST_STARTED
  {
    assert !HasTuple(EMPTY, 5, 7, 8);
  }

  lemma HiIsABody()
    ensures TrimSpace("hi") == "hi" && !BadMessageBody("hi")
  {
    NothingToTrim("hi");
  }

  lemma FirstSend()
    ensures SendMessage(FIRST_STARTED, User(8, false), 1, "hi", 0, NoFault).0 == FIRST_CHAT_STATE
  {
    HiIsABody();
    hide TrimSpace, BadMessageBody;
    TrimmedSendCommits(FIRST_STARTED, User(8, false), 1, "hi", 0);
  }

  /** One conversation started and one message sent lead there. */
  lemma FirstChatIsReachable()
    ensures var buyer := User(8, false);
      Run(EMPTY, [Start(Some(FIRST_LISTING), buyer, 0), Send(buyer, 1, "hi", 0, NoFault)]) == FIRST_CHAT_STATE
  {
    hide StartConversation, SendMessage;
    var calls := [Start(Some(FIRST_LISTING), User(8, false), 0), Send(User(8, false), 1, "hi", 0, NoFault)];
    FirstStart();
    FirstSend();
    assert Apply(EMPTY, calls[0]) == FIRST_STARTED;
    assert Run(FIRST_STARTED, calls[1..]) == Apply(FIRST_STARTED, calls[1]);
  }

  lemma FirstChatIsConsistent()
    ensures Consistent(FIRST_CHAT_STATE)
  {
    assert ConversationOK(FIRST_CHAT_STATE, 1) && MessageOK(FIRST_CHAT_STATE, 1);
  }

  ghost function FirstChat(): Chat {
    FirstChatIsConsistent();
    FIRST_CHAT_STATE
  }

  /** The very first message cannot be reached by any catch-up read, because after_id must be positive. */
  lemma FirstMessageIsOutOfForwardReach(afterID: int, limits: seq<int>)
    requires AreChatLimits(limits)
    ensures MayRead(FirstChat(), 8, 1) && History(FirstChat(), 1) != []
    ensures WalkForward(FirstChat(), 8, 1, afterID, limits).0 == []
  {
    var h := History(FirstChat(), 1);
    InHistory(FirstChat(), 1, FIRST_CHAT_STATE.messages[1]);
    if limits != [] && afterID >= 1 {
      WalkForwardYieldsNewer(FirstChat(), 8, 1, afterID, limits);
      forall i | 0 <= i < |h| ensures h[i].id <= afterID {
        InHistory(FirstChat(), 1, h[i]);
        MessageIsStored(FirstChat(), 1, h[i]);
      }
      CountSplits(h, afterID);
    }
  }
}
