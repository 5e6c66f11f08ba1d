/**
 Whole walks through a listing paginator: a client follows the next cursor until it is absent,
 while sellers create, edit and re-status listings between the page requests.
 */
module Walks {
  import opened Wrappers
  import opened Listings
  import opened Keyset
  import opened Paging

  datatype Client = Client(cursor: Cursor, done: bool, shown: seq<Listing>)

  datatype Session = Session(table: Table, client: Client)

  datatype Op = WriteOp(write: Write) | FetchOp(limit: int)

  const FRESH := Client(NoCursor, false, [])

  /** A refused request shows nothing and leaves the client where it was. */
  ghost function FetchPage(t: Table, r: Paging.Request, c: Client, limit: int): Client
    requires Valid(t)
  {
    if c.done then c else
      match ListPage(t, r, c.cursor, limit)
      case Failure(_) => c
      case Success(page) => Client(page.next, page.next.NoCursor?, c.shown + page.items)
  }

  ghost function Apply(s: Session, r: Paging.Request, op: Op): Session
    requires Valid(s.table)
    ensures Valid(Apply(s, r, op).table)
  {
    match op
    case WriteOp(w) =>
      WriteEvolves(s.table, w);
      s.(table := ApplyWrite(s.table, w))
    case FetchOp(limit) => s.(client := FetchPage(s.table, r, s.client, limit))
  }

  ghost function Run(s: Session, r: Paging.Request, ops: seq<Op>): (end: Session)
    requires Valid(s.table)
    ensures Valid(end.table)
    decreases |ops|
  {
    if ops == [] then s else Run(Apply(s, r, ops[0]), r, ops[1..])
  }

  // ---- A session is a keyset walk --------------------------------------------------------------

  /** The client's cursor text stands for the cursor of the abstract walk. */
  ghost predicate Linked(r: Paging.Request, c: Client, w: Walk<Listing>) {
    && c.done == w.done && c.shown == w.shown
    && Coherent(w, KeyFor(r))
    && (!c.done ==> Decode(r, c.cursor).Success? && PositionKey(r, Decode(r, c.cursor).value) == w.cursor)
  }

  lemma CandidatesSeparate(t: Table, r: Paging.Request)
    requires Valid(t)
    ensures Separates(Candidates(t, r), KeyFor(r))
  {
    RowsHaveDistinctKeys(t, r, Candidates(t, r));
  }

  /** The query returns the first rows that remain behind the cursor. */
  lemma SelectIsRemaining(t: Table, r: Paging.Request, cursor: Cursor, limit: nat)
    requires Valid(t) && Decode(r, cursor).Success?
    ensures Separates(Candidates(t, r), KeyFor(r))
    ensures var p := Decode(r, cursor).value;
      Select(t, r, p, limit) == Limit(Remaining(Candidates(t, r), KeyFor(r), PositionKey(r, p)), limit)
  {
    CandidatesSeparate(t, r);
    var p := Decode(r, cursor).value;
    forall l ensures Resumes(SortOf(r), p, l) <==> After(PositionKey(r, p), KeyFor(r)(l)) {
      ResumePredicatesMatchKeys(r, cursor, l);
    }
    assert (set l | l in Rows(t) && Matches(r, l) && Resumes(SortOf(r), p, l))
      == Resumed(Candidates(t, r), KeyFor(r), PositionKey(r, p));
  }

  predicate IsLimit(limit: int) { 0 <= limit <= MAX_PAGE_LIMIT }

  function PageSize(limit: int): nat
    requires IsLimit(limit)
  {
    if limit == 0 then DEFAULT_PAGE_LIMIT else limit
  }

  lemma LimitIsFree(r: Paging.Request, limit: int)
    requires Acceptable(r)
    ensures CheckOptions(r, limit)
      == if IsLimit(limit) then Success(PageSize(limit)) else Failure(BadQuery({LimitParam}))
  {
  }

  lemma CutListingsIsCutPage(r: Paging.Request, rows: seq<Listing>, limit: nat)
    requires limit >= 1
    ensures var page, cut := CutListings(r, rows, limit), CutPage(rows, limit, KeyFor(r));
      && page.items == cut.items
      && (cut.next.None? ==> page.next.NoCursor?)
      && (cut.next.Some? ==> page.items != [] && page.next == CursorAt(r, page.items[|page.items| - 1]))
  {
  }

  /** The text of a next cursor stands for the key of a page's cut. */
  ghost predicate SameNext(r: Paging.Request, next: Cursor, key: Option<Key>) {
    && (key.None? <==> next.NoCursor?)
    && Decode(r, next).Success? && PositionKey(r, Decode(r, next).value) == key
  }

  lemma ListPageCutsRemaining(t: Table, r: Paging.Request, cursor: Cursor, limit: int)
    requires Valid(t) && Acceptable(r) && IsLimit(limit) && Decode(r, cursor).Success?
    ensures Separates(Candidates(t, r), KeyFor(r))
    ensures var n, k := PageSize(limit), PositionKey(r, Decode(r, cursor).value);
      ListPage(t, r, cursor, limit)
        == Success(CutListings(r, Limit(Remaining(Candidates(t, r), KeyFor(r), k), n + 1), n))
  {
    hide CheckOptions, Select, Decode, CutListings, Candidates, Acceptable, Remaining, Limit, PositionKey, KeyFor;
    LimitIsFree(r, limit);
    SelectIsRemaining(t, r, cursor, PageSize(limit) + 1);
  }

  /** A request with acceptable options and its own cursor is answered with one keyset page. */
  lemma ListPageIsPageAt(t: Table, r: Paging.Request, cursor: Cursor, limit: int)
    requires Valid(t) && Acceptable(r) && IsLimit(limit) && Decode(r, cursor).Success?
    ensures Separates(Candidates(t, r), KeyFor(r))
    ensures var page := PageAt(Candidates(t, r), KeyFor(r), PositionKey(r, Decode(r, cursor).value), PageSize(limit));
      && ListPage(t, r, cursor, limit).Success?
      && ListPage(t, r, cursor, limit).value.items == page.items
      && SameNext(r, ListPage(t, r, cursor, limit).value.next, page.next)
  {
    hide PageAt, CutListings, Select, Decode, ListPage, Remaining, Limit, Candidates, KeyFor, PositionKey, SameNext;
    ListPageCutsRemaining(t, r, cursor, limit);
    CutIsPageAt(t, r, PositionKey(r, Decode(r, cursor).value), PageSize(limit));
  }

  lemma CutIsPageAt(t: Table, r: Paging.Request, k: Option<Key>, n: nat)
    requires Valid(t) && Acceptable(r) && n >= 1 && Separates(Candidates(t, r), KeyFor(r))
    ensures var page := PageAt(Candidates(t, r), KeyFor(r), k, n);
      var cut := CutListings(r, Limit(Remaining(Candidates(t, r), KeyFor(r), k), n + 1), n);
      cut.items == page.items && SameNext(r, cut.next, page.next)
  {
    hide CutListings, Remaining, Limit, Candidates, Acceptable;
    CutListingsIsCutPage(r, Limit(Remaining(Candidates(t, r), KeyFor(r), k), n + 1), n);
    var page := PageAt(Candidates(t, r), KeyFor(r), k, n);
    PageIsAhead(Candidates(t, r), KeyFor(r), k, n);
    if page.next.Some? {
      NextCursorDecodes(t, r, page.items[|page.items| - 1]);
    }
  }

  /** A fetch with an acceptable limit advances the abstract walk by one page. */
  lemma FetchIsWalkStep(t: Table, r: Paging.Request, c: Client, w: Walk<Listing>, limit: int)
    requires Valid(t) && Acceptable(r) && Linked(r, c, w) && IsLimit(limit)
    ensures Separates(Candidates(t, r), KeyFor(r))
    ensures Linked(r, FetchPage(t, r, c, limit),
                   WalkStep(w, Keyset.Request(Candidates(t, r), PageSize(limit)), KeyFor(r)))
  {
    CandidatesSeparate(t, r);
    StepStaysCoherent(w, Keyset.Request(Candidates(t, r), PageSize(limit)), KeyFor(r));
    if !c.done {
      ListPageIsPageAt(t, r, c.cursor, limit);
    }
  }

  lemma NextCursorDecodes(t: Table, r: Paging.Request, last: Listing)
    requires Valid(t) && Acceptable(r) && last in Candidates(t, r)
    ensures !CursorAt(r, last).NoCursor?
    ensures Decode(r, CursorAt(r, last)).Success?
    ensures PositionKey(r, Decode(r, CursorAt(r, last)).value) == Some(KeyFor(r)(last))
  {
    CursorAcceptedExactly(t, r, r, last);
  }

  /** An operation the paginator answers: a page request with an acceptable limit. */
  predicate IsAnswered(op: Op) { op.FetchOp? && IsLimit(op.limit) }

  ghost function RequestOf(t: Table, r: Paging.Request, op: Op): Keyset.Request<Listing>
    requires IsAnswered(op)
  {
    Keyset.Request(Candidates(t, r), PageSize(op.limit))
  }

  /** The page requests of a run that are answered, with the rows they were answered from. */
  ghost function Requests(s: Session, r: Paging.Request, ops: seq<Op>): seq<Keyset.Request<Listing>>
    requires Valid(s.table)
    decreases |ops|
  {
    if ops == [] then []
    else if IsAnswered(ops[0]) then
      [RequestOf(s.table, r, ops[0])] + Requests(Apply(s, r, ops[0]), r, ops[1..])
    else Requests(Apply(s, r, ops[0]), r, ops[1..])
  }

  /** The abstract walk after one operation: writes and refused requests leave it alone. */
  ghost function Advance(t: Table, r: Paging.Request, op: Op, w: Walk<Listing>): Walk<Listing>
    requires Valid(t)
  {
    if IsAnswered(op) then
      CandidatesSeparate(t, r);
      WalkStep(w, RequestOf(t, r, op), KeyFor(r))
    else w
  }

  lemma ApplyIsAdvance(s: Session, r: Paging.Request, op: Op, w: Walk<Listing>)
    requires Valid(s.table) && Acceptable(r) && Linked(r, s.client, w)
    ensures Linked(r, Apply(s, r, op).client, Advance(s.table, r, op, w))
  {
    if op.FetchOp? {
      if IsLimit(op.limit) {
        FetchIsWalkStep(s.table, r, s.client, w, op.limit);
      } else {
        LimitIsFree(r, op.limit);
      }
    }
  }

  lemma {:induction false} RequestsAnswerable(s: Session, r: Paging.Request, ops: seq<Op>)
    requires Valid(s.table)
    ensures Answerable(Requests(s, r, ops), KeyFor(r))
    decreases |ops|
  {
    if ops == [] {
    } else {
      RequestsAnswerable(Apply(s, r, ops[0]), r, ops[1..]);
      CandidatesSeparate(s.table, r);
    }
  }

  lemma {:induction false} RunIsWalk(s: Session, r: Paging.Request, ops: seq<Op>, w: Walk<Listing>)
    requires Valid(s.table) && Acceptable(r) && Linked(r, s.client, w)
    ensures Answerable(Requests(s, r, ops), KeyFor(r))
    ensures Linked(r, Run(s, r, ops).client, WalkFrom(w, Requests(s, r, ops), KeyFor(r)))
    decreases |ops|
  {
    RequestsAnswerable(s, r, ops);
    if ops == [] {
    } else {
      var next := Apply(s, r, ops[0]);
      ApplyIsAdvance(s, r, ops[0], w);
      RunIsWalk(next, r, ops[1..], Advance(s.table, r, ops[0], w));
      WalkFromCons(s, r, ops, w);
    }
  }

  lemma WalkFromCons(s: Session, r: Paging.Request, ops: seq<Op>, w: Walk<Listing>)
    requires Valid(s.table) && ops != []
    requires Answerable(Requests(s, r, ops), KeyFor(r))
    ensures var rest := Requests(Apply(s, r, ops[0]), r, ops[1..]);
      && Answerable(rest, KeyFor(r))
      && WalkFrom(w, Requests(s, r, ops), KeyFor(r)) == WalkFrom(Advance(s.table, r, ops[0], w), rest, KeyFor(r))
  {
    RequestsAnswerable(Apply(s, r, ops[0]), r, ops[1..]);
    if IsAnswered(ops[0]) {
      assert Requests(s, r, ops)[1..] == Requests(Apply(s, r, ops[0]), r, ops[1..]);
    }
  }

  lemma FreshIsLinked(r: Paging.Request)
    ensures Linked(r, FRESH, Start())
  {
  }

  // ---- A table nobody writes to ----------------------------------------------------------------

  /** The whole answer to a request: every matching row once, in the order of its ORDER BY. */
  ghost function Answer(t: Table, r: Paging.Request): seq<Listing>
    requires Valid(t)
  {
    CandidatesSeparate(t, r);
    OrderBy(Candidates(t, r), KeyFor(r))
  }

  lemma AnswerIsSorted(t: Table, r: Paging.Request)
    requires Valid(t)
    ensures forall l :: l in Answer(t, r) <==> l.id in t.rows && t.rows[l.id] == l && Matches(r, l)
    ensures forall i, j | 0 <= i < j < |Answer(t, r)| :: ReturnedBefore(r, Answer(t, r)[i], Answer(t, r)[j])
  {
    var a := Answer(t, r);
    forall l ensures l in a <==> l.id in t.rows && t.rows[l.id] == l && Matches(r, l) {
      assert l in a <==> l in Elements(a);
      if l in a { RowIsStored(t, l); }
    }
    forall i, j | 0 <= i < j < |a| ensures ReturnedBefore(r, a[i], a[j]) {
      assert Precedes(KeyFor(r)(a[i]), KeyFor(r)(a[j]));
      OrderClausesMatchKeys(r, a[i], a[j]);
    }
  }

  function Fetches(limits: seq<int>): seq<Op> {
    seq(|limits|, i requires 0 <= i < |limits| => FetchOp(limits[i]))
  }

  ghost predicate IsFetching(ops: seq<Op>) {
    forall i | 0 <= i < |ops| :: IsAnswered(ops[i])
  }

  lemma {:induction false} FetchingSeesOneTable(s: Session, r: Paging.Request, ops: seq<Op>)
    requires Valid(s.table) && IsFetching(ops)
    ensures Run(s, r, ops).table == s.table
    ensures |Requests(s, r, ops)| == |ops| && Unchanging(Requests(s, r, ops), Candidates(s.table, r))
    decreases |ops|
  {
    if ops == [] {
    } else {
      assert IsAnswered(ops[0]);
      assert forall i | 0 <= i < |ops[1..]| :: ops[1..][i] == ops[i + 1];
      FetchingSeesOneTable(Apply(s, r, ops[0]), r, ops[1..]);
    }
  }

  /** From any unfinished session on, an undisturbed walk shows exactly what remains. */
  lemma UndisturbedWalk(s: Session, r: Paging.Request, ops: seq<Op>, w: Walk<Listing>)
    requires Valid(s.table) && Acceptable(r) && Linked(r, s.client, w) && !w.done && IsFetching(ops)
    ensures Separates(Candidates(s.table, r), KeyFor(r))
    ensures var rest := Remaining(Candidates(s.table, r), KeyFor(r), w.cursor);
      var end := Run(s, r, ops).client;
      && end.shown <= s.client.shown + rest
      && (end.done ==> end.shown == s.client.shown + rest)
      && (|ops| > |rest| ==> end.done)
  {
    CandidatesSeparate(s.table, r);
    FetchingSeesOneTable(s, r, ops);
    RunIsWalk(s, r, ops, w);
    FixedWalkContinues(w, Requests(s, r, ops), KeyFor(r), Candidates(s.table, r));
  }

  /**
   Over an unchanging table, for any of the five orders, any acceptable filters and any limits in
   0..100 (0 means the default) changing from page to page, following the next cursor until it is
   absent yields every matching listing exactly once in the stated order; and the cursor does
   become absent, because every page but the last shows at least one of them.
   */
  lemma FixedTableWalk(t: Table, r: Paging.Request, limits: seq<int>)
    requires Valid(t) && Acceptable(r) && forall i | 0 <= i < |limits| :: IsLimit(limits[i])
    ensures var end := Run(Session(t, FRESH), r, Fetches(limits)).client;
      && end.shown <= Answer(t, r)
      && (end.done ==> end.shown == Answer(t, r))
      && (|limits| > |Answer(t, r)| ==> end.done)
  {
    FreshIsLinked(r);
    UndisturbedWalk(Session(t, FRESH), r, Fetches(limits), Start());
    assert Resumed(Candidates(t, r), KeyFor(r), None) == Candidates(t, r);
  }

  // ---- Writers between the pages: no listing twice ---------------------------------------------

  function ListingID(l: Listing): int { l.id }

  /** No listing already shown has moved to a later sort position than the one it was shown at. */
  ghost predicate StaysBehind(t: Table, r: Paging.Request, shown: seq<Listing>) {
    forall i | 0 <= i < |shown| ::
      && shown[i].id in t.rows
      && !Precedes(KeyOf(r, shown[i]), KeyOf(r, t.rows[shown[i].id]))
  }

  /** No write of the run moves a listing that was already shown to a later sort position. */
  ghost predicate NeverAdvances(s: Session, r: Paging.Request, ops: seq<Op>)
    requires Valid(s.table)
    decreases |ops|
  {
    ops != [] ==>
      && (ops[0].WriteOp? ==> StaysBehind(ApplyWrite(s.table, ops[0].write), r, s.client.shown))
      && NeverAdvances(Apply(s, r, ops[0]), r, ops[1..])
  }

  /** Rows behind the cursor cannot be listings whose position has stayed at or before it. */
  lemma RowsAheadAreNew(t: Table, r: Paging.Request, w: Walk<Listing>, items: seq<Listing>)
    requires Valid(t) && Coherent(w, KeyFor(r)) && !w.done && StaysBehind(t, r, w.shown)
    requires Ascending(items, KeyFor(r))
    requires forall l | l in items :: l in Candidates(t, r) && After(w.cursor, KeyFor(r)(l))
    ensures Distinct(items, ListingID)
    ensures forall j | 0 <= j < |items| :: items[j].id in t.rows && t.rows[items[j].id] == items[j]
    ensures forall i, j | 0 <= i < |w.shown| && 0 <= j < |items| :: w.shown[i].id != items[j].id
  {
    forall j | 0 <= j < |items|
      ensures items[j].id in t.rows && t.rows[items[j].id] == items[j]
      ensures After(w.cursor, KeyOf(r, items[j]))
    {
      assert items[j] in items;
      RowIsStored(t, items[j]);
    }
    forall i, j | 0 <= i < j < |items| ensures items[i].id != items[j].id {
      assert Precedes(KeyFor(r)(items[i]), KeyFor(r)(items[j]));
    }
    forall i | 0 <= i < |w.shown| ensures !After(w.cursor, KeyOf(r, t.rows[w.shown[i].id])) {
      assert i < |w.shown| - 1 ==> Precedes(KeyFor(r)(w.shown[i]), KeyFor(r)(w.shown[|w.shown| - 1]));
    }
  }

  lemma FetchShowsNewListings(s: Session, r: Paging.Request, limit: int, w: Walk<Listing>)
    requires Valid(s.table) && Acceptable(r) && Linked(r, s.client, w) && IsLimit(limit) && !s.client.done
    requires Distinct(s.client.shown, ListingID) && StaysBehind(s.table, r, s.client.shown)
    ensures Distinct(FetchPage(s.table, r, s.client, limit).shown, ListingID)
    ensures StaysBehind(s.table, r, FetchPage(s.table, r, s.client, limit).shown)
  {
    var t := s.table;
    ListPageIsPageAt(t, r, s.client.cursor, limit);
    PageIsAhead(Candidates(t, r), KeyFor(r), w.cursor, PageSize(limit));
    var items := PageAt(Candidates(t, r), KeyFor(r), w.cursor, PageSize(limit)).items;
    RowsAheadAreNew(t, r, w, items);
    AppendDistinct(t, r, s.client.shown, items);
  }

  /** One step of a walk that shows nothing twice; only a write can break the invariant. */
  lemma StepKeepsDistinct(s: Session, r: Paging.Request, op: Op, w: Walk<Listing>)
    requires Valid(s.table) && Acceptable(r) && Linked(r, s.client, w)
    requires Distinct(s.client.shown, ListingID) && StaysBehind(s.table, r, s.client.shown)
    requires op.WriteOp? ==> StaysBehind(ApplyWrite(s.table, op.write), r, s.client.shown)
    ensures var next := Apply(s, r, op);
      && Distinct(next.client.shown, ListingID) && StaysBehind(next.table, r, next.client.shown)
      && Linked(r, next.client, Advance(s.table, r, op, w))
  {
    ApplyIsAdvance(s, r, op, w);
    if op.FetchOp? && !s.client.done {
      if IsLimit(op.limit) {
        FetchShowsNewListings(s, r, op.limit, w);
      } else {
        LimitIsFree(r, op.limit);
      }
    }
  }

  lemma AppendDistinct(t: Table, r: Paging.Request, shown: seq<Listing>, items: seq<Listing>)
    requires Distinct(shown, ListingID) && Distinct(items, ListingID)
    requires forall i, j | 0 <= i < |shown| && 0 <= j < |items| :: shown[i].id != items[j].id
    requires StaysBehind(t, r, shown)
    requires forall j | 0 <= j < |items| :: items[j].id in t.rows && t.rows[items[j].id] == items[j]
    ensures Distinct(shown + items, ListingID) && StaysBehind(t, r, shown + items)
  {
  }

  /**
   Whatever else happens between the pages, a walk never shows a listing twice as long as no write
   moves a shown listing forward in the walk's order.
   */
  lemma {:induction false} NoListingTwice(s: Session, r: Paging.Request, ops: seq<Op>, w: Walk<Listing>)
    requires Valid(s.table) && Acceptable(r) && Linked(r, s.client, w)
    requires Distinct(s.client.shown, ListingID) && StaysBehind(s.table, r, s.client.shown)
    requires NeverAdvances(s, r, ops)
    ensures Distinct(Run(s, r, ops).client.shown, ListingID)
    decreases |ops|
  {
    if ops == [] {
    } else {
      StepKeepsDistinct(s, r, ops[0], w);
      NoListingTwice(Apply(s, r, ops[0]), r, ops[1..], Advance(s.table, r, ops[0], w));
    }
  }

  predicate IsNewest(r: Paging.Request) { r.Search? && NormalizedSort(r.filters.sort).Newest? }

  /** `newest` sorts by columns no write touches. */
  lemma NewestWriteStaysBehind(t: Table, r: Paging.Request, write: Write, shown: seq<Listing>)
    requires Valid(t) && IsNewest(r) && StaysBehind(t, r, shown)
    ensures StaysBehind(ApplyWrite(t, write), r, shown)
  {
    WriteEvolves(t, write);
  }

  lemma {:induction false} NewestNeverAdvances(s: Session, r: Paging.Request, ops: seq<Op>, w: Walk<Listing>)
    requires Valid(s.table) && IsNewest(r) && Acceptable(r) && Linked(r, s.client, w)
    requires Distinct(s.client.shown, ListingID) && StaysBehind(s.table, r, s.client.shown)
    ensures NeverAdvances(s, r, ops)
    decreases |ops|
  {
    if ops == [] {
    } else {
      if ops[0].WriteOp? {
        NewestWriteStaysBehind(s.table, r, ops[0].write, s.client.shown);
      }
      StepKeepsDistinct(s, r, ops[0], w);
      NewestNeverAdvances(Apply(s, r, ops[0]), r, ops[1..], Advance(s.table, r, ops[0], w));
    }
  }

  /** Write timestamps never go backwards: each is at least every `updated_at` stored so far. */
  ghost predicate ClockForward(s: Session, r: Paging.Request, ops: seq<Op>)
    requires Valid(s.table)
    decreases |ops|
  {
    ops != [] ==>
      && (ops[0].WriteOp? ==> forall id | id in s.table.rows :: s.table.rows[id].updatedAt <= ops[0].write.now)
      && ClockForward(Apply(s, r, ops[0]), r, ops[1..])
  }

  /** `updated_at DESC`: an edit moves a listing towards the front, which a walk has passed. */
  lemma OwnedWriteStaysBehind(t: Table, r: Paging.Request, write: Write, shown: seq<Listing>)
    requires Valid(t) && r.Owned? && StaysBehind(t, r, shown)
    requires forall id | id in t.rows :: t.rows[id].updatedAt <= write.now
    ensures StaysBehind(ApplyWrite(t, write), r, shown)
  {
    WriteEvolves(t, write);
  }

  lemma {:induction false} OwnedNeverAdvances(s: Session, r: Paging.Request, ops: seq<Op>, w: Walk<Listing>)
    requires Valid(s.table) && r.Owned? && Acceptable(r) && Linked(r, s.client, w)
    requires Distinct(s.client.shown, ListingID) && StaysBehind(s.table, r, s.client.shown)
    requires ClockForward(s, r, ops)
    ensures NeverAdvances(s, r, ops)
    decreases |ops|
  {
    if ops == [] {
    } else {
      if ops[0].WriteOp? {
        OwnedWriteStaysBehind(s.table, r, ops[0].write, s.client.shown);
      }
      StepKeepsDistinct(s, r, ops[0], w);
      OwnedNeverAdvances(Apply(s, r, ops[0]), r, ops[1..], Advance(s.table, r, ops[0], w));
    }
  }

  /** A seller's own listings are never shown twice in one walk if the clock does not go back. */
  lemma OwnedWalkNeverRepeats(t: Table, r: Paging.Request, ops: seq<Op>)
    requires Valid(t) && r.Owned? && Acceptable(r) && ClockForward(Session(t, FRESH), r, ops)
    ensures Distinct(Run(Session(t, FRESH), r, ops).client.shown, ListingID)
  {
    FreshIsLinked(r);
    OwnedNeverAdvances(Session(t, FRESH), r, ops, Start());
    NoListingTwice(Session(t, FRESH), r, ops, Start());
  }

  // ---- Writers between the pages: nothing missed -----------------------------------------------

  /** At every answered page request the listing matches and sits at sort position `k`. */
  ghost predicate KeepsPlace(s: Session, r: Paging.Request, ops: seq<Op>, id: int, k: Key)
    requires Valid(s.table)
    decreases |ops|
  {
    ops != [] ==>
      && (IsAnswered(ops[0]) ==>
            id in s.table.rows && Matches(r, s.table.rows[id]) && KeyOf(r, s.table.rows[id]) == k)
      && KeepsPlace(Apply(s, r, ops[0]), r, ops[1..], id, k)
  }

  lemma {:induction false} KeepsPlaceIsPresent(s: Session, r: Paging.Request, ops: seq<Op>, id: int, k: Key)
    requires Valid(s.table) && KeepsPlace(s, r, ops, id, k)
    ensures AlwaysPresent(Requests(s, r, ops), KeyFor(r), k)
    decreases |ops|
  {
    hide Valid, Apply, Matches, KeyOf;
    if ops == [] {
    } else {
      var rest := Requests(Apply(s, r, ops[0]), r, ops[1..]);
      KeepsPlaceIsPresent(Apply(s, r, ops[0]), r, ops[1..], id, k);
      if IsAnswered(ops[0]) {
        var all := Requests(s, r, ops);
        var l := s.table.rows[id];
        assert l in RequestOf(s.table, r, ops[0]).rows && KeyFor(r)(l) == k;
        forall i | 0 <= i < |all| ensures exists l :: l in all[i].rows && KeyFor(r)(l) == k {
          assert i > 0 ==> all[i] == rest[i - 1];
        }
      }
    }
  }

  /**
   For any order: a listing that matches at every page request without changing its sort position
   is shown by every walk that finishes, whatever is inserted, edited or re-statused around it.
   */
  lemma NothingMissed(t: Table, r: Paging.Request, ops: seq<Op>, id: int, k: Key)
    requires Valid(t) && Acceptable(r) && KeepsPlace(Session(t, FRESH), r, ops, id, k)
    requires Run(Session(t, FRESH), r, ops).client.done
    ensures var shown := Run(Session(t, FRESH), r, ops).client.shown;
      exists i :: 0 <= i < |shown| && KeyOf(r, shown[i]) == k
  {
    var s := Session(t, FRESH);
    FreshIsLinked(r);
    RunIsWalk(s, r, ops, Start());
    KeepsPlaceIsPresent(s, r, ops, id, k);
    WalkMissesNothingStable(Start(), Requests(s, r, ops), KeyFor(r), k);
    var shown := Run(s, r, ops).client.shown;
    var l :| l in shown && KeyFor(r)(l) == k;
    var i :| 0 <= i < |shown| && shown[i] == l;
    assert KeyOf(r, shown[i]) == k;
  }

  /** At every answered page request of the run the listing matches the filters. */
  ghost predicate MatchesThroughout(s: Session, r: Paging.Request, ops: seq<Op>, id: int)
    requires Valid(s.table)
    decreases |ops|
  {
    ops != [] ==>
      && (IsAnswered(ops[0]) ==> id in s.table.rows && Matches(r, s.table.rows[id]))
      && MatchesThroughout(Apply(s, r, ops[0]), r, ops[1..], id)
  }

  lemma NewestKeyIsStable(s: Session, r: Paging.Request, op: Op, id: int)
    requires Valid(s.table) && IsNewest(r) && id in s.table.rows
    ensures var t := Apply(s, r, op).table; id in t.rows && KeyOf(r, t.rows[id]) == KeyOf(r, s.table.rows[id])
  {
    hide ApplyWrite, FetchPage;
    if op.WriteOp? { WriteEvolves(s.table, op.write); }
  }

  /** Creation time and identifier are never rewritten, so under `newest` a listing keeps its place. */
  lemma {:induction false} NewestKeepsPlace(s: Session, r: Paging.Request, ops: seq<Op>, id: int)
    requires Valid(s.table) && IsNewest(r) && id in s.table.rows && MatchesThroughout(s, r, ops, id)
    ensures KeepsPlace(s, r, ops, id, KeyOf(r, s.table.rows[id]))
    decreases |ops|
  {
    if ops == [] {
    } else {
      NewestKeyIsStable(s, r, ops[0], id);
      NewestKeepsPlace(Apply(s, r, ops[0]), r, ops[1..], id);
    }
  }

  /**
   Across any run of creates, edits and status changes between the page fetches, a `newest` walk
   never shows a listing twice, and once finished it has shown every listing that existed at the
   start and matched at every fetch.
   */
  lemma NewestWalk(t: Table, r: Paging.Request, ops: seq<Op>, id: int)
    requires Valid(t) && IsNewest(r) && Acceptable(r)
    ensures var end := Run(Session(t, FRESH), r, ops).client;
      && Distinct(end.shown, ListingID)
      && (end.done && id in t.rows && MatchesThroughout(Session(t, FRESH), r, ops, id) ==>
            exists i :: 0 <= i < |end.shown| && end.shown[i].id == id)
  {
    var s := Session(t, FRESH);
    FreshIsLinked(r);
    NewestNeverAdvances(s, r, ops, Start());
    NoListingTwice(s, r, ops, Start());
    var end := Run(s, r, ops).client;
    if end.done && id in t.rows && MatchesThroughout(s, r, ops, id) {
      NewestKeepsPlace(s, r, ops, id);
      NothingMissed(t, r, ops, id, KeyOf(r, t.rows[id]));
      var i :| 0 <= i < |end.shown| && KeyOf(r, end.shown[i]) == KeyOf(r, t.rows[id]);
      assert end.shown[i].id == id;
    }
  }

  // ---- Price walks: exactly when a listing is repeated -----------------------------------------

  /** Some listing already shown now matches and sits behind the cursor again. */
  ghost predicate HasRelapsed(t: Table, r: Paging.Request, c: Client) {
    exists i :: 0 <= i < |c.shown| && IsAhead(t, r, c, c.shown[i].id)
  }

  /** The listing matches and lies behind the client's cursor. */
  ghost predicate IsAhead(t: Table, r: Paging.Request, c: Client, id: int) {
    && id in t.rows && Matches(r, t.rows[id])
    && Decode(r, c.cursor).Success? && Resumes(SortOf(r), Decode(r, c.cursor).value, t.rows[id])
  }

  /**
   Left to finish on the table as it is now, an unfinished walk that has shown nothing twice will
   repeat a listing exactly when some shown listing matches and lies behind the cursor again.
   */
  lemma RepeatsExactlyWhenRelapsed(s: Session, r: Paging.Request, ops: seq<Op>, w: Walk<Listing>)
    requires Valid(s.table) && Acceptable(r) && Linked(r, s.client, w) && !w.done
    requires Distinct(s.client.shown, ListingID)
    requires IsFetching(ops) && Run(s, r, ops).client.done
    ensures Distinct(Run(s, r, ops).client.shown, ListingID) <==> !HasRelapsed(s.table, r, s.client)
  {
    hide Run, Remaining, Candidates, IsAhead, FetchPage, Acceptable, Matches, Decode, Coherent;
    var t, c := s.table, s.client;
    UndisturbedWalk(s, r, ops, w);
    RemainingIDs(t, r, w.cursor);
    var rest := Remaining(Candidates(t, r), KeyFor(r), w.cursor);
    DistinctConcat(c.shown, rest, ListingID);
    forall i | 0 <= i < |c.shown|
      ensures IsAhead(t, r, c, c.shown[i].id) <==> exists j :: 0 <= j < |rest| && rest[j].id == c.shown[i].id
    {
      RelapseIsRemaining(t, r, c, w, c.shown[i].id);
    }
  }

  lemma RelapseIsRemaining(t: Table, r: Paging.Request, c: Client, w: Walk<Listing>, id: int)
    requires Valid(t) && Linked(r, c, w) && !w.done && Separates(Candidates(t, r), KeyFor(r))
    ensures var rest := Remaining(Candidates(t, r), KeyFor(r), w.cursor);
      IsAhead(t, r, c, id) <==> exists j :: 0 <= j < |rest| && rest[j].id == id
  {
    RemainingIDs(t, r, w.cursor);
    if id in t.rows {
      ResumePredicatesMatchKeys(r, c.cursor, t.rows[id]);
    }
  }

  lemma RemainingIDs(t: Table, r: Paging.Request, cursor: Option<Key>)
    requires Valid(t)
    ensures Separates(Candidates(t, r), KeyFor(r))
    ensures var rest := Remaining(Candidates(t, r), KeyFor(r), cursor);
      && Distinct(rest, ListingID)
      && (forall j | 0 <= j < |rest| :: rest[j].id in t.rows && Matches(r, t.rows[rest[j].id])
                                        && After(cursor, KeyOf(r, t.rows[rest[j].id])))
      && (forall id | id in t.rows && Matches(r, t.rows[id]) && After(cursor, KeyOf(r, t.rows[id])) ::
            exists j :: 0 <= j < |rest| && rest[j].id == id)
  {
    CandidatesSeparate(t, r);
    var rest := Remaining(Candidates(t, r), KeyFor(r), cursor);
    forall j | 0 <= j < |rest|
      ensures rest[j].id in t.rows && t.rows[rest[j].id] == rest[j]
      ensures Matches(r, rest[j]) && After(cursor, KeyOf(r, rest[j]))
    {
      RemainingMembers(Candidates(t, r), KeyFor(r), cursor, rest[j]);
      RowIsStored(t, rest[j]);
    }
    forall i, j | 0 <= i < j < |rest| ensures rest[i].id != rest[j].id {
      assert Precedes(KeyFor(r)(rest[i]), KeyFor(r)(rest[j]));
    }
    forall id | id in t.rows && Matches(r, t.rows[id]) && After(cursor, KeyOf(r, t.rows[id]))
      ensures exists j :: 0 <= j < |rest| && rest[j].id == id
    {
      RemainingMembers(Candidates(t, r), KeyFor(r), cursor, t.rows[id]);
      var j :| 0 <= j < |rest| && rest[j] == t.rows[id];
    }
  }

  // ---- The writes of a session -----------------------------------------------------------------

  function WritesOf(ops: seq<Op>): seq<Write>
    decreases |ops|
  {
    if ops == [] then []
    else (if ops[0].WriteOp? then [ops[0].write] else []) + WritesOf(ops[1..])
  }

  /** A session leaves the table that its writes leave; fetching changes no row. */
  lemma {:induction false} SessionWritesTable(s: Session, r: Paging.Request, ops: seq<Op>)
    requires Valid(s.table)
    ensures Run(s, r, ops).table == WriteAll(s.table, WritesOf(ops))
    decreases |ops|
  {
    hide Valid, ApplyWrite, FetchPage;
    if ops == [] {
    } else {
      var rest := WritesOf(ops[1..]);
      if ops[0].WriteOp? {
        assert ([ops[0].write] + rest)[1..] == rest;
      } else {
        assert [] + rest == rest;
      }
      SessionWritesTable(Apply(s, r, ops[0]), r, ops[1..]);
    }
  }
}
