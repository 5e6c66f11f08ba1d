/** The three listing endpoints' services: what they normalise, resolve and refuse, and the walks they serve. */
module ListingServices {
  import opened Wrappers
  import opened Text
  import opened Listings
  import opened Keyset
  import opened Paging
  import opened Walks
  import opened Turns
  import Handles
  import A = Accounts

  /** What a client asks for, before the service has looked at it. */
  datatype Query =
    | SearchQuery(fold: Fold, filters: SearchFilters)
    | OwnedQuery(sellerID: int, status: Option<Status>)
    | SellerQuery(handle: string, status: Option<Status>, category: string)

  ghost function Serve(t: Table, sellers: map<string, int>, q: Query, cursor: Cursor, limit: int)
    : Result<ListingPage, PageError>
    requires Valid(t)
  {
    match q
    case SearchQuery(fold, filters) => SearchListings(t, fold, filters, cursor, limit)
    case OwnedQuery(sellerID, status) => ListOwnedListings(t, sellerID, status, cursor, limit)
    case SellerQuery(handle, status, category) =>
      ListSellerListings(t, sellers, handle, status, category, cursor, limit)
  }

  /** The request the service works on: trimmed text, and the handle resolved to a seller. */
  function Resolved(sellers: map<string, int>, q: Query): Option<Paging.Request> {
    match q
    case SearchQuery(fold, filters) => Some(Search(fold, Normalized(filters)))
    case OwnedQuery(sellerID, status) => Some(Owned(sellerID, status))
    case SellerQuery(handle, status, category) =>
      if Handles.IsCanonicalHandle(handle) && handle in sellers then
        Some(Catalogue(sellers[handle], status, TrimSpace(category)))
      else None
  }

  /** A resolved query is served exactly as its request is, refusals included. */
  lemma ServeIsListPage(t: Table, sellers: map<string, int>, q: Query, cursor: Cursor, limit: int)
    requires Valid(t) && Resolved(sellers, q).Some?
    ensures Serve(t, sellers, q, cursor, limit) == ListPage(t, Resolved(sellers, q).value, cursor, limit)
  {
    hide TrimSpace, Handles.IsCanonicalHandle, Select, Decode;
  }

  /** An unresolved one is refused: unknown handles after bad options, malformed handles before everything. */
  lemma UnresolvedIsRefused(t: Table, sellers: map<string, int>, q: Query, cursor: Cursor, limit: int)
    requires Valid(t) && Resolved(sellers, q).None?
    ensures var options := CheckOptions(Catalogue(0, q.status, TrimSpace(q.category)), limit);
      Serve(t, sellers, q, cursor, limit)
        == if Handles.IsCanonicalHandle(q.handle) && options.Failure? then Failure(options.error)
           else Failure(UnknownSeller)
  {
    hide TrimSpace, Handles.IsCanonicalHandle, Select, Decode;
  }

  // ---- Handles resolve once and for all --------------------------------------------------------

  /** SELECT ... WHERE users.handle = $1 */
  ghost function SellersOf(st: A.State): map<string, int>
    requires A.Consistent(st)
  {
    map id | id in st.accounts :: st.accounts[id].handle := id
  }

  lemma SellerHasHandle(st: A.State, handle: string)
    requires A.Consistent(st) && handle in SellersOf(st)
    ensures SellersOf(st)[handle] in st.accounts && st.accounts[SellersOf(st)[handle]].handle == handle
  {
  }

  /** Whoever logs in, edits a profile or is disabled later, a handle keeps naming the same seller. */
  lemma HandleResolvesForever(st: A.State, txs: seq<A.Tx>, handle: string)
    requires A.Consistent(st) && handle in SellersOf(st)
    ensures A.Consistent(A.Run(st, txs))
    ensures handle in SellersOf(A.Run(st, txs)) && SellersOf(A.Run(st, txs))[handle] == SellersOf(st)[handle]
  {
    hide A.Run, A.AccountOK;
    A.EveryRunKeepsHandles(st, txs);
    var end := A.Run(st, txs);
    SellerHasHandle(st, handle);
    var id := SellersOf(st)[handle];
    assert id in end.accounts && end.accounts[id].handle == handle;
    SellerHasHandle(end, handle);
  }

  // ---- Walks through a service -----------------------------------------------------------------

  datatype Site = Site(table: Table, accounts: A.State, client: Client)

  datatype SiteOp = ListingOp(write: Write) | AccountOp(tx: A.Tx) | PageOp(limit: int)

  ghost predicate Runs(s: Site) { Valid(s.table) && A.Consistent(s.accounts) }

  ghost function ServePage(s: Site, q: Query, limit: int): Client
    requires Runs(s)
  {
    if s.client.done then s.client
    else
      match Serve(s.table, SellersOf(s.accounts), q, s.client.cursor, limit)
      case Failure(_) => s.client
      case Success(page) => Client(page.next, page.next.NoCursor?, s.client.shown + page.items)
  }

  ghost function StepSite(s: Site, q: Query, op: SiteOp): (next: Site)
    requires Runs(s)
    ensures Runs(next)
  {
    match op
    case ListingOp(w) =>
      WriteEvolves(s.table, w);
      s.(table := ApplyWrite(s.table, w))
    case AccountOp(tx) =>
      A.PerformKeeps(s.accounts, tx);
      s.(accounts := A.Perform(s.accounts, tx))
    case PageOp(limit) => s.(client := ServePage(s, q, limit))
  }

  ghost function RunSite(s: Site, q: Query, ops: seq<SiteOp>): (end: Site)
    requires Runs(s)
    ensures Runs(end)
    decreases |ops|
  {
    if ops == [] then s else RunSite(StepSite(s, q, ops[0]), q, ops[1..])
  }

  /** The operations that concern listings. */
  function ListingOps(ops: seq<SiteOp>): seq<Op>
    decreases |ops|
  {
    if ops == [] then []
    else
      var rest := ListingOps(ops[1..]);
      match ops[0]
      case ListingOp(w) => [WriteOp(w)] + rest
      case PageOp(limit) => [FetchOp(limit)] + rest
      case AccountOp(_) => rest
  }

  lemma StaysResolved(st: A.State, tx: A.Tx, q: Query)
    requires A.Consistent(st) && Resolved(SellersOf(st), q).Some?
    ensures A.Consistent(A.Perform(st, tx))
    ensures Resolved(SellersOf(A.Perform(st, tx)), q) == Resolved(SellersOf(st), q)
  {
    hide A.Perform, TrimSpace, Handles.IsCanonicalHandle, SellersOf, A.Consistent;
    assert A.Run(st, [tx]) == A.Perform(st, tx) by {
      assert [tx][1..] == [];
      assert A.Run(A.Perform(st, tx), []) == A.Perform(st, tx);
    }
    A.PerformKeeps(st, tx);
    if q.SellerQuery? {
      HandleResolvesForever(st, [tx], q.handle);
    }
  }

  /**
   A client of any of the three services, with listings written and users changing in between, walks
   exactly as the resolved request does: every theorem about such walks is a theorem about the service.
   */
  lemma {:induction false} ServedRunIsRun(s: Site, q: Query, r: Paging.Request, ops: seq<SiteOp>)
    requires Runs(s) && Resolved(SellersOf(s.accounts), q) == Some(r)
    ensures var end := Walks.Run(Session(s.table, s.client), r, ListingOps(ops));
      RunSite(s, q, ops).table == end.table && RunSite(s, q, ops).client == end.client
    decreases |ops|
  {
    hide A.Consistent, Valid, A.Perform, ApplyWrite, Resolved, SellersOf, ListPage, Serve;
    if ops == [] {
    } else {
      var next := StepSite(s, q, ops[0]);
      match ops[0]
      case ListingOp(w) =>
        ConsOp(WriteOp(w), ListingOps(ops[1..]));
        ServedRunIsRun(next, q, r, ops[1..]);
      case AccountOp(tx) =>
        StaysResolved(s.accounts, tx, q);
        ServedRunIsRun(next, q, r, ops[1..]);
      case PageOp(limit) =>
        ConsOp(FetchOp(limit), ListingOps(ops[1..]));
        ServeIsListPage(s.table, SellersOf(s.accounts), q, s.client.cursor, limit);
        ServedRunIsRun(next, q, r, ops[1..]);
    }
  }

  lemma ConsOp(op: Op, rest: seq<Op>)
    ensures ([op] + rest)[0] == op && ([op] + rest)[1..] == rest
  {
  }

  function Pages(limits: seq<int>): seq<SiteOp> {
    seq(|limits|, i requires 0 <= i < |limits| => PageOp(limits[i]))
  }

  lemma {:induction false} PagesAreFetches(limits: seq<int>)
    ensures ListingOps(Pages(limits)) == Fetches(limits)
  {
    if limits == [] {
    } else {
      assert Pages(limits)[1..] == Pages(limits[1..]);
      PagesAreFetches(limits[1..]);
      assert Fetches(limits) == [FetchOp(limits[0])] + Fetches(limits[1..]);
    }
  }

  /**
   Searching, listing one's own listings, or browsing a seller's by handle, over unchanging listings
   and with any limits: following the cursor until it is absent yields every matching listing once,
   in order, and the cursor becomes absent.
   */
  lemma ServedFixedWalk(s: Site, q: Query, r: Paging.Request, limits: seq<int>)
    requires Runs(s) && s.client == FRESH && Resolved(SellersOf(s.accounts), q) == Some(r) && Acceptable(r)
    requires forall i | 0 <= i < |limits| :: IsLimit(limits[i])
    ensures var end := RunSite(s, q, Pages(limits)).client;
      && end.shown <= Answer(s.table, r)
      && (end.done ==> end.shown == Answer(s.table, r))
      && (|limits| > |Answer(s.table, r)| ==> end.done)
  {
    hide A.Consistent, RunSite, Walks.Run, Resolved, SellersOf, Answer, Acceptable;
    PagesAreFetches(limits);
    ServedRunIsRun(s, q, r, Pages(limits));
    FixedTableWalk(s.table, r, limits);
  }

  /** With writes in between, what a service's client sees, and whether only once, is decided turn by turn. */
  lemma ServedWalkIsDecidedByTurns(s: Site, q: Query, r: Paging.Request, ops: seq<SiteOp>, id: int)
    requires Runs(s) && s.client == FRESH && Resolved(SellersOf(s.accounts), q) == Some(r) && Acceptable(r)
    ensures var shown := RunSite(s, q, ops).client.shown;
      && (Lists(shown, ListingID, id) <==> HasItsTurn(Session(s.table, FRESH), r, ListingOps(ops), id))
      && (Distinct(shown, ListingID) <==> NeverReshows(Session(s.table, FRESH), r, ListingOps(ops)))
  {
    hide A.Consistent, RunSite, Walks.Run, Resolved, SellersOf, Acceptable, HasItsTurn, NeverReshows;
    ServedRunIsRun(s, q, r, ops);
    WalkIsDecidedByTurns(s.table, r, ListingOps(ops), id);
  }

  // ---- Cursors handed from one call to another -------------------------------------------------

  lemma NextIsCursorOfLast(t: Table, r: Paging.Request, cursor: Cursor, limit: int)
    requires Valid(t) && Acceptable(r) && IsLimit(limit) && Decode(r, cursor).Success?
    ensures ListPage(t, r, cursor, limit).Success?
    ensures var page := ListPage(t, r, cursor, limit).value;
      !page.next.NoCursor? ==>
        && page.items != [] && page.items[|page.items| - 1] in Candidates(t, r)
        && page.next == CursorAt(r, page.items[|page.items| - 1])
  {
    hide Decode, ListPage, Acceptable, Candidates, CursorAt, PageAt, CutPage, Remaining, Limit, CutListings;
    ListPageIsPageAt(t, r, cursor, limit);
    var k, n := PositionKey(r, Decode(r, cursor).value), PageSize(limit);
    ListPageCutsRemaining(t, r, cursor, limit);
    CutListingsIsCutPage(r, Limit(Remaining(Candidates(t, r), KeyFor(r), k), n + 1), n);
    PageIsAhead(Candidates(t, r), KeyFor(r), k, n);
    var page := ListPage(t, r, cursor, limit).value;
    if page.items != [] {
      assert page.items[|page.items| - 1] in page.items;
    }
  }

  /**
   The next cursor of a served page is accepted by another call exactly when that call asks the same
   normalised query of the same service; the limit, and for one's own listings the caller, are free.
   */
  lemma ServedCursorIsAccepted(
      t: Table, u: Table, sellers: map<string, int>, q: Query, again: Query, cursor: Cursor, limit: int, other: int)
    requires Valid(t) && Valid(u) && Resolved(sellers, q).Some? && Resolved(sellers, again).Some?
    requires Acceptable(Resolved(sellers, again).value) && IsLimit(other)
    requires Serve(t, sellers, q, cursor, limit).Success? && !Serve(t, sellers, q, cursor, limit).value.next.NoCursor?
    ensures Serve(u, sellers, again, Serve(t, sellers, q, cursor, limit).value.next, other).Success?
      <==> SameQuery(Resolved(sellers, q).value, Resolved(sellers, again).value)
  {
    hide Serve, Resolved, Acceptable, SameQuery, Candidates, Select, CutListings, Decode;
    var r, p := Resolved(sellers, q).value, Resolved(sellers, again).value;
    ServeIsListPage(t, sellers, q, cursor, limit);
    ServedIsAcceptable(t, r, cursor, limit);
    NextIsCursorOfLast(t, r, cursor, limit);
    var page := ListPage(t, r, cursor, limit).value;
    ServeIsListPage(u, sellers, again, page.next, other);
    CursorAcceptedExactly(t, r, p, page.items[|page.items| - 1]);
    LimitIsFree(p, other);
  }

  lemma ServedIsAcceptable(t: Table, r: Paging.Request, cursor: Cursor, limit: int)
    requires Valid(t) && ListPage(t, r, cursor, limit).Success?
    ensures Acceptable(r) && IsLimit(limit) && Decode(r, cursor).Success?
  {
    hide Decode, Select, CutListings;
  }

  // ---- The users of a site ---------------------------------------------------------------------

  function AccountTxs(ops: seq<SiteOp>): seq<A.Tx>
    decreases |ops|
  {
    if ops == [] then []
    else (if ops[0].AccountOp? then [ops[0].tx] else []) + AccountTxs(ops[1..])
  }

  /** A site leaves the users that their transactions leave; listing pages change no user. */
  lemma {:induction false} SiteRunsTransactions(s: Site, q: Query, ops: seq<SiteOp>)
    requires Runs(s)
    ensures RunSite(s, q, ops).accounts == A.Run(s.accounts, AccountTxs(ops))
    decreases |ops|
  {
    hide Valid, A.Consistent, ApplyWrite, A.Perform, ServePage;
    if ops == [] {
    } else {
      var rest := AccountTxs(ops[1..]);
      if ops[0].AccountOp? {
        assert ([ops[0].tx] + rest)[1..] == rest;
      } else {
        assert [] + rest == rest;
      }
      SiteRunsTransactions(StepSite(s, q, ops[0]), q, ops[1..]);
    }
  }
}
