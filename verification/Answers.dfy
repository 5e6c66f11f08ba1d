/** What the three listing services accept, refuse and show, in terms of the rows' own fields. */
module Answers {
  import opened Wrappers
  import opened Text
  import opened Listings
  import opened Keyset
  import opened Paging
  import opened Walks
  import opened ListingServices
  import Handles
  import Like
  import A = Accounts

  // ---- Search: what it accepts -----------------------------------------------------------------

  predicate IsPrice(price: int) { 1 <= price <= 10_000_000_000 }

  predicate BoundsCross(f: SearchFilters) {
    f.minPrice.Some? && f.maxPrice.Some? && f.minPrice.value > f.maxPrice.value
  }

  predicate SearchFits(f: SearchFilters) {
    && |TrimSpace(f.query)| <= 100
    && (f.condition.None? || f.condition == Some(New) || f.condition == Some(Used))
    && (f.minPrice.Some? ==> IsPrice(f.minPrice.value)) && (f.maxPrice.Some? ==> IsPrice(f.maxPrice.value))
    && !BoundsCross(f)
    && (f.sort == DefaultSort || f.sort == Newest || f.sort == PriceAsc || f.sort == PriceDesc)
  }

  /** The parameters a refused search is told about are exactly those that do not fit. */
  lemma SearchErrorsAre(f: SearchFilters)
    ensures var errors := SearchErrors(Normalized(f));
      && (QueryParam in errors <==> |TrimSpace(f.query)| > 100)
      && (ConditionParam in errors <==> f.condition.Some? && f.condition != Some(New) && f.condition != Some(Used))
      && (MinPriceParam in errors <==> (f.minPrice.Some? && !IsPrice(f.minPrice.value)) || BoundsCross(f))
      && (MaxPriceParam in errors <==> f.maxPrice.Some? && !IsPrice(f.maxPrice.value))
      && (SortParam in errors <==> f.sort.OtherSort?)
      && LimitParam !in errors && CursorParam !in errors && StatusParam !in errors && CategoryParam !in errors
      && (errors == {} <==> SearchFits(f))
  {
    hide TrimSpace;
    var errors := SearchErrors(Normalized(f));
    assert forall field: QueryField :: field in errors <==> BadInSearch(Normalized(f), field);
    assert QueryParam in errors <==> BadInSearch(Normalized(f), QueryParam);
    assert ConditionParam in errors <==> BadInSearch(Normalized(f), ConditionParam);
    assert MinPriceParam in errors <==> BadInSearch(Normalized(f), MinPriceParam);
    assert MaxPriceParam in errors <==> BadInSearch(Normalized(f), MaxPriceParam);
    assert SortParam in errors <==> BadInSearch(Normalized(f), SortParam);
    assert LimitParam in errors <==> BadInSearch(Normalized(f), LimitParam);
    assert CursorParam in errors <==> BadInSearch(Normalized(f), CursorParam);
    assert StatusParam in errors <==> BadInSearch(Normalized(f), StatusParam);
    assert CategoryParam in errors <==> BadInSearch(Normalized(f), CategoryParam);
  }

  /** The refusals of a search, in order; without a cursor nothing else is refused. */
  lemma SearchIsRefusedInOrder(
      t: Table, sellers: map<string, int>, fold: Fold, f: SearchFilters, cursor: Cursor, limit: int)
    requires Valid(t)
    ensures var result := Serve(t, sellers, SearchQuery(fold, f), cursor, limit);
      if !(0 <= limit <= 100) then result == Failure(BadQuery({LimitParam}))
      else if !SearchFits(f) then result == Failure(BadQuery(SearchErrors(Normalized(f))))
      else result.Success? || (result == Failure(BadQuery({CursorParam})) && cursor != NoCursor)
  {
    SearchErrorsAre(f);
    hide TrimSpace, SearchErrors, SearchFits, Select, CutListings;
  }

  lemma SearchIsAcceptable(fold: Fold, f: SearchFilters)
    ensures Acceptable(Search(fold, Normalized(f))) <==> SearchFits(f)
  {
    SearchErrorsAre(f);
    hide TrimSpace, SearchErrors, SearchFits;
  }

  // ---- Search: what it shows -------------------------------------------------------------------

  ghost predicate SearchShows(fold: Fold, f: SearchFilters, l: Listing) {
    && l.moderation == Visible && (l.status == Active || l.status == Reserved)
    && (f.minPrice.Some? ==> f.minPrice.value <= l.priceIDR)
    && (f.maxPrice.Some? ==> l.priceIDR <= f.maxPrice.value)
    && (f.condition.Some? ==> l.condition == f.condition.value)
    && (TrimSpace(f.category) != "" ==> l.category == TrimSpace(f.category))
    && (Like.Contains(MapChars(fold, l.title), MapChars(fold, TrimSpace(f.query)))
        || Like.Contains(MapChars(fold, l.description), MapChars(fold, TrimSpace(f.query))))
  }

  /** Newest first unless a price order is asked for; the identifier breaks ties in the same direction. */
  predicate SearchOrder(sort: Sort, a: Listing, b: Listing) {
    if sort == PriceAsc then a.priceIDR < b.priceIDR || (a.priceIDR == b.priceIDR && a.id < b.id)
    else if sort == PriceDesc then a.priceIDR > b.priceIDR || (a.priceIDR == b.priceIDR && a.id > b.id)
    else a.createdAt > b.createdAt || (a.createdAt == b.createdAt && a.id > b.id)
  }

  lemma SearchMatches(fold: Fold, f: SearchFilters, l: Listing)
    ensures Matches(Search(fold, Normalized(f)), l) <==> SearchShows(fold, f, l)
  {
    SearchTextIsSubstring(fold, Normalized(f), l);
    hide TrimSpace, QueryMatches, Like.Contains, MapChars;
  }

  lemma SearchOrders(fold: Fold, f: SearchFilters, a: Listing, b: Listing)
    requires SearchFits(f)
    ensures ReturnedBefore(Search(fold, Normalized(f)), a, b) <==> SearchOrder(f.sort, a, b)
  {
    hide TrimSpace;
  }

  predicate IsRow(t: Table, l: Listing) { l.id in t.rows && t.rows[l.id] == l }

  /** The stored rows a search is about, each of them, in the order asked for. */
  ghost predicate IsSearchAnswer(t: Table, fold: Fold, f: SearchFilters, shown: seq<Listing>) {
    && (forall l :: l in shown <==> IsRow(t, l) && SearchShows(fold, f, l))
    && (forall i, j | 0 <= i < j < |shown| :: SearchOrder(f.sort, shown[i], shown[j]))
  }

  lemma SearchAnswer(t: Table, fold: Fold, f: SearchFilters)
    requires Valid(t) && SearchFits(f)
    ensures IsSearchAnswer(t, fold, f, Answer(t, Search(fold, Normalized(f))))
  {
    hide SearchShows, SearchOrder, SearchFits, Matches, ReturnedBefore, Answer, Valid, Normalized;
    var r := Search(fold, Normalized(f));
    AnswerIsSorted(t, r);
    var all := Answer(t, r);
    forall l ensures l in all <==> IsRow(t, l) && SearchShows(fold, f, l) {
      SearchMatches(fold, f, l);
    }
    forall i, j | 0 <= i < j < |all| ensures SearchOrder(f.sort, all[i], all[j]) {
      SearchOrders(fold, f, all[i], all[j]);
    }
  }

  /**
   A finished search over unchanging listings has shown a listing if and only if it is stored, visible,
   active or reserved, within whichever price bounds are given, of the condition and category given, and
   has the query in its title or description; and it has shown them in the order asked for.
   */
  lemma SearchShowsExactly(s: Site, fold: Fold, f: SearchFilters, limits: seq<int>)
    requires Runs(s) && s.client == FRESH && SearchFits(f)
    requires forall i | 0 <= i < |limits| :: 0 <= limits[i] <= 100
    requires RunSite(s, SearchQuery(fold, f), Pages(limits)).client.done
    ensures IsSearchAnswer(s.table, fold, f, RunSite(s, SearchQuery(fold, f), Pages(limits)).client.shown)
  {
    hide RunSite, SearchFits, Answer, Acceptable, IsSearchAnswer, Valid, A.Consistent, Normalized, SellersOf;
    SearchIsAcceptable(fold, f);
    FinishedWalkIsAnswer(s, SearchQuery(fold, f), Search(fold, Normalized(f)), limits);
    SearchAnswer(s.table, fold, f);
  }

  lemma FinishedWalkIsAnswer(s: Site, q: Query, r: Paging.Request, limits: seq<int>)
    requires Runs(s) && s.client == FRESH && Resolved(SellersOf(s.accounts), q) == Some(r) && Acceptable(r)
    requires forall i | 0 <= i < |limits| :: 0 <= limits[i] <= 100
    requires RunSite(s, q, Pages(limits)).client.done
    ensures RunSite(s, q, Pages(limits)).client.shown == Answer(s.table, r)
  {
    hide RunSite, Answer, Acceptable, Resolved, SellersOf;
    forall i | 0 <= i < |limits| ensures IsLimit(limits[i]) {
    }
    ServedFixedWalk(s, q, r, limits);
  }

  // ---- One's own listings ----------------------------------------------------------------------

  predicate OwnedFits(status: Option<Status>) {
    || status.None? || status == Some(Active) || status == Some(Reserved) || status == Some(Sold)
    || status == Some(Archived)
  }

  lemma OwnedIsRefusedInOrder(
      t: Table, sellers: map<string, int>, sellerID: int, status: Option<Status>, cursor: Cursor, limit: int)
    requires Valid(t)
    ensures var result := Serve(t, sellers, OwnedQuery(sellerID, status), cursor, limit);
      if !(0 <= limit <= 100) then result == Failure(BadQuery({LimitParam}))
      else if !OwnedFits(status) then result == Failure(BadQuery({StatusParam}))
      else result.Success? || (result == Failure(BadQuery({CursorParam})) && cursor != NoCursor)
  {
    hide Select, CutListings;
  }

  predicate LatestFirst(a: Listing, b: Listing) {
    a.updatedAt > b.updatedAt || (a.updatedAt == b.updatedAt && a.id > b.id)
  }

  ghost predicate IsOwnedAnswer(t: Table, sellerID: int, status: Option<Status>, shown: seq<Listing>) {
    && (forall l :: l in shown <==> (
          && IsRow(t, l) && l.sellerID == sellerID && l.moderation == Visible
          && (status.Some? ==> l.status == status.value)))
    && (forall i, j | 0 <= i < j < |shown| :: LatestFirst(shown[i], shown[j]))
  }

  lemma OwnedAnswer(t: Table, sellerID: int, status: Option<Status>)
    requires Valid(t)
    ensures IsOwnedAnswer(t, sellerID, status, Answer(t, Owned(sellerID, status)))
  {
    hide Answer, Valid;
    AnswerIsSorted(t, Owned(sellerID, status));
  }

  /** All of the caller's visible listings, of the status asked for if any, latest edit first. */
  lemma OwnedShowsExactly(s: Site, sellerID: int, status: Option<Status>, limits: seq<int>)
    requires Runs(s) && s.client == FRESH && OwnedFits(status)
    requires forall i | 0 <= i < |limits| :: 0 <= limits[i] <= 100
    requires RunSite(s, OwnedQuery(sellerID, status), Pages(limits)).client.done
    ensures IsOwnedAnswer(s.table, sellerID, status,
                          RunSite(s, OwnedQuery(sellerID, status), Pages(limits)).client.shown)
  {
    hide RunSite, Answer, IsOwnedAnswer, Valid, A.Consistent, SellersOf;
    FinishedWalkIsAnswer(s, OwnedQuery(sellerID, status), Owned(sellerID, status), limits);
    OwnedAnswer(s.table, sellerID, status);
  }

  // ---- A seller's catalogue --------------------------------------------------------------------

  predicate CatalogueFits(status: Option<Status>, category: string) {
    && |TrimSpace(category)| <= 50
    && (status.None? || status == Some(Active) || status == Some(Reserved) || status == Some(Sold))
  }

  lemma CatalogueIsRefusedInOrder(
      t: Table, sellers: map<string, int>, handle: string, status: Option<Status>, category: string,
      cursor: Cursor, limit: int)
    requires Valid(t)
    ensures var result := Serve(t, sellers, SellerQuery(handle, status, category), cursor, limit);
      if !Handles.IsCanonicalHandle(handle) then result == Failure(UnknownSeller)
      else if !(0 <= limit <= 100) then result == Failure(BadQuery({LimitParam}))
      else if |TrimSpace(category)| > 50 then result == Failure(BadQuery({CategoryParam}))
      else if !CatalogueFits(status, category) then result == Failure(BadQuery({StatusParam}))
      else if handle !in sellers then result == Failure(UnknownSeller)
      else result.Success? || (result == Failure(BadQuery({CursorParam})) && cursor != NoCursor)
  {
    hide TrimSpace, Select, CutListings, Handles.IsCanonicalHandle;
  }

  predicate CatalogueOrder(a: Listing, b: Listing) {
    || (a.status == Active && b.status != Active)
    || (a.status == Reserved && b.status != Active && b.status != Reserved)
    || (SameGroup(a.status, b.status) && LatestFirst(a, b))
  }

  /** Active listings, reserved ones, and all others. */
  predicate SameGroup(s: Status, t: Status) { (s == Active <==> t == Active) && (s == Reserved <==> t == Reserved) }

  predicate CatalogueShows(status: Option<Status>, category: string, l: Listing) {
    && l.moderation == Visible
    && (if status.Some? then l.status == status.value else l.status == Active || l.status == Reserved)
    && (TrimSpace(category) != "" ==> l.category == TrimSpace(category))
  }

  ghost predicate IsCatalogueAnswer(
      t: Table, sellerID: int, status: Option<Status>, category: string, shown: seq<Listing>) {
    && (forall l :: l in shown <==> IsRow(t, l) && l.sellerID == sellerID && CatalogueShows(status, category, l))
    && (forall i, j | 0 <= i < j < |shown| :: CatalogueOrder(shown[i], shown[j]))
  }

  lemma CatalogueAnswer(t: Table, sellerID: int, status: Option<Status>, category: string)
    requires Valid(t)
    ensures IsCatalogueAnswer(t, sellerID, status, category,
                              Answer(t, Catalogue(sellerID, status, TrimSpace(category))))
  {
    hide Answer, Valid, TrimSpace;
    AnswerIsSorted(t, Catalogue(sellerID, status, TrimSpace(category)));
  }

  /**
   Exactly the visible listings of the user who has the handle, of the status asked for (active or
   reserved if none) and the category asked for, active before reserved before others, latest edit first.
   */
  lemma CatalogueShowsExactly(
      s: Site, handle: string, status: Option<Status>, category: string, limits: seq<int>, id: int)
    requires Runs(s) && s.client == FRESH && CatalogueFits(status, category)
    requires Handles.IsCanonicalHandle(handle) && id in s.accounts.accounts && s.accounts.accounts[id].handle == handle
    requires forall i | 0 <= i < |limits| :: 0 <= limits[i] <= 100
    requires RunSite(s, SellerQuery(handle, status, category), Pages(limits)).client.done
    ensures IsCatalogueAnswer(s.table, id, status, category,
                              RunSite(s, SellerQuery(handle, status, category), Pages(limits)).client.shown)
  {
    ResolvesToOwner(s.accounts, handle, status, category, id);
    hide Resolved, RunSite, Answer, IsCatalogueAnswer, Valid, A.Consistent, SellersOf, TrimSpace, Acceptable;
    hide Handles.IsCanonicalHandle, CatalogueFits;
    CatalogueIsAcceptable(id, status, category);
    FinishedWalkIsAnswer(s, SellerQuery(handle, status, category), Catalogue(id, status, TrimSpace(category)), limits);
    CatalogueAnswer(s.table, id, status, category);
  }

  lemma ResolvesToOwner(st: A.State, handle: string, status: Option<Status>, category: string, id: int)
    requires A.Consistent(st) && Handles.IsCanonicalHandle(handle)
    requires id in st.accounts && st.accounts[id].handle == handle
    ensures Resolved(SellersOf(st), SellerQuery(handle, status, category))
      == Some(Catalogue(id, status, TrimSpace(category)))
  {
    hide TrimSpace, SellersOf, A.Consistent, Handles.IsCanonicalHandle;
    HandleOwnerIsSeller(st, handle, id);
  }

  lemma HandleOwnerIsSeller(st: A.State, handle: string, id: int)
    requires A.Consistent(st) && id in st.accounts && st.accounts[id].handle == handle
    ensures handle in SellersOf(st) && SellersOf(st)[handle] == id
  {
    SellerHasHandle(st, handle);
  }

  lemma CatalogueIsAcceptable(sellerID: int, status: Option<Status>, category: string)
    ensures Acceptable(Catalogue(sellerID, status, TrimSpace(category))) <==> CatalogueFits(status, category)
  {
    hide TrimSpace;
  }

  // ---- The size of a page ----------------------------------------------------------------------

  /** Twenty listings unless the request says how many; a cursor exactly when there are more. */
  lemma FirstPageIs(t: Table, sellers: map<string, int>, q: Query, r: Paging.Request, limit: int)
    requires Valid(t) && Resolved(sellers, q) == Some(r) && Acceptable(r) && 0 <= limit <= 100
    ensures var n := if limit == 0 then 20 else limit;
      var all, page := Answer(t, r), Serve(t, sellers, q, NoCursor, limit);
      && page.Success?
      && page.value.items == (if |all| <= n then all else all[..n])
      && (page.value.next == NoCursor <==> |all| <= n)
  {
    hide Acceptable, Resolved, Serve, ListPage, Candidates, CutPage, PageAt, Remaining, KeyFor, Decode, PositionKey;
    ServeIsListPage(t, sellers, q, NoCursor, limit);
    NoCursorIsBeginning(r);
    ListPageIsPageAt(t, r, NoCursor, limit);
    PageSplitsRemaining(Candidates(t, r), KeyFor(r), None, if limit == 0 then 20 else limit);
    AnswerRemains(t, r);
  }

  lemma AnswerRemains(t: Table, r: Paging.Request)
    requires Valid(t) && Separates(Candidates(t, r), KeyFor(r))
    ensures Remaining(Candidates(t, r), KeyFor(r), None) == Answer(t, r)
  {
    hide Candidates, KeyFor;
    assert Resumed(Candidates(t, r), KeyFor(r), None) == Candidates(t, r);
  }

  lemma NoCursorIsBeginning(r: Paging.Request)
    ensures Decode(r, NoCursor) == Success(Beginning) && PositionKey(r, Beginning) == None
  {
  }
}
