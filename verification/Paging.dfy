/**
 The three listing paginators: public search (three sorts), a seller's own listings, and a public
 seller catalogue.  Each validates its options, decodes the cursor against them, runs one query
 (WHERE, resume predicate, ORDER BY, LIMIT + 1) and cuts a page whose cursor is the last row.
 */
module Paging {
  import opened Wrappers
  import opened Text
  import opened Listings
  import opened Keyset
  import Handles
  import Like

  const CURSOR_VERSION := 1
  const DEFAULT_PAGE_LIMIT := 20
  const MAX_PAGE_LIMIT := 100

  /** The collation's case folding; it leaves the LIKE syntax alone. */
  type Fold = f: char -> char | Like.IsFold(f) ghost witness (c: char) => c

  datatype Sort = DefaultSort | Newest | PriceAsc | PriceDesc | OtherSort(text: string)

  datatype Kind = OwnedKind | PublicKind | SellerKind | OtherKind(text: string)

  /** Cursor text after base64url and JSON; unparsable time text is None. */
  datatype Cursor =
    | NoCursor
    | OwnedCursor(version: int, kind: Kind, status: Option<Status>, updatedAt: Option<int>, id: int)
    | PublicCursor(version: int, kind: Kind, query: string, category: string, condition: Option<Condition>,
                   minPrice: Option<int>, maxPrice: Option<int>, sort: Sort,
                   createdAt: Option<int>, price: Option<int>, id: int)
    | SellerCursor(version: int, kind: Kind, sellerID: int, status: Option<Status>, category: string,
                   rank: int, updatedAt: Option<int>, id: int)
    | UnreadableCursor

  /** Where a query resumes: the positions the resume predicates compare with. */
  datatype Position =
    | Beginning
    | AfterCreated(createdAt: int, id: int)
    | AfterPrice(price: int, id: int)
    | AfterUpdated(updatedAt: int, id: int)
    | AfterRank(rank: int, updatedAt: int, id: int)

  datatype QueryField = LimitParam | CursorParam | QueryParam | ConditionParam | MinPriceParam | MaxPriceParam
    | SortParam | StatusParam | CategoryParam

  datatype PageError = BadQuery(fields: set<QueryField>) | UnknownSeller

  datatype ListingPage = ListingPage(items: seq<Listing>, next: Cursor)

  datatype SearchFilters = SearchFilters(
    query: string, category: string, condition: Option<Condition>,
    minPrice: Option<int>, maxPrice: Option<int>, sort: Sort)

  /** What stays fixed while a client follows the cursors of one walk, after normalisation. */
  datatype Request =
    | Search(fold: Fold, filters: SearchFilters)
    | Owned(sellerID: int, status: Option<Status>)
    | Catalogue(sellerID: int, status: Option<Status>, category: string)

  // ---- Options ---------------------------------------------------------------------------------

  function ValidatePageLimit(limit: int): Result<nat, PageError> {
    if limit == 0 then Success(DEFAULT_PAGE_LIMIT)
    else if limit < 1 || limit > MAX_PAGE_LIMIT then Failure(BadQuery({LimitParam}))
    else Success(limit)
  }

  function NormalizedSort(sort: Sort): Sort {
    if sort.DefaultSort? then Newest else sort
  }

  predicate IsSort(sort: Sort) { sort.Newest? || sort.PriceAsc? || sort.PriceDesc? }

  /** SearchListings trims the text and the category before anything else. */
  function Normalized(f: SearchFilters): SearchFilters {
    f.(query := TrimSpace(f.query), category := TrimSpace(f.category))
  }

  predicate BadInSearch(f: SearchFilters, field: QueryField) {
    match field
    case QueryParam => |f.query| > 100
    case ConditionParam => f.condition.Some? && f.condition.value.OtherCondition?
    case MinPriceParam =>
      || (f.minPrice.Some? && BadPrice(f.minPrice.value))
      || (f.minPrice.Some? && f.maxPrice.Some? && f.minPrice.value > f.maxPrice.value)
    case MaxPriceParam => f.maxPrice.Some? && BadPrice(f.maxPrice.value)
    case SortParam => !IsSort(NormalizedSort(f.sort))
    case _ => false
  }

  function SearchErrors(f: SearchFilters): set<QueryField> { set field: QueryField | BadInSearch(f, field) }

  /** The statuses a public catalogue may show, and the ones it queries for a chosen filter. */
  predicate IsCatalogueStatus(s: Status) { s.Active? || s.Reserved? || s.Sold? }

  predicate IsCatalogued(filter: Option<Status>, s: Status) {
    if filter.None? then s.Active? || s.Reserved? else s == filter.value
  }

  /** sellerStatusRank: what the service writes into a cursor. */
  function StatusRank(s: Status): int {
    match s
    case Active => 0
    case Reserved => 1
    case _ => 2
  }

  // ---- Cursors ---------------------------------------------------------------------------------

  const INVALID_CURSOR: Result<Position, PageError> := Failure(BadQuery({CursorParam}))

  /** A null and an empty pointer read the same. */
  function StatusText(s: Option<Status>): Status {
    if s.None? then OtherStatus("") else s.value
  }

  function ConditionText(c: Option<Condition>): Condition {
    if c.None? then OtherCondition("") else c.value
  }

  function DecodeOwnedCursor(c: Cursor, status: Option<Status>): Result<Position, PageError> {
    match c
    case NoCursor => Success(Beginning)
    case OwnedCursor(version, kind, s, updatedAt, id) =>
      if version != CURSOR_VERSION || kind != OwnedKind || id < 1 then INVALID_CURSOR
      else if StatusText(s) != StatusText(status) then INVALID_CURSOR
      else if updatedAt.None? then INVALID_CURSOR
      else Success(AfterUpdated(updatedAt.value, id))
    case _ => INVALID_CURSOR
  }

  function DecodePublicCursor(c: Cursor, f: SearchFilters): Result<Position, PageError> {
    match c
    case NoCursor => Success(Beginning)
    case PublicCursor(version, kind, query, category, condition, minPrice, maxPrice, sort, createdAt, price, id) =>
      if version != CURSOR_VERSION || kind != PublicKind || id < 1 || !IsSort(sort) then INVALID_CURSOR
      else if query != f.query || category != f.category || ConditionText(condition) != ConditionText(f.condition)
        || minPrice != f.minPrice || maxPrice != f.maxPrice || sort != NormalizedSort(f.sort) then INVALID_CURSOR
      else if sort.Newest? then
        if createdAt.None? then INVALID_CURSOR else Success(AfterCreated(createdAt.value, id))
      else
        if price.None? || BadPrice(price.value) then INVALID_CURSOR else Success(AfterPrice(price.value, id))
    case _ => INVALID_CURSOR
  }

  predicate IsCursorRank(rank: int, status: Option<Status>) {
    if status.None? then rank == 0 || rank == 1 else rank == StatusRank(status.value)
  }

  function DecodeSellerCursor(c: Cursor, sellerID: int, status: Option<Status>, category: string)
    : Result<Position, PageError>
  {
    match c
    case NoCursor => Success(Beginning)
    case SellerCursor(version, kind, seller, s, cat, rank, updatedAt, id) =>
      if version != CURSOR_VERSION || kind != SellerKind || seller != sellerID || id < 1 then INVALID_CURSOR
      else if StatusText(s) != StatusText(status) || (status.None? && s.Some?) || cat != category
        || !IsCursorRank(rank, status) then INVALID_CURSOR
      else if updatedAt.None? then INVALID_CURSOR
      else Success(AfterRank(rank, updatedAt.value, id))
    case _ => INVALID_CURSOR
  }

  function OwnedListingPage(rows: seq<Listing>, limit: nat, status: Option<Status>): ListingPage
    requires limit >= 1
  {
    if |rows| <= limit then ListingPage(rows, NoCursor)
    else
      var last := rows[limit - 1];
      ListingPage(rows[..limit], OwnedCursor(CURSOR_VERSION, OwnedKind, status, Some(last.updatedAt), last.id))
  }

  function PublicListingPage(rows: seq<Listing>, limit: nat, f: SearchFilters): ListingPage
    requires limit >= 1
  {
    if |rows| <= limit then ListingPage(rows, NoCursor)
    else
      var last := rows[limit - 1];
      var sort := NormalizedSort(f.sort);
      ListingPage(rows[..limit],
        PublicCursor(CURSOR_VERSION, PublicKind, f.query, f.category, f.condition, f.minPrice, f.maxPrice, sort,
                     if sort.Newest? then Some(last.createdAt) else None,
                     if sort.Newest? then None else Some(last.priceIDR), last.id))
  }

  function SellerListingPage(
      rows: seq<Listing>, limit: nat, sellerID: int, status: Option<Status>, category: string): ListingPage
    requires limit >= 1
  {
    if |rows| <= limit then ListingPage(rows, NoCursor)
    else
      var last := rows[limit - 1];
      ListingPage(rows[..limit],
        SellerCursor(CURSOR_VERSION, SellerKind, sellerID, status, category,
                     StatusRank(last.status), Some(last.updatedAt), last.id))
  }

  // ---- Queries ---------------------------------------------------------------------------------

  /** CASE status WHEN 'active' THEN 0 WHEN 'reserved' THEN 1 ELSE 2 END: what the query sorts and resumes by. */
  function RankCase(s: Status): int {
    if s == Active then 0 else if s == Reserved then 1 else 2
  }

  /**
   On every row the status filter lets through, the rank function agrees with the CASE expression,
   and the decoder accepts the rank.
   */
  lemma RanksAgree(filter: Option<Status>, s: Status)
    requires IsCatalogued(filter, s)
    ensures StatusRank(s) == RankCase(s) && IsCursorRank(StatusRank(s), filter)
  {
  }

  predicate TextMatches(fold: Fold, query: string, column: string) {
    Like.SearchIsSubstring(fold, query, column);
    Like.ILike(fold, "%" + Like.EscapeILIKE(query) + "%", column)
  }

  predicate QueryMatches(fold: Fold, query: string, l: Listing) {
    Like.EscapeILIKE(query) == "" || TextMatches(fold, query, l.title) || TextMatches(fold, query, l.description)
  }

  /** WHERE of the three search queries; an empty query or category is passed as NULL. */
  predicate SearchWhere(fold: Fold, f: SearchFilters, l: Listing) {
    && (l.status.Active? || l.status.Reserved?)
    && l.moderation.Visible?
    && QueryMatches(fold, f.query, l)
    && (f.category == "" || l.category == f.category)
    && (f.condition.None? || l.condition == f.condition.value)
    && (f.minPrice.None? || l.priceIDR >= f.minPrice.value)
    && (f.maxPrice.None? || l.priceIDR <= f.maxPrice.value)
  }

  /** The text condition of a search is plain substring search up to case folding. */
  lemma SearchTextIsSubstring(fold: Fold, f: SearchFilters, l: Listing)
    ensures QueryMatches(fold, f.query, l)
      <==> (|| Like.Contains(MapChars(fold, l.title), MapChars(fold, f.query))
            || Like.Contains(MapChars(fold, l.description), MapChars(fold, f.query)))
  {
    Like.SearchIsSubstring(fold, f.query, l.title);
    Like.SearchIsSubstring(fold, f.query, l.description);
    if f.query == "" {
      assert Like.OccursAt(MapChars(fold, l.title), "", 0);
    } else {
      Like.EscapePassesAreOnePass(f.query);
    }
  }

  predicate OwnedWhere(sellerID: int, status: Option<Status>, l: Listing) {
    l.sellerID == sellerID && l.moderation.Visible? && (status.None? || l.status == status.value)
  }

  predicate SellerWhere(sellerID: int, status: Option<Status>, category: string, l: Listing) {
    l.sellerID == sellerID && l.moderation.Visible? && IsCatalogued(status, l.status)
    && (category == "" || l.category == category)
  }

  /** The resume predicates, as the queries write them. */
  predicate Resumes(sort: Sort, p: Position, l: Listing) {
    match p
    case Beginning => true
    case AfterCreated(createdAt, id) => RowLess(l.createdAt, l.id, createdAt, id)
    case AfterPrice(price, id) =>
      if sort.PriceAsc? then RowLess(price, id, l.priceIDR, l.id) else RowLess(l.priceIDR, l.id, price, id)
    case AfterUpdated(updatedAt, id) => RowLess(l.updatedAt, l.id, updatedAt, id)
    case AfterRank(rank, updatedAt, id) =>
      || RankCase(l.status) > rank
      || (RankCase(l.status) == rank && RowLess(l.updatedAt, l.id, updatedAt, id))
  }

  /** The ORDER BY clauses: which of two rows a query returns first. */
  predicate ReturnedBefore(r: Request, a: Listing, b: Listing) {
    match r
    case Search(_, f) =>
      (match NormalizedSort(f.sort)
       case PriceAsc => a.priceIDR < b.priceIDR || (a.priceIDR == b.priceIDR && a.id < b.id)
       case PriceDesc => a.priceIDR > b.priceIDR || (a.priceIDR == b.priceIDR && a.id > b.id)
       case _ => a.createdAt > b.createdAt || (a.createdAt == b.createdAt && a.id > b.id))
    case Owned(_, _) => a.updatedAt > b.updatedAt || (a.updatedAt == b.updatedAt && a.id > b.id)
    case Catalogue(_, _, _) =>
      || RankCase(a.status) < RankCase(b.status)
      || (RankCase(a.status) == RankCase(b.status) && a.updatedAt > b.updatedAt)
      || (RankCase(a.status) == RankCase(b.status) && a.updatedAt == b.updatedAt && a.id > b.id)
  }

  /** The sort position of a row; descending columns are negated. */
  function KeyOf(r: Request, l: Listing): Key {
    match r
    case Search(_, f) =>
      (match NormalizedSort(f.sort)
       case PriceAsc => Key(0, l.priceIDR, l.id)
       case PriceDesc => Key(0, -l.priceIDR, -l.id)
       case _ => Key(0, -l.createdAt, -l.id))
    case Owned(_, _) => Key(0, -l.updatedAt, -l.id)
    case Catalogue(_, _, _) => Key(RankCase(l.status), -l.updatedAt, -l.id)
  }

  function KeyFor(r: Request): Listing -> Key { l => KeyOf(r, l) }

  /** WHERE without the resume predicate: the rows a walk is about. */
  predicate Matches(r: Request, l: Listing) {
    match r
    case Search(fold, f) => SearchWhere(fold, f, l)
    case Owned(sellerID, status) => OwnedWhere(sellerID, status, l)
    case Catalogue(sellerID, status, category) => SellerWhere(sellerID, status, category, l)
  }

  function Rows(t: Table): set<Listing> { set id | id in t.rows :: t.rows[id] }

  ghost function Candidates(t: Table, r: Request): set<Listing> {
    set l | l in Rows(t) && Matches(r, l)
  }

  function SortOf(r: Request): Sort {
    if r.Search? then NormalizedSort(r.filters.sort) else DefaultSort
  }

  lemma RowIsStored(t: Table, l: Listing)
    requires Valid(t) && l in Rows(t)
    ensures l.id in t.rows && t.rows[l.id] == l
  {
    var id :| id in t.rows && t.rows[id] == l;
  }

  lemma RowsHaveDistinctKeys(t: Table, r: Request, rows: set<Listing>)
    requires Valid(t) && rows <= Rows(t)
    ensures Separates(rows, KeyFor(r))
  {
    forall a, b | a in rows && b in rows && KeyFor(r)(a) == KeyFor(r)(b) ensures a == b {
      assert KeyOf(r, a) == KeyOf(r, b);
      RowIsStored(t, a);
      RowIsStored(t, b);
    }
  }

  /** SELECT ... WHERE matches AND resumes ORDER BY ... LIMIT. */
  ghost function Select(t: Table, r: Request, p: Position, limit: nat): seq<Listing>
    requires Valid(t)
  {
    var rows := set l | l in Rows(t) && Matches(r, l) && Resumes(SortOf(r), p, l);
    RowsHaveDistinctKeys(t, r, rows);
    Limit(OrderBy(rows, KeyFor(r)), limit)
  }

  // ---- The services ----------------------------------------------------------------------------

  /** The limit is checked first, then the other options. */
  function CheckOptions(r: Request, limit: int): Result<nat, PageError> {
    var n :- ValidatePageLimit(limit);
    match r
    case Search(_, f) => if SearchErrors(f) != {} then Failure(BadQuery(SearchErrors(f))) else Success(n)
    case Owned(_, status) =>
      if status.Some? && status.value.OtherStatus? then Failure(BadQuery({StatusParam})) else Success(n)
    case Catalogue(_, status, category) =>
      if |category| > MAX_CATEGORY_SLUG then Failure(BadQuery({CategoryParam}))
      else if status.Some? && !IsCatalogueStatus(status.value) then Failure(BadQuery({StatusParam}))
      else Success(n)
  }

  /** The options are acceptable, whatever the cursor and the limit. */
  ghost predicate Acceptable(r: Request) { CheckOptions(r, 0).Success? }

  function Decode(r: Request, c: Cursor): Result<Position, PageError> {
    match r
    case Search(_, f) => DecodePublicCursor(c, f)
    case Owned(_, status) => DecodeOwnedCursor(c, status)
    case Catalogue(sellerID, status, category) => DecodeSellerCursor(c, sellerID, status, category)
  }

  function CutListings(r: Request, rows: seq<Listing>, limit: nat): ListingPage
    requires limit >= 1
  {
    match r
    case Search(_, f) => PublicListingPage(rows, limit, f)
    case Owned(_, status) => OwnedListingPage(rows, limit, status)
    case Catalogue(sellerID, status, category) => SellerListingPage(rows, limit, sellerID, status, category)
  }

  ghost function ListPage(t: Table, r: Request, cursor: Cursor, limit: int): Result<ListingPage, PageError>
    requires Valid(t)
  {
    var n :- CheckOptions(r, limit);
    var p :- Decode(r, cursor);
    Success(CutListings(r, Select(t, r, p, n + 1), n))
  }

  ghost function SearchListings(t: Table, fold: Fold, filters: SearchFilters, cursor: Cursor, limit: int)
    : Result<ListingPage, PageError>
    requires Valid(t)
  {
    ListPage(t, Search(fold, Normalized(filters)), cursor, limit)
  }

  ghost function ListOwnedListings(t: Table, sellerID: int, status: Option<Status>, cursor: Cursor, limit: int)
    : Result<ListingPage, PageError>
    requires Valid(t)
  {
    ListPage(t, Owned(sellerID, status), cursor, limit)
  }

  /** The handle is resolved to a seller between the option checks and the cursor check. */
  ghost function ListSellerListings(
      t: Table, sellers: map<string, int>, handle: string, status: Option<Status>, category: string,
      cursor: Cursor, limit: int): Result<ListingPage, PageError>
    requires Valid(t)
  {
    if !Handles.IsCanonicalHandle(handle) then Failure(UnknownSeller)
    else
      var _ :- CheckOptions(Catalogue(0, status, TrimSpace(category)), limit);
      if handle !in sellers then Failure(UnknownSeller)
      else ListPage(t, Catalogue(sellers[handle], status, TrimSpace(category)), cursor, limit)
  }

  /** The cursor a page that ends with `last` carries. */
  function CursorAt(r: Request, last: Listing): Cursor {
    CutListings(r, [last, last], 1).next
  }

  // ---- Cursor, resume predicate and order agree ------------------------------------------------

  /** The sort position a cursor stands for. */
  function PositionKey(r: Request, p: Position): Option<Key> {
    match p
    case Beginning => None
    case AfterCreated(createdAt, id) => Some(Key(0, -createdAt, -id))
    case AfterPrice(price, id) => if SortOf(r).PriceAsc? then Some(Key(0, price, id)) else Some(Key(0, -price, -id))
    case AfterUpdated(updatedAt, id) => Some(Key(0, -updatedAt, -id))
    case AfterRank(rank, updatedAt, id) => Some(Key(rank, -updatedAt, -id))
  }

  /** ORDER BY returns rows in ascending key order. */
  lemma OrderClausesMatchKeys(r: Request, a: Listing, b: Listing)
    ensures ReturnedBefore(r, a, b) <==> Precedes(KeyOf(r, a), KeyOf(r, b))
  {
  }

  lemma SearchOptionsAreKnown(f: SearchFilters)
    requires SearchErrors(f) == {}
    ensures IsSort(NormalizedSort(f.sort))
    ensures f.condition.Some? ==> !f.condition.value.OtherCondition?
  {
    assert BadInSearch(f, SortParam) <==> SortParam in SearchErrors(f);
    assert BadInSearch(f, ConditionParam) <==> ConditionParam in SearchErrors(f);
  }

  /** What a request decodes is a position of its own order, and resuming there is "strictly after". */
  lemma ResumePredicatesMatchKeys(r: Request, c: Cursor, l: Listing)
    requires Decode(r, c).Success?
    ensures Resumes(SortOf(r), Decode(r, c).value, l) <==> After(PositionKey(r, Decode(r, c).value), KeyOf(r, l))
  {
  }

  /** Requests that differ at most in what a cursor is not bound to. */
  predicate SameQuery(r: Request, s: Request) {
    match (r, s)
    case (Search(_, f), Search(_, g)) => f.(sort := NormalizedSort(f.sort)) == g.(sort := NormalizedSort(g.sort))
    case (Owned(_, status), Owned(_, other)) => status == other
    case (Catalogue(sellerID, status, category), Catalogue(other, s, cat)) =>
      sellerID == other && status == s && category == cat
    case _ => false
  }

  /**
   A next cursor is accepted exactly by requests of its own kind with the same normalised filters,
   sort, status and seller (the limit is free); it then stands for the last row shown.
   */
  lemma CursorAcceptedExactly(t: Table, r: Request, s: Request, last: Listing)
    requires Valid(t) && last in Candidates(t, r) && Acceptable(r)
    requires Acceptable(s)
    ensures Decode(s, CursorAt(r, last)).Success? <==> SameQuery(r, s)
    ensures SameQuery(r, s) ==>
      PositionKey(s, Decode(s, CursorAt(r, last)).value) == Some(KeyOf(r, last))
  {
    RowIsStored(t, last);
    if r.Search? { SearchOptionsAreKnown(r.filters); }
    if s.Search? { SearchOptionsAreKnown(s.filters); }
  }

  /** What a decoder looks at: an empty filter is no filter, and a column the sort does not use is not read. */
  function AsRead(c: Cursor): Cursor {
    match c
    case OwnedCursor(version, kind, status, updatedAt, id) =>
      OwnedCursor(version, kind, if status == Some(OtherStatus("")) then None else status, updatedAt, id)
    case PublicCursor(version, kind, query, category, condition, minPrice, maxPrice, sort, createdAt, price, id) =>
      PublicCursor(version, kind, query, category,
                   if condition == Some(OtherCondition("")) then None else condition, minPrice, maxPrice, sort,
                   if sort == Newest then createdAt else None, if sort == Newest then None else price, id)
    case _ => c
  }

  /** A row that a page of this query could end with. */
  ghost predicate CouldEnd(r: Request, l: Listing) {
    && l.id >= 1 && 1 <= l.priceIDR <= 10_000_000_000
    && (r.Catalogue? && r.status == None ==> l.status == Active || l.status == Reserved)
    && (r.Catalogue? && r.status != None ==> r.status == Some(l.status))
  }

  /** A request accepts no cursor other than those its own pages could carry: forged ones are refused. */
  lemma AcceptedCursorsAreOwn(r: Request, c: Cursor)
    requires Acceptable(r)
    ensures Decode(r, c).Success? <==> c == NoCursor || exists l :: CouldEnd(r, l) && AsRead(c) == CursorAt(r, l)
  {
    if r.Search? { SearchOptionsAreKnown(r.filters); }
    if Decode(r, c).Success? && c != NoCursor {
      var l := RowOf(r, c);
      assert CouldEnd(r, l) && AsRead(c) == CursorAt(r, l);
    }
  }

  function RowOf(r: Request, c: Cursor): Listing {
    match c
    case OwnedCursor(_, _, _, Some(updatedAt), id) =>
      Listing(id, 0, "", "", "", 1, 1, New, Active, Visible, false, 0, updatedAt)
    case PublicCursor(_, _, _, _, _, _, _, sort, createdAt, price, id) =>
      Listing(id, 0, "", "", "", if sort == Newest then 1 else Or(price, 1), 1, New, Active, Visible, false,
              Or(createdAt, 0), 0)
    case SellerCursor(_, _, _, Some(status), _, _, Some(updatedAt), id) =>
      Listing(id, 0, "", "", "", 1, 1, New, status, Visible, false, 0, updatedAt)
    case SellerCursor(_, _, _, None, _, rank, Some(updatedAt), id) =>
      Listing(id, 0, "", "", "", 1, 1, New, if rank == 0 then Active else Reserved, Visible, false, 0, updatedAt)
    case _ => Listing(1, 0, "", "", "", 1, 1, New, Active, Visible, false, 0, 0)
  }
}
