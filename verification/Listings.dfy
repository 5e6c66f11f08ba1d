/** Listings, the table that stores them, and the three service calls that write to it. */
module Listings {
  import opened Wrappers
  import opened Text

  const MIN_PRICE_IDR := 1
  const MAX_PRICE_IDR := 10_000_000_000
  const MAX_QUANTITY := 1_000_000
  const MAX_TITLE := 120
  const MAX_DESCRIPTION := 5000
  const MAX_CATEGORY_SLUG := 50

  /** The last constructor of each enumeration is any other text a caller may send. */
  datatype Status = Active | Reserved | Sold | Archived | OtherStatus(text: string)
  datatype Condition = New | Used | OtherCondition(text: string)
  datatype Moderation = Visible | Removed

  datatype Listing = Listing(
    id: int, sellerID: int, category: string, title: string, description: string,
    priceIDR: int, quantity: int, condition: Condition, status: Status, moderation: Moderation,
    negotiable: bool, createdAt: int, updatedAt: int)

  datatype Table = Table(rows: map<int, Listing>, nextID: int)

  /** The column constraints, and identifiers handed out in increasing order. */
  ghost predicate Valid(t: Table) {
    && t.nextID >= 1
    && forall id | id in t.rows ::
         && t.rows[id].id == id && 1 <= id < t.nextID
         && MIN_PRICE_IDR <= t.rows[id].priceIDR <= MAX_PRICE_IDR
         && t.rows[id].createdAt <= t.rows[id].updatedAt
  }

  datatype Field =
    | TitleField | DescriptionField | PriceField | QuantityField | ConditionField | CategoryField
    | BodyField | StatusField

  datatype WriteError = Invalid(fields: set<Field>) | NotFound | Forbidden | Conflict | StorageError

  datatype Draft = Draft(
    title: string, description: string, priceIDR: int, quantity: int, category: string,
    condition: Condition, negotiable: bool)

  /** A field that is None is left alone. */
  datatype Edit = Edit(
    title: Option<string>, description: Option<string>, priceIDR: Option<int>, quantity: Option<int>,
    category: Option<string>, condition: Option<Condition>, negotiable: Option<bool>)

  predicate BadTitle(title: string) {
    TrimSpace(title) == "" || |TrimSpace(title)| > MAX_TITLE
  }

  predicate BadCategory(category: string) {
    category == "" || |category| > MAX_CATEGORY_SLUG
  }

  predicate BadPrice(price: int) {
    !(MIN_PRICE_IDR <= price <= MAX_PRICE_IDR)
  }

  predicate BadInDraft(d: Draft, f: Field) {
    match f
    case TitleField => BadTitle(d.title)
    case DescriptionField => |d.description| > MAX_DESCRIPTION
    case PriceField => BadPrice(d.priceIDR)
    case QuantityField => !(1 <= d.quantity <= MAX_QUANTITY)
    case ConditionField => d.condition.OtherCondition?
    case CategoryField => BadCategory(d.category)
    case _ => false
  }

  predicate BadInEdit(e: Edit, f: Field) {
    match f
    case TitleField => e.title.Some? && BadTitle(e.title.value)
    case DescriptionField => e.description.Some? && |e.description.value| > MAX_DESCRIPTION
    case PriceField => e.priceIDR.Some? && BadPrice(e.priceIDR.value)
    case QuantityField => e.quantity.Some? && !(1 <= e.quantity.value <= MAX_QUANTITY)
    case ConditionField => e.condition.Some? && e.condition.value.OtherCondition?
    case CategoryField => e.category.Some? && BadCategory(e.category.value)
    case _ => false
  }

  function DraftErrors(d: Draft): set<Field> { set f: Field | BadInDraft(d, f) }

  function EditErrors(e: Edit): set<Field> { set f: Field | BadInEdit(e, f) }

  predicate HasUpdates(e: Edit) {
    e != Edit(None, None, None, None, None, None, None)
  }

  function NormalizeDraft(d: Draft): Draft {
    d.(title := TrimSpace(d.title), category := TrimSpace(d.category))
  }

  function NewListing(id: int, sellerID: int, d: Draft, now: int): Listing {
    Listing(id, sellerID, d.category, d.title, d.description, d.priceIDR, d.quantity,
            d.condition, Active, Visible, d.negotiable, now, now)
  }

  function NormalizeEdit(e: Edit): Edit {
    e.(title := if e.title.Some? then Some(TrimSpace(e.title.value)) else None,
       category := if e.category.Some? then Some(TrimSpace(e.category.value)) else None)
  }

  function Or<T>(o: Option<T>, otherwise: T): T {
    if o.Some? then o.value else otherwise
  }

  function Edited(l: Listing, e: Edit, now: int): Listing {
    l.(title := Or(e.title, l.title), description := Or(e.description, l.description),
       priceIDR := Or(e.priceIDR, l.priceIDR), quantity := Or(e.quantity, l.quantity),
       category := Or(e.category, l.category), condition := Or(e.condition, l.condition),
       negotiable := Or(e.negotiable, l.negotiable), updatedAt := now)
  }

  predicate CanTransition(from: Status, to: Status) {
    match from
    case Active => to.Active? || to.Reserved? || to.Sold? || to.Archived?
    case Reserved => to.Reserved? || to.Active? || to.Sold? || to.Archived?
    case Sold => to.Sold? || to.Active? || to.Archived?
    case Archived => to.Archived? || to.Active?
    case OtherStatus(_) => false
  }

  /** The row a seller may change: it exists, is not removed, and belongs to the seller. */
  function OwnedRow(t: Table, sellerID: int, listingID: int): Result<Listing, WriteError> {
    if listingID !in t.rows || t.rows[listingID].moderation.Removed? then Failure(NotFound)
    else if t.rows[listingID].sellerID != sellerID then Failure(Forbidden)
    else Success(t.rows[listingID])
  }

  function Stored(t: Table, l: Listing): (Table, Result<Listing, WriteError>) {
    if l.updatedAt < l.createdAt then (t, Failure(StorageError))
    else (t.(rows := t.rows[l.id := l]), Success(l))
  }

  function CreateListing(t: Table, categories: set<string>, sellerID: int, draft: Draft, now: int)
    : (Table, Result<Listing, WriteError>)
  {
    var d := NormalizeDraft(draft);
    if DraftErrors(d) != {} then (t, Failure(Invalid(DraftErrors(d))))
    else if d.category !in categories then (t, Failure(Invalid({CategoryField})))
    else
      var l := NewListing(t.nextID, sellerID, d, now);
      (Table(t.rows[l.id := l], t.nextID + 1), Success(l))
  }

  function UpdateListing(
      t: Table, categories: set<string>, sellerID: int, listingID: int, edit: Edit, now: int)
    : (Table, Result<Listing, WriteError>)
  {
    var e := NormalizeEdit(edit);
    if !HasUpdates(edit) then (t, Failure(Invalid({BodyField})))
    else if EditErrors(e) != {} then (t, Failure(Invalid(EditErrors(e))))
    else
      var row := OwnedRow(t, sellerID, listingID);
      if row.Failure? then (t, row)
      else if e.category.Some? && e.category.value !in categories then (t, Failure(Invalid({CategoryField})))
      else Stored(t, Edited(row.value, e, now))
  }

  function ChangeListingStatus(t: Table, sellerID: int, listingID: int, status: Status, now: int)
    : (Table, Result<Listing, WriteError>)
  {
    if status.OtherStatus? then (t, Failure(Invalid({StatusField})))
    else
      var row := OwnedRow(t, sellerID, listingID);
      if row.Failure? then (t, row)
      else if row.value.status == status then (t, row)
      else if !CanTransition(row.value.status, status) then (t, Failure(Conflict))
      else Stored(t, row.value.(status := status, updatedAt := now))
  }

  // ---- Any write -------------------------------------------------------------------------------

  datatype Write =
    | Create(categories: set<string>, sellerID: int, draft: Draft, now: int)
    | Update(categories: set<string>, sellerID: int, listingID: int, edit: Edit, now: int)
    | SetStatus(sellerID: int, listingID: int, status: Status, now: int)

  function ApplyWrite(t: Table, w: Write): Table {
    match w
    case Create(categories, sellerID, draft, now) => CreateListing(t, categories, sellerID, draft, now).0
    case Update(categories, sellerID, id, edit, now) => UpdateListing(t, categories, sellerID, id, edit, now).0
    case SetStatus(sellerID, id, status, now) => ChangeListingStatus(t, sellerID, id, status, now).0
  }

  /** The writes of a run, in order. */
  function WriteAll(t: Table, writes: seq<Write>): Table
    decreases |writes|
  {
    if writes == [] then t else WriteAll(ApplyWrite(t, writes[0]), writes[1..])
  }

  /**
   What a write may do: rows stay, keep identity, owner and creation time, any change is stamped
   `now`, and a new row gets the next identifier and is created `now`.
   */
  ghost predicate Evolves(t: Table, u: Table, now: int) {
    && (forall id | id in t.rows ::
         && id in u.rows
         && u.rows[id].id == t.rows[id].id
         && u.rows[id].sellerID == t.rows[id].sellerID
         && u.rows[id].createdAt == t.rows[id].createdAt
         && (u.rows[id] == t.rows[id] || u.rows[id].updatedAt == now))
    && (forall id | id in u.rows && id !in t.rows ::
         id == t.nextID && u.rows[id].createdAt == u.rows[id].updatedAt == now)
  }

  /** No write deletes a listing, moves it to another seller or rewrites its creation time. */
  lemma WriteEvolves(t: Table, w: Write)
    requires Valid(t)
    ensures Valid(ApplyWrite(t, w)) && Evolves(t, ApplyWrite(t, w), w.now)
  {
    match w
    case Create(categories, sellerID, draft, now) => CreateEvolves(t, categories, sellerID, draft, now);
    case Update(categories, sellerID, id, edit, now) => UpdateEvolves(t, categories, sellerID, id, edit, now);
    case SetStatus(sellerID, id, status, now) => StatusEvolves(t, sellerID, id, status, now);
  }

  lemma CreateEvolves(t: Table, categories: set<string>, sellerID: int, draft: Draft, now: int)
    requires Valid(t)
    ensures var u := CreateListing(t, categories, sellerID, draft, now).0; Valid(u) && Evolves(t, u, now)
  {
    NoErrorMeansGoodPrice(NormalizeDraft(draft));
    hide TrimSpace, DraftErrors;
  }

  lemma NoErrorMeansGoodPrice(d: Draft)
    ensures DraftErrors(d) == {} ==> !BadPrice(d.priceIDR)
  {
    hide BadTitle, BadCategory;
    assert BadInDraft(d, PriceField) <==> PriceField in DraftErrors(d);
  }

  lemma NoErrorMeansGoodNewPrice(e: Edit)
    ensures EditErrors(e) == {} && e.priceIDR.Some? ==> !BadPrice(e.priceIDR.value)
  {
    hide BadTitle, BadCategory;
    assert BadInEdit(e, PriceField) <==> PriceField in EditErrors(e);
  }

  lemma UpdateEvolves(t: Table, categories: set<string>, sellerID: int, id: int, edit: Edit, now: int)
    requires Valid(t)
    ensures var u := UpdateListing(t, categories, sellerID, id, edit, now).0; Valid(u) && Evolves(t, u, now)
  {
    var row := OwnedRow(t, sellerID, id);
    NoErrorMeansGoodNewPrice(NormalizeEdit(edit));
    hide TrimSpace, EditErrors;
    if row.Success? && EditErrors(NormalizeEdit(edit)) == {} {
      StoreEvolves(t, Edited(row.value, NormalizeEdit(edit), now));
    }
  }

  lemma StatusEvolves(t: Table, sellerID: int, id: int, status: Status, now: int)
    requires Valid(t)
    ensures var u := ChangeListingStatus(t, sellerID, id, status, now).0; Valid(u) && Evolves(t, u, now)
  {
    var row := OwnedRow(t, sellerID, id);
    if row.Success? {
      StoreEvolves(t, row.value.(status := status, updatedAt := now));
    }
  }

  lemma StoreEvolves(t: Table, l: Listing)
    requires Valid(t) && l.id in t.rows
    requires l.sellerID == t.rows[l.id].sellerID && l.createdAt == t.rows[l.id].createdAt
    requires MIN_PRICE_IDR <= l.priceIDR <= MAX_PRICE_IDR
    ensures Valid(Stored(t, l).0) && Evolves(t, Stored(t, l).0, l.updatedAt)
  {
  }

  // ---- The service, over a table it updates in place -------------------------------------------

  class CatalogService {
    var rows: map<int, Listing>
    var nextID: int
    const categories: set<string>

    function View(): Table
      reads this
    {
      Table(rows, nextID)
    }

    constructor (categories: set<string>)
      ensures this.categories == categories && View() == Table(map[], 1) && Valid(View())
    {
      this.categories := categories;
      rows := map[];
      nextID := 1;
    }

    method Create(sellerID: int, draft: Draft, now: int) returns (result: Result<Listing, WriteError>)
      modifies this
      ensures (View(), result) == CreateListing(old(View()), categories, sellerID, draft, now)
    {
      hide TrimSpace, DraftErrors;
      var d := NormalizeDraft(draft);
      var fields := DraftErrors(d);
      if fields != {} {
        return Failure(Invalid(fields));
      }
      if d.category !in categories {
        return Failure(Invalid({CategoryField}));
      }
      var l := NewListing(nextID, sellerID, d, now);
      nextID := nextID + 1;
      rows := rows[l.id := l];
      return Success(l);
    }

    method Update(sellerID: int, listingID: int, edit: Edit, now: int)
      returns (result: Result<Listing, WriteError>)
      modifies this`rows
      ensures (View(), result) == UpdateListing(old(View()), categories, sellerID, listingID, edit, now)
    {
      if !HasUpdates(edit) {
        return Failure(Invalid({BodyField}));
      }
      var e := NormalizeEdit(edit);
      var fields := EditErrors(e);
      if fields != {} {
        return Failure(Invalid(fields));
      }
      var existing :- GetOwned(sellerID, listingID);
      if e.category.Some? && e.category.value !in categories {
        return Failure(Invalid({CategoryField}));
      }
      result := Store(Edited(existing, e, now));
    }

    method ChangeStatus(sellerID: int, listingID: int, status: Status, now: int)
      returns (result: Result<Listing, WriteError>)
      modifies this`rows
      ensures (View(), result) == ChangeListingStatus(old(View()), sellerID, listingID, status, now)
    {
      if status.OtherStatus? {
        return Failure(Invalid({StatusField}));
      }
      var existing :- GetOwned(sellerID, listingID);
      if existing.status == status {
        return Success(existing);
      }
      if !CanTransition(existing.status, status) {
        return Failure(Conflict);
      }
      result := Store(existing.(status := status, updatedAt := now));
    }

    method GetOwned(sellerID: int, listingID: int) returns (result: Result<Listing, WriteError>)
      ensures result == OwnedRow(View(), sellerID, listingID)
    {
      if listingID !in rows || rows[listingID].moderation.Removed? {
        return Failure(NotFound);
      }
      if rows[listingID].sellerID != sellerID {
        return Failure(Forbidden);
      }
      return Success(rows[listingID]);
    }

    /** The UPDATE statement; a row that would break updated_at >= created_at is refused. */
    method Store(l: Listing) returns (result: Result<Listing, WriteError>)
      modifies this`rows
      ensures (View(), result) == Stored(old(View()), l)
    {
      if l.updatedAt < l.createdAt {
        return Failure(StorageError);
      }
      rows := rows[l.id := l];
      return Success(l);
    }
  }
}
