/** When a create, an edit or a status change is accepted, and what it then stores, in the words of the request. */
module ListingRules {
  import opened Wrappers
  import opened Text
  import opened Listings

  predicate TitleFits(title: string) { 1 <= |TrimSpace(title)| <= 120 }

  predicate CategoryFits(category: string) { 1 <= |TrimSpace(category)| <= 50 }

  predicate PriceFits(price: int) { 1 <= price <= 10_000_000_000 }

  predicate QuantityFits(quantity: int) { 1 <= quantity <= 1_000_000 }

  lemma TitleRule(title: string)
    ensures BadTitle(TrimSpace(title)) <==> !TitleFits(title)
  {
    TrimSpaceTwice(title);
    hide TrimSpace;
  }

  // ---- Create ----------------------------------------------------------------------------------

  predicate DraftFits(d: Draft) {
    && TitleFits(d.title) && |d.description| <= 5000 && PriceFits(d.priceIDR) && QuantityFits(d.quantity)
    && (d.condition == New || d.condition == Used) && CategoryFits(d.category)
  }

  /** The fields a refused draft is told about are exactly those out of bounds. */
  lemma DraftErrorsAre(d: Draft)
    ensures var errors := DraftErrors(NormalizeDraft(d));
      && (TitleField in errors <==> !TitleFits(d.title))
      && (DescriptionField in errors <==> |d.description| > 5000)
      && (PriceField in errors <==> !PriceFits(d.priceIDR))
      && (QuantityField in errors <==> !QuantityFits(d.quantity))
      && (ConditionField in errors <==> d.condition != New && d.condition != Used)
      && (CategoryField in errors <==> !CategoryFits(d.category))
      && BodyField !in errors && StatusField !in errors
      && (errors == {} <==> DraftFits(d))
  {
    TitleRule(d.title);
    hide TrimSpace, BadTitle, TitleFits;
    var errors := DraftErrors(NormalizeDraft(d));
    assert forall f: Field :: f in errors <==> BadInDraft(NormalizeDraft(d), f);
    assert TitleField in errors <==> BadInDraft(NormalizeDraft(d), TitleField);
    assert DescriptionField in errors <==> BadInDraft(NormalizeDraft(d), DescriptionField);
    assert PriceField in errors <==> BadInDraft(NormalizeDraft(d), PriceField);
    assert QuantityField in errors <==> BadInDraft(NormalizeDraft(d), QuantityField);
    assert ConditionField in errors <==> BadInDraft(NormalizeDraft(d), ConditionField);
    assert CategoryField in errors <==> BadInDraft(NormalizeDraft(d), CategoryField);
    assert BodyField in errors <==> BadInDraft(NormalizeDraft(d), BodyField);
    assert StatusField in errors <==> BadInDraft(NormalizeDraft(d), StatusField);
  }

  /**
   A create succeeds exactly when every field of the draft fits and the trimmed category is known.  It
   then adds one row, the caller's, active and visible, with the draft's trimmed title and category and
   its other fields as they are; a refusal changes nothing.
   */
  lemma CreateStoresDraft(t: Table, categories: set<string>, sellerID: int, d: Draft, now: int)
    requires Valid(t)
    ensures var (next, result) := CreateListing(t, categories, sellerID, d, now);
      && (result.Success? <==> DraftFits(d) && TrimSpace(d.category) in categories)
      && (result.Failure? ==> next == t && result.error.Invalid?)
      && (result.Failure? && DraftFits(d) ==> result.error.fields == {CategoryField})
      && (result.Success? ==>
            && var l := result.value;
            && l.id !in t.rows && next.rows == t.rows[l.id := l]
            && l.sellerID == sellerID
            && l.title == TrimSpace(d.title) && l.category == TrimSpace(d.category)
            && l.description == d.description && l.priceIDR == d.priceIDR && l.quantity == d.quantity
            && l.condition == d.condition && l.negotiable == d.negotiable
            && l.status == Active && l.moderation == Visible
            && l.createdAt == now && l.updatedAt == now)
    ensures ApplyWrite(t, Create(categories, sellerID, d, now)) == CreateListing(t, categories, sellerID, d, now).0
  {
    DraftErrorsAre(d);
    hide TrimSpace, DraftErrors, DraftFits;
  }

  // ---- Edit ------------------------------------------------------------------------------------

  /** The request mentions at least one field. */
  predicate MentionsAny(e: Edit) {
    || e.title.Some? || e.description.Some? || e.priceIDR.Some? || e.quantity.Some? || e.category.Some?
    || e.condition.Some? || e.negotiable.Some?
  }

  predicate EditFits(e: Edit) {
    && (e.title.Some? ==> TitleFits(e.title.value))
    && (e.description.Some? ==> |e.description.value| <= 5000)
    && (e.priceIDR.Some? ==> PriceFits(e.priceIDR.value))
    && (e.quantity.Some? ==> QuantityFits(e.quantity.value))
    && (e.condition.Some? ==> e.condition.value == New || e.condition.value == Used)
    && (e.category.Some? ==> CategoryFits(e.category.value))
  }

  lemma EditErrorsAre(e: Edit)
    ensures var errors := EditErrors(NormalizeEdit(e));
      && (TitleField in errors <==> e.title.Some? && !TitleFits(e.title.value))
      && (DescriptionField in errors <==> e.description.Some? && |e.description.value| > 5000)
      && (PriceField in errors <==> e.priceIDR.Some? && !PriceFits(e.priceIDR.value))
      && (QuantityField in errors <==> e.quantity.Some? && !QuantityFits(e.quantity.value))
      && (ConditionField in errors <==> e.condition.Some? && e.condition.value != New && e.condition.value != Used)
      && (CategoryField in errors <==> e.category.Some? && !CategoryFits(e.category.value))
      && BodyField !in errors && StatusField !in errors
      && (errors == {} <==> EditFits(e))
  {
    if e.title.Some? { TitleRule(e.title.value); }
    hide TrimSpace, BadTitle, TitleFits;
    var errors := EditErrors(NormalizeEdit(e));
    assert forall f: Field :: f in errors <==> BadInEdit(NormalizeEdit(e), f);
    assert TitleField in errors <==> BadInEdit(NormalizeEdit(e), TitleField);
    assert DescriptionField in errors <==> BadInEdit(NormalizeEdit(e), DescriptionField);
    assert PriceField in errors <==> BadInEdit(NormalizeEdit(e), PriceField);
    assert QuantityField in errors <==> BadInEdit(NormalizeEdit(e), QuantityField);
    assert ConditionField in errors <==> BadInEdit(NormalizeEdit(e), ConditionField);
    assert CategoryField in errors <==> BadInEdit(NormalizeEdit(e), CategoryField);
    assert BodyField in errors <==> BadInEdit(NormalizeEdit(e), BodyField);
    assert StatusField in errors <==> BadInEdit(NormalizeEdit(e), StatusField);
  }

  predicate CategoryIsKnown(e: Edit, categories: set<string>) {
    e.category.Some? ==> TrimSpace(e.category.value) in categories
  }

  /** The listing is there for the public, or was never moderated away. */
  predicate IsThere(t: Table, id: int) { id in t.rows && t.rows[id].moderation == Visible }

  /** Each refusal of an edit, in the order of the checks, and success exactly when none applies. */
  lemma UpdateIsRefusedInOrder(t: Table, categories: set<string>, sellerID: int, id: int, e: Edit, now: int)
    requires Valid(t)
    ensures var (next, result) := UpdateListing(t, categories, sellerID, id, e, now);
      (result.Failure? ==> next == t) && ApplyWrite(t, Update(categories, sellerID, id, e, now)) == next
    ensures var result := UpdateListing(t, categories, sellerID, id, e, now).1;
      if !MentionsAny(e) then result == Failure(Invalid({BodyField}))
      else if !EditFits(e) then result == Failure(Invalid(EditErrors(NormalizeEdit(e))))
      else if !IsThere(t, id) then result == Failure(NotFound)
      else if t.rows[id].sellerID != sellerID then result == Failure(Forbidden)
      else if !CategoryIsKnown(e, categories) then result == Failure(Invalid({CategoryField}))
      else if now < t.rows[id].createdAt then result == Failure(StorageError)
      else result.Success?
  {
    EditErrorsAre(e);
    hide TrimSpace, EditErrors, EditFits;
  }

  /** The row an accepted edit stores, with the trimming spelled out. */
  lemma UpdateStoresEdit(t: Table, categories: set<string>, sellerID: int, id: int, e: Edit, now: int)
    requires Valid(t) && UpdateListing(t, categories, sellerID, id, e, now).1.Success?
    ensures var l := UpdateListing(t, categories, sellerID, id, e, now).1.value;
      var before := t.rows[id];
      && UpdateListing(t, categories, sellerID, id, e, now).0 == t.(rows := t.rows[id := l])
      && l.title == (if e.title.Some? then TrimSpace(e.title.value) else before.title)
      && l.category == (if e.category.Some? then TrimSpace(e.category.value) else before.category)
      && l.description == (if e.description.Some? then e.description.value else before.description)
      && l.priceIDR == (if e.priceIDR.Some? then e.priceIDR.value else before.priceIDR)
      && l.quantity == (if e.quantity.Some? then e.quantity.value else before.quantity)
      && l.condition == (if e.condition.Some? then e.condition.value else before.condition)
      && l.negotiable == (if e.negotiable.Some? then e.negotiable.value else before.negotiable)
      && l.updatedAt == now && l.createdAt == before.createdAt
      && l.id == before.id && l.sellerID == before.sellerID && l.status == before.status
      && l.moderation == before.moderation
  {
    hide TrimSpace, EditErrors;
  }

  // ---- Status ----------------------------------------------------------------------------------

  predicate IsKnownStatus(s: Status) { s == Active || s == Reserved || s == Sold || s == Archived }

  /** Anything can be reactivated or archived; only active listings are reserved, only active or reserved ones sold. */
  predicate MayBecome(from: Status, to: Status) {
    && IsKnownStatus(from) && from != to
    && (to == Active || to == Archived || (to == Reserved && from == Active)
        || (to == Sold && (from == Active || from == Reserved)))
  }

  lemma TransitionRule(from: Status, to: Status)
    requires IsKnownStatus(to)
    ensures CanTransition(from, to) <==> MayBecome(from, to) || from == to
  {
  }

  /** Each refusal of a status change, in the order of the checks, and success exactly when none applies. */
  lemma StatusChangeFollowsTransitions(t: Table, sellerID: int, id: int, status: Status, now: int)
    requires Valid(t)
    ensures var (next, result) := ChangeListingStatus(t, sellerID, id, status, now);
      if !IsKnownStatus(status) then result == Failure(Invalid({StatusField})) && next == t
      else if !IsThere(t, id) then result == Failure(NotFound) && next == t
      else if t.rows[id].sellerID != sellerID then result == Failure(Forbidden) && next == t
      else if t.rows[id].status == status then result == Success(t.rows[id]) && next == t
      else if !MayBecome(t.rows[id].status, status) then result == Failure(Conflict) && next == t
      else if now < t.rows[id].createdAt then result == Failure(StorageError) && next == t
      else
        && result == Success(t.rows[id].(status := status, updatedAt := now))
        && next == t.(rows := t.rows[id := result.value])
    ensures ApplyWrite(t, SetStatus(sellerID, id, status, now)) == ChangeListingStatus(t, sellerID, id, status, now).0
  {
    if id in t.rows && IsKnownStatus(status) {
      TransitionRule(t.rows[id].status, status);
    }
    hide CanTransition;
  }
}
