/** A concrete price-sorted walk that shows a listing twice, because its price rose meanwhile. */
module PriceWalk {
  import opened Wrappers
  import opened Listings
  import opened Keyset
  import opened Paging
  import opened Walks

  const CHEAP := Listing(1, 7, "keycaps", "a", "", 10, 1, Used, Active, Visible, false, 0, 0)
  const DEAR := Listing(2, 7, "keycaps", "b", "", 20, 1, Used, Active, Visible, false, 0, 0)
  const SHOP := Table(map[1 := CHEAP, 2 := DEAR], 3)
  const RAISE := Update({}, 7, 1, Edit(None, None, Some(30), None, None, None, None), 5)
  const RAISED := CHEAP.(priceIDR := 30, updatedAt := 5)

  ghost function CheapestFirst(): Paging.Request {
    Search((c: char) => c, SearchFilters("", "", None, None, None, PriceAsc))
  }

  lemma CheapestFirstIsAcceptable()
    ensures Acceptable(CheapestFirst())
  {
    assert forall f: QueryField :: !BadInSearch(CheapestFirst().filters, f);
    assert SearchErrors(CheapestFirst().filters) == {};
  }

  lemma EveryVisibleListingMatches(l: Listing)
    requires l.status.Active? && l.moderation.Visible?
    ensures Matches(CheapestFirst(), l)
  {
  }

  lemma ShopCandidates()
    ensures Candidates(SHOP, CheapestFirst()) == {CHEAP, DEAR}
  {
    EveryVisibleListingMatches(CHEAP);
    EveryVisibleListingMatches(DEAR);
    assert SHOP.rows[1] == CHEAP && SHOP.rows[2] == DEAR;
    assert CHEAP in Rows(SHOP) && DEAR in Rows(SHOP);
  }

  lemma ShopStep()
    ensures Valid(SHOP) && Separates(Candidates(SHOP, CheapestFirst()), KeyFor(CheapestFirst()))
    ensures WalkStep(Start(), Keyset.Request(Candidates(SHOP, CheapestFirst()), 1), KeyFor(CheapestFirst()))
      == Walk(Some(Key(0, 10, 1)), false, [CHEAP])
  {
    ShopCandidates();
    hide Candidates, WalkStep;
    CandidatesSeparate(SHOP, CheapestFirst());
    assert KeyFor(CheapestFirst())(CHEAP) == Key(0, 10, 1) && KeyFor(CheapestFirst())(DEAR) == Key(0, 20, 2);
    FirstOfTwo(CHEAP, DEAR, KeyFor(CheapestFirst()));
  }

  /** The first page of one shows the cheap listing and resumes behind it. */
  lemma FirstPage()
    ensures Valid(SHOP)
    ensures var walk := Walk(Some(Key(0, 10, 1)), false, [CHEAP]);
      Linked(CheapestFirst(), FetchPage(SHOP, CheapestFirst(), FRESH, 1), walk)
  {
    hide Linked, FetchPage, WalkStep, Acceptable, Candidates;
    ShopStep();
    CheapestFirstIsAcceptable();
    FreshIsLinked(CheapestFirst());
    FetchIsWalkStep(SHOP, CheapestFirst(), FRESH, Start(), 1);
  }

  lemma RaiseTakesEffect()
    ensures ApplyWrite(SHOP, RAISE) == Table(map[1 := RAISED, 2 := DEAR], 3)
  {
    assert forall f: Field :: !BadInEdit(NormalizeEdit(RAISE.edit), f);
    assert EditErrors(NormalizeEdit(RAISE.edit)) == {};
  }

  const REST := [FetchOp(1), FetchOp(1), FetchOp(1)]

  /** Finishing the walk after the price was raised. */
  lemma FinishRepeats(c: Client)
    requires Linked(CheapestFirst(), c, Walk(Some(Key(0, 10, 1)), false, [CHEAP]))
    ensures Valid(ApplyWrite(SHOP, RAISE))
    ensures var end := Run(Session(ApplyWrite(SHOP, RAISE), c), CheapestFirst(), REST).client;
      end.done && !Distinct(end.shown, ListingID)
  {
    var r := CheapestFirst();
    var w := Walk(Some(Key(0, 10, 1)), false, [CHEAP]);
    CheapestFirstIsAcceptable();
    RaiseTakesEffect();
    var t := ApplyWrite(SHOP, RAISE);
    assert Valid(t);
    EveryVisibleListingMatches(RAISED);
    ResumePredicatesMatchKeys(r, c.cursor, RAISED);
    assert IsAhead(t, r, c, c.shown[0].id);
    FinishEnds(c, t, w);
    RepeatsExactlyWhenRelapsed(Session(t, c), r, REST, w);
  }

  lemma FinishEnds(c: Client, t: Table, w: Walk<Listing>)
    requires t == Table(map[1 := RAISED, 2 := DEAR], 3) && Valid(t) && Acceptable(CheapestFirst())
    requires Linked(CheapestFirst(), c, w) && !w.done
    ensures IsFetching(REST) && Run(Session(t, c), CheapestFirst(), REST).client.done
  {
    var r := CheapestFirst();
    RemainingIDs(t, r, w.cursor);
    AtMostTwo(Remaining(Candidates(t, r), KeyFor(r), w.cursor));
    UndisturbedWalk(Session(t, c), r, REST, w);
  }

  lemma ThreeOfTwoClash(rest: seq<Listing>)
    requires forall i | 0 <= i < |rest| :: rest[i].id == 1 || rest[i].id == 2
    ensures |rest| > 2 ==> rest[0].id == rest[1].id || rest[0].id == rest[2].id || rest[1].id == rest[2].id
  {
  }

  lemma AtMostTwo(rest: seq<Listing>)
    requires Distinct(rest, ListingID) && forall i | 0 <= i < |rest| :: rest[i].id == 1 || rest[i].id == 2
    ensures |rest| <= 2
  {
    ThreeOfTwoClash(rest);
  }

  /**
   "Each listing once" is false of price walks with concurrent edits: raising the price of a listing
   already shown puts it behind the cursor again, and the walk shows it a second time.
   */
  lemma PriceWalkCanRepeat()
    ensures Valid(SHOP) && Acceptable(CheapestFirst())
    ensures var end := Run(Session(SHOP, FRESH), CheapestFirst(), [FetchOp(1), WriteOp(RAISE)] + REST).client;
      end.done && !Distinct(end.shown, ListingID)
  {
    CheapestFirstIsAcceptable();
    FirstPage();
    FinishRepeats(FetchPage(SHOP, CheapestFirst(), FRESH, 1));
    RunTwo(Session(SHOP, FRESH), CheapestFirst(), FetchOp(1), WriteOp(RAISE), REST);
  }

  lemma RunTwo(s: Session, r: Paging.Request, a: Op, b: Op, rest: seq<Op>)
    requires Valid(s.table)
    ensures Run(s, r, [a, b] + rest) == Run(Apply(Apply(s, r, a), r, b), r, rest)
  {
    assert ([a, b] + rest)[1..] == [b] + rest && ([b] + rest)[1..] == rest;
    assert Run(s, r, [a, b] + rest) == Run(Apply(s, r, a), r, [b] + rest);
  }
}
