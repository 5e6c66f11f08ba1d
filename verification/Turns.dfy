/** Exactly which listings a walk shows, and exactly when it repeats one, whatever is written between its pages. */
module Turns {
  import opened Listings
  import opened Keyset
  import opened Paging
  import opened Walks

  /** The rows a query that resumes at `p` returns before `l`. */
  ghost function RowsBefore(t: Table, r: Paging.Request, p: Position, l: Listing): set<Listing> {
    set q | q in Candidates(t, r) && Resumes(SortOf(r), p, q) && ReturnedBefore(r, q, l)
  }

  /**
   The next fetch shows the listing: it matches, lies behind the client's cursor, and fewer matching
   rows than the page holds are returned before it.
   */
  ghost predicate TurnComes(t: Table, r: Paging.Request, c: Client, limit: int, id: int) {
    && !c.done && IsLimit(limit) && IsAhead(t, r, c, id)
    && |RowsBefore(t, r, Decode(r, c.cursor).value, t.rows[id])| < PageSize(limit)
  }

  /** The next fetch shows some listing again. */
  ghost predicate Reshows(t: Table, r: Paging.Request, c: Client, limit: int) {
    exists i :: 0 <= i < |c.shown| && TurnComes(t, r, c, limit, c.shown[i].id)
  }

  /** At no fetch of the run is it the turn of a listing that is already on screen. */
  ghost predicate NeverReshows(s: Session, r: Paging.Request, ops: seq<Op>)
    requires Valid(s.table)
    decreases |ops|
  {
    ops != [] ==>
      && (ops[0].FetchOp? ==> !Reshows(s.table, r, s.client, ops[0].limit))
      && NeverReshows(Apply(s, r, ops[0]), r, ops[1..])
  }

  /** At some fetch of the run it is the turn of the listing. */
  ghost predicate HasItsTurn(s: Session, r: Paging.Request, ops: seq<Op>, id: int)
    requires Valid(s.table)
    decreases |ops|
  {
    ops != [] && (
      || (ops[0].FetchOp? && TurnComes(s.table, r, s.client, ops[0].limit, id))
      || HasItsTurn(Apply(s, r, ops[0]), r, ops[1..], id))
  }

  // ---- One fetch -------------------------------------------------------------------------------

  lemma CandidatesAreIdentified(t: Table, r: Paging.Request)
    requires Valid(t)
    ensures Identifies(Candidates(t, r), ListingID)
  {
    forall a, b | a in Candidates(t, r) && b in Candidates(t, r) && ListingID(a) == ListingID(b) ensures a == b {
      RowIsStored(t, a);
      RowIsStored(t, b);
    }
  }

  lemma RowsBeforeAreBetween(t: Table, r: Paging.Request, cursor: Cursor, l: Listing)
    requires Decode(r, cursor).Success?
    ensures var p := Decode(r, cursor).value;
      RowsBefore(t, r, p, l) == Between(Candidates(t, r), KeyFor(r), PositionKey(r, p), l)
  {
    var p := Decode(r, cursor).value;
    forall q ensures Resumes(SortOf(r), p, q) && ReturnedBefore(r, q, l)
      <==> After(PositionKey(r, p), KeyFor(r)(q)) && Precedes(KeyFor(r)(q), KeyFor(r)(l))
    {
      ResumePredicatesMatchKeys(r, cursor, q);
      OrderClausesMatchKeys(r, q, l);
    }
  }

  lemma TurnIsHasTurn(t: Table, r: Paging.Request, c: Client, limit: int, id: int)
    requires Valid(t) && !c.done && IsLimit(limit) && id in t.rows && Decode(r, c.cursor).Success?
    ensures TurnComes(t, r, c, limit, id)
      <==> HasTurn(Candidates(t, r), KeyFor(r), PositionKey(r, Decode(r, c.cursor).value), PageSize(limit), t.rows[id])
  {
    var l := t.rows[id];
    hide Decode, Resumes, Matches;
    RowsBeforeAreBetween(t, r, c.cursor, l);
    ResumePredicatesMatchKeys(r, c.cursor, l);
    assert KeyFor(r)(l) == KeyOf(r, l);
    assert l in Candidates(t, r) <==> Matches(r, l) by {
      assert id in t.rows && t.rows[id] == l;
    }
  }

  lemma TurnIsWillList(t: Table, r: Paging.Request, c: Client, w: Walk<Listing>, limit: int, id: int)
    requires Valid(t) && Linked(r, c, w) && IsLimit(limit)
    ensures TurnComes(t, r, c, limit, id)
      <==> WillList(w, RequestOf(t, r, FetchOp(limit)), KeyFor(r), ListingID, id)
  {
    hide TurnComes, HasTurn, Decode, Coherent;
    if !c.done {
      forall l | l in Candidates(t, r) && ListingID(l) == id ensures id in t.rows && t.rows[id] == l {
        RowIsStored(t, l);
      }
      NoTurnUnlessCandidate(t, r, c, w, limit, id);
      if id in t.rows {
        TurnIsHasTurn(t, r, c, limit, id);
      }
    } else {
      NoTurnUnlessCandidate(t, r, c, w, limit, id);
    }
  }

  lemma NoTurnUnlessCandidate(t: Table, r: Paging.Request, c: Client, w: Walk<Listing>, limit: int, id: int)
    requires Valid(t) && IsLimit(limit)
    ensures TurnComes(t, r, c, limit, id) ==> !c.done && id in t.rows
    ensures forall l | HasTurn(Candidates(t, r), KeyFor(r), w.cursor, PageSize(limit), l) :: l in Candidates(t, r)
    ensures id in t.rows ==> ListingID(t.rows[id]) == id
  {
    hide Candidates, Decode, Resumes, Matches;
  }

  lemma FetchShowsExactly(s: Session, r: Paging.Request, limit: int, w: Walk<Listing>, id: int)
    requires Valid(s.table) && Acceptable(r) && Linked(r, s.client, w)
    ensures Lists(Apply(s, r, FetchOp(limit)).client.shown, ListingID, id)
      <==> Lists(s.client.shown, ListingID, id) || TurnComes(s.table, r, s.client, limit, id)
  {
    hide WillList, WalkStep, Coherent, Candidates, IsAhead, RowsBefore, ListPage;
    if IsLimit(limit) {
      FetchIsWalkStep(s.table, r, s.client, w, limit);
      TurnIsWillList(s.table, r, s.client, w, limit, id);
      CandidatesSeparate(s.table, r);
      StepListsExactly(w, RequestOf(s.table, r, FetchOp(limit)), KeyFor(r), ListingID, id);
    } else {
      RefusedFetchStays(s, r, limit);
    }
  }

  lemma RefusedFetchStays(s: Session, r: Paging.Request, limit: int)
    requires Valid(s.table) && Acceptable(r) && !IsLimit(limit)
    ensures Apply(s, r, FetchOp(limit)).client == s.client
  {
    LimitIsFree(r, limit);
  }

  lemma FetchRepeatsExactly(s: Session, r: Paging.Request, limit: int, w: Walk<Listing>)
    requires Valid(s.table) && Acceptable(r) && Linked(r, s.client, w) && Distinct(s.client.shown, ListingID)
    ensures Distinct(Apply(s, r, FetchOp(limit)).client.shown, ListingID) <==> !Reshows(s.table, r, s.client, limit)
  {
    hide WillList, WalkStep, Coherent, Candidates, IsAhead, RowsBefore, ListPage;
    if IsLimit(limit) {
      FetchIsWalkStep(s.table, r, s.client, w, limit);
      forall i | 0 <= i < |w.shown|
        ensures TurnComes(s.table, r, s.client, limit, w.shown[i].id)
          <==> WillList(w, RequestOf(s.table, r, FetchOp(limit)), KeyFor(r), ListingID, ListingID(w.shown[i]))
      {
        TurnIsWillList(s.table, r, s.client, w, limit, w.shown[i].id);
      }
      CandidatesSeparate(s.table, r);
      CandidatesAreIdentified(s.table, r);
      StepRepeatsExactly(w, RequestOf(s.table, r, FetchOp(limit)), KeyFor(r), ListingID);
    } else {
      RefusedFetchStays(s, r, limit);
    }
  }

  // ---- Whole runs ------------------------------------------------------------------------------

  /** What is on screen stays there. */
  lemma {:induction false} ScreenGrows(s: Session, r: Paging.Request, ops: seq<Op>)
    requires Valid(s.table)
    ensures s.client.shown <= Run(s, r, ops).client.shown
    decreases |ops|
  {
    hide ListPage, ApplyWrite;
    if ops == [] {
    } else {
      ScreenGrows(Apply(s, r, ops[0]), r, ops[1..]);
    }
  }

  lemma RepeatStays(shown: seq<Listing>, later: seq<Listing>)
    requires !Distinct(shown, ListingID) && shown <= later
    ensures !Distinct(later, ListingID)
  {
    var i, j :| 0 <= i < j < |shown| && ListingID(shown[i]) == ListingID(shown[j]);
    assert later[i] == shown[i] && later[j] == shown[j];
  }

  /**
   For every order and every run of writes and fetches: a walk shows some listing twice exactly when,
   at some fetch, the turn of a listing already on screen comes again.
   */
  lemma {:induction false} RepeatsExactlyWhenReshown(s: Session, r: Paging.Request, ops: seq<Op>, w: Walk<Listing>)
    requires Valid(s.table) && Acceptable(r) && Linked(r, s.client, w) && Distinct(s.client.shown, ListingID)
    ensures Distinct(Run(s, r, ops).client.shown, ListingID) <==> NeverReshows(s, r, ops)
    decreases |ops|
  {
    hide Distinct, Reshows, FetchPage, ApplyWrite, Linked;
    if ops == [] {
    } else {
      var next := Apply(s, r, ops[0]);
      ApplyIsAdvance(s, r, ops[0], w);
      LinkedShows(r, s.client, w);
      if ops[0].FetchOp? {
        FetchRepeatsExactly(s, r, ops[0].limit, w);
      }
      if Distinct(next.client.shown, ListingID) {
        RepeatsExactlyWhenReshown(next, r, ops[1..], Advance(s.table, r, ops[0], w));
      } else {
        ScreenGrows(next, r, ops[1..]);
        RepeatStays(next.client.shown, Run(s, r, ops).client.shown);
      }
    }
  }

  lemma LinkedShows(r: Paging.Request, c: Client, w: Walk<Listing>)
    requires Linked(r, c, w)
    ensures c.shown == w.shown && c.done == w.done
  {
  }

  /** A run shows a listing exactly when it was on screen before or its turn comes at some fetch. */
  lemma {:induction false} ShownExactlyWhenItsTurnComes(
      s: Session, r: Paging.Request, ops: seq<Op>, w: Walk<Listing>, id: int)
    requires Valid(s.table) && Acceptable(r) && Linked(r, s.client, w)
    ensures Lists(Run(s, r, ops).client.shown, ListingID, id)
      <==> Lists(s.client.shown, ListingID, id) || HasItsTurn(s, r, ops, id)
    decreases |ops|
  {
    hide Lists, TurnComes, FetchPage, ApplyWrite, Linked;
    if ops == [] {
    } else {
      ApplyIsAdvance(s, r, ops[0], w);
      if ops[0].FetchOp? {
        FetchShowsExactly(s, r, ops[0].limit, w, id);
      }
      ShownExactlyWhenItsTurnComes(Apply(s, r, ops[0]), r, ops[1..], Advance(s.table, r, ops[0], w), id);
    }
  }

  /** At some answered fetch before the last page the listing matches but lies at or before the cursor. */
  ghost predicate IsPassed(s: Session, r: Paging.Request, ops: seq<Op>, id: int)
    requires Valid(s.table)
    decreases |ops|
  {
    ops != [] && (
      || (IsAnswered(ops[0]) && !s.client.done && !IsAhead(s.table, r, s.client, id))
      || IsPassed(Apply(s, r, ops[0]), r, ops[1..], id))
  }

  /**
   A listing that matches at every fetch is skipped by a finished walk only when a write moved it at
   or before the cursor while it was waiting: until then it stays ahead, and the last page shows
   everything ahead.
   */
  lemma {:induction false} SkippedMeansPassed(s: Session, r: Paging.Request, ops: seq<Op>, w: Walk<Listing>, id: int)
    requires Valid(s.table) && Acceptable(r) && Linked(r, s.client, w) && !s.client.done
    requires MatchesThroughout(s, r, ops, id) && Run(s, r, ops).client.done
    ensures Lists(Run(s, r, ops).client.shown, ListingID, id) || IsPassed(s, r, ops, id)
    decreases |ops|
  {
    hide Lists, FetchPage, ApplyWrite, Linked, IsAhead, Matches;
    if ops == [] {
    } else {
      var next := Apply(s, r, ops[0]);
      ApplyIsAdvance(s, r, ops[0], w);
      if !next.client.done {
        SkippedMeansPassed(next, r, ops[1..], Advance(s.table, r, ops[0], w), id);
      } else if ops[0].FetchOp? {
        LastFetchShows(s, r, ops[0].limit, w, id);
        ScreenGrows(next, r, ops[1..]);
        ListedStays(next.client.shown, Run(s, r, ops).client.shown, id);
      }
    }
  }

  lemma ListedStays(shown: seq<Listing>, later: seq<Listing>, id: int)
    requires shown <= later
    ensures Lists(shown, ListingID, id) ==> Lists(later, ListingID, id)
  {
    if i :| 0 <= i < |shown| && ListingID(shown[i]) == id {
      assert ListingID(later[i]) == id;
    }
  }

  lemma LastFetchShows(s: Session, r: Paging.Request, limit: int, w: Walk<Listing>, id: int)
    requires Valid(s.table) && Acceptable(r) && Linked(r, s.client, w) && !s.client.done
    requires Apply(s, r, FetchOp(limit)).client.done
    ensures IsLimit(limit)
    ensures IsAhead(s.table, r, s.client, id) ==> Lists(Apply(s, r, FetchOp(limit)).client.shown, ListingID, id)
  {
    hide WalkStep, Coherent, ListPage, Matches, Resumes, Decode;
    if IsLimit(limit) {
      FetchIsWalkStep(s.table, r, s.client, w, limit);
      CandidatesSeparate(s.table, r);
      if IsAhead(s.table, r, s.client, id) {
        var l := s.table.rows[id];
        var request := RequestOf(s.table, r, FetchOp(limit));
        ResumePredicatesMatchKeys(r, s.client.cursor, l);
        assert l in Candidates(s.table, r);
        assert KeyFor(r)(l) == KeyOf(r, l);
        LastPageListsAll(w, request, KeyFor(r), l);
        var i :| 0 <= i < |WalkStep(w, request, KeyFor(r)).shown| && WalkStep(w, request, KeyFor(r)).shown[i] == l;
        assert ListingID(Apply(s, r, FetchOp(limit)).client.shown[i]) == id;
      }
    } else {
      RefusedFetchStays(s, r, limit);
    }
  }

  /** Both, for a walk from the first page: what it shows, and whether it shows it once, is decided fetch by fetch. */
  lemma WalkIsDecidedByTurns(t: Table, r: Paging.Request, ops: seq<Op>, id: int)
    requires Valid(t) && Acceptable(r)
    ensures var s := Session(t, FRESH);
      var shown := Run(s, r, ops).client.shown;
      && (Lists(shown, ListingID, id) <==> HasItsTurn(s, r, ops, id))
      && (Distinct(shown, ListingID) <==> NeverReshows(s, r, ops))
  {
    hide Run, HasItsTurn, NeverReshows, Linked;
    FreshIsLinked(r);
    ShownExactlyWhenItsTurnComes(Session(t, FRESH), r, ops, Start(), id);
    RepeatsExactlyWhenReshown(Session(t, FRESH), r, ops, Start());
  }
}
