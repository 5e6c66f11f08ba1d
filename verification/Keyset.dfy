/**
 Keyset ("cursor") pagination over an arbitrary strict order.

 A query is a set of candidate rows, an ORDER BY key and a LIMIT.  Every paginator of the
 system asks for one row more than the page holds, cuts the page, and resumes from the key of
 the last row it returned.  Nothing here mentions listings or conversations: a client's walk is
 a sequence of page requests, each answered from whatever the table holds at that moment.
 */
module Keyset {
  import opened Wrappers

  /** A sort position; descending columns are stored negated, and `id` breaks every tie. */
  datatype Key = Key(rank: int, time: int, id: int)

  predicate Precedes(a: Key, b: Key) {
    || a.rank < b.rank
    || (a.rank == b.rank && a.time < b.time)
    || (a.rank == b.rank && a.time == b.time && a.id < b.id)
  }

  /** The row comparison (a, b) < (c, d) of SQL. */
  predicate RowLess(a: int, b: int, c: int, d: int) { a < c || (a == c && b < d) }

  /** The resume predicate of a WHERE clause: everything, or strictly after the cursor. */
  predicate After(cursor: Option<Key>, k: Key) {
    cursor.None? || Precedes(cursor.value, k)
  }

  /** `ORDER BY key` is a total order on `rows`: no two rows share a sort position. */
  ghost predicate Separates<R(!new)>(rows: set<R>, key: R -> Key) {
    forall a, b | a in rows && b in rows && key(a) == key(b) :: a == b
  }

  ghost predicate Ascending<R(!new)>(rows: seq<R>, key: R -> Key) {
    forall i, j | 0 <= i < j < |rows| :: Precedes(key(rows[i]), key(rows[j]))
  }

  ghost function Elements<R(!new)>(rows: seq<R>): set<R> {
    set r | r in rows
  }

  lemma LeastExists<R(!new)>(rows: set<R>, key: R -> Key) returns (least: R)
    requires rows != {} && Separates(rows, key)
    ensures least in rows && forall r | r in rows && r != least :: Precedes(key(least), key(r))
  {
    var x :| x in rows;
    var rest := rows - {x};
    least := x;
    if rest != {} {
      var m := LeastExists(rest, key);
      assert key(x) != key(m);
      if Precedes(key(m), key(x)) {
        least := m;
      }
    }
  }

  ghost function Least<R(!new)>(rows: set<R>, key: R -> Key): (least: R)
    requires rows != {} && Separates(rows, key)
    ensures least in rows && forall r | r in rows && r != least :: Precedes(key(least), key(r))
  {
    LeastWitness(rows, key);
    var least :| least in rows && forall r | r in rows && r != least :: Precedes(key(least), key(r));
    least
  }

  lemma LeastWitness<R(!new)>(rows: set<R>, key: R -> Key)
    requires rows != {} && Separates(rows, key)
    ensures exists least :: least in rows && forall r | r in rows && r != least :: Precedes(key(least), key(r))
  {
    var least := LeastExists(rows, key);
  }

  /** SELECT ... ORDER BY key: the rows, each once, in ascending key order. */
  ghost function OrderBy<R(!new)>(rows: set<R>, key: R -> Key): (sorted: seq<R>)
    requires Separates(rows, key)
    ensures Ascending(sorted, key) && Elements(sorted) == rows && |sorted| == |rows|
  {
    if rows == {} then [] else
      var least := Least(rows, key);
      [least] + OrderBy(rows - {least}, key)
  }

  /** The head of an ascending listing is its least row; the tail lists the others. */
  lemma HeadIsLeast<R(!new)>(a: seq<R>, key: R -> Key)
    requires a != [] && Ascending(a, key)
    ensures Ascending(a[1..], key)
    ensures Elements(a[1..]) == Elements(a) - {a[0]}
    ensures a[0] in Elements(a) && forall r | r in Elements(a[1..]) :: Precedes(key(a[0]), key(r))
  {
    forall r | r in a && r != a[0] ensures r in a[1..] {
      var i :| 0 <= i < |a| && a[i] == r;
      assert a[1..][i - 1] == r;
    }
    forall r | r in a[1..] ensures r in a && Precedes(key(a[0]), key(r)) {
      var i :| 0 <= i < |a[1..]| && a[1..][i] == r;
      assert a[i + 1] == r;
    }
  }

  /** Sorting is determined by the set: an ascending listing of `rows` is the only one. */
  lemma {:induction false} AscendingIsUnique<R(!new)>(a: seq<R>, b: seq<R>, key: R -> Key)
    requires Ascending(a, key) && Ascending(b, key)
    requires Elements(a) == Elements(b)
    ensures a == b
  {
    if a != [] { HeadIsLeast(a, key); }
    if b != [] { HeadIsLeast(b, key); }
    if a != [] && b != [] {
      AscendingIsUnique(a[1..], b[1..], key);
      assert a == [a[0]] + a[1..] && b == [b[0]] + b[1..];
    }
  }

  lemma AscendingAppend<R(!new)>(a: seq<R>, b: seq<R>, key: R -> Key)
    requires Ascending(a, key) && Ascending(b, key)
    requires a != [] ==> forall r | r in b :: Precedes(key(a[|a| - 1]), key(r))
    ensures Ascending(a + b, key)
  {
    forall i, j | 0 <= i < j < |a + b| ensures Precedes(key((a + b)[i]), key((a + b)[j])) {
      if j < |a| {
      } else if i < |a| {
        assert (a + b)[j] == b[j - |a|];
        assert b[j - |a|] in b;
        assert i < |a| - 1 ==> Precedes(key(a[i]), key(a[|a| - 1]));
      } else {
        assert (a + b)[i] == b[i - |a|] && (a + b)[j] == b[j - |a|];
      }
    }
  }

  // ---- One page --------------------------------------------------------------------------------

  /** `next` is the key of the last row shown, present exactly when more rows were fetched. */
  datatype Page<R> = Page(items: seq<R>, next: Option<Key>)

  ghost function Resumed<R(!new)>(rows: set<R>, key: R -> Key, cursor: Option<Key>): set<R> {
    set r | r in rows && After(cursor, key(r))
  }

  ghost function Remaining<R(!new)>(rows: set<R>, key: R -> Key, cursor: Option<Key>): seq<R>
    requires Separates(rows, key)
  {
    OrderBy(Resumed(rows, key, cursor), key)
  }

  function Limit<R>(rows: seq<R>, limit: nat): seq<R> {
    if |rows| <= limit then rows else rows[..limit]
  }

  function CutPage<R>(rows: seq<R>, limit: nat, key: R -> Key): Page<R>
    requires limit >= 1
  {
    if |rows| <= limit then Page(rows, None)
    else Page(rows[..limit], Some(key(rows[limit - 1])))
  }

  ghost function PageAt<R(!new)>(rows: set<R>, key: R -> Key, cursor: Option<Key>, limit: nat): Page<R>
    requires Separates(rows, key) && limit >= 1
  {
    CutPage(Limit(Remaining(rows, key, cursor), limit + 1), limit, key)
  }

  lemma RemainingMembers<R(!new)>(rows: set<R>, key: R -> Key, cursor: Option<Key>, r: R)
    requires Separates(rows, key)
    ensures r in Remaining(rows, key, cursor) <==> r in rows && After(cursor, key(r))
  {
    assert r in Remaining(rows, key, cursor) <==> r in Elements(Remaining(rows, key, cursor));
  }

  /** In an ascending listing, the rows strictly after the j-th are the ones listed behind it. */
  lemma BehindIsAfter<R(!new)>(rest: seq<R>, key: R -> Key, j: nat, r: R)
    requires Ascending(rest, key) && 0 < j <= |rest|
    ensures r in rest[j..] <==> r in rest && Precedes(key(rest[j - 1]), key(r))
  {
    if r in rest {
      var i :| 0 <= i < |rest| && rest[i] == r;
      if i >= j { assert rest[j..][i - j] == r; }
    }
    if r in rest[j..] {
      var i :| 0 <= i < |rest[j..]| && rest[j..][i] == r;
      assert rest[i + j] == r;
    }
  }

  /** Resuming after the j-th remaining row leaves exactly the rows behind it. */
  lemma ResumeDropsPrefix<R(!new)>(rows: set<R>, key: R -> Key, cursor: Option<Key>, j: nat)
    requires Separates(rows, key)
    requires 0 < j <= |Remaining(rows, key, cursor)|
    ensures var rest := Remaining(rows, key, cursor);
      Remaining(rows, key, Some(key(rest[j - 1]))) == rest[j..]
  {
    var rest := Remaining(rows, key, cursor);
    var next := Some(key(rest[j - 1]));
    RemainingMembers(rows, key, cursor, rest[j - 1]);
    assert Elements(rest[j..]) == Resumed(rows, key, next) by {
      forall r ensures r in Resumed(rows, key, next) <==> r in rest[j..] {
        RemainingMembers(rows, key, cursor, r);
        BehindIsAfter(rest, key, j, r);
      }
    }
    SuffixIsAscending(rest, key, j);
    AscendingIsUnique(Remaining(rows, key, next), rest[j..], key);
  }

  lemma SuffixIsAscending<R(!new)>(rest: seq<R>, key: R -> Key, j: nat)
    requires Ascending(rest, key) && j <= |rest|
    ensures Ascending(rest[j..], key)
  {
  }

  lemma CutOfLimited<R(!new)>(rest: seq<R>, limit: nat, key: R -> Key)
    requires limit >= 1
    ensures CutPage(Limit(rest, limit + 1), limit, key)
      == Page(Limit(rest, limit), if |rest| <= limit then None else Some(key(rest[limit - 1])))
  {
    if |rest| > limit {
      assert Limit(rest, limit + 1)[..limit] == rest[..limit];
    }
  }

  /** A page is the first `limit` remaining rows, and its cursor resumes right behind them. */
  lemma PageSplitsRemaining<R(!new)>(rows: set<R>, key: R -> Key, cursor: Option<Key>, limit: nat)
    requires Separates(rows, key) && limit >= 1
    ensures var rest := Remaining(rows, key, cursor);
      var page := PageAt(rows, key, cursor, limit);
      && page.items == Limit(rest, limit)
      && (page.next.None? <==> |rest| <= limit)
      && (page.next.Some? ==>
            && page.next == Some(key(rest[limit - 1]))
            && Remaining(rows, key, page.next) == rest[limit..])
  {
    var rest := Remaining(rows, key, cursor);
    CutOfLimited(rest, limit, key);
    if |rest| > limit {
      ResumeDropsPrefix(rows, key, cursor, limit);
    }
  }

  lemma PageIsAhead<R(!new)>(rows: set<R>, key: R -> Key, cursor: Option<Key>, limit: nat)
    requires Separates(rows, key) && limit >= 1
    ensures var page := PageAt(rows, key, cursor, limit);
      && Ascending(page.items, key)
      && (forall r | r in page.items :: r in rows && After(cursor, key(r)))
      && (page.next.Some? ==> page.items != [] && page.next == Some(key(page.items[|page.items| - 1])))
  {
    PageSplitsRemaining(rows, key, cursor, limit);
    RemainingIsAhead(rows, key, cursor);
    LimitIsPrefix(Remaining(rows, key, cursor), limit, key);
  }

  lemma RemainingIsAhead<R(!new)>(rows: set<R>, key: R -> Key, cursor: Option<Key>)
    requires Separates(rows, key)
    ensures forall r | r in Remaining(rows, key, cursor) :: r in rows && After(cursor, key(r))
  {
    forall r | r in Remaining(rows, key, cursor) ensures r in rows && After(cursor, key(r)) {
      RemainingMembers(rows, key, cursor, r);
    }
  }

  lemma LimitIsPrefix<R(!new)>(rest: seq<R>, limit: nat, key: R -> Key)
    requires Ascending(rest, key)
    ensures Ascending(Limit(rest, limit), key)
    ensures forall r | r in Limit(rest, limit) :: r in rest
  {
  }

  // ---- A walk: follow the next cursor until it is absent ---------------------------------------

  /** One page request: the candidate rows at that moment, and the limit the client asked for. */
  datatype Request<R> = Request(rows: set<R>, limit: nat)

  datatype Walk<R> = Walk(cursor: Option<Key>, done: bool, shown: seq<R>)

  ghost predicate Answerable<R(!new)>(requests: seq<Request<R>>, key: R -> Key) {
    forall i | 0 <= i < |requests| :: Separates(requests[i].rows, key) && requests[i].limit >= 1
  }

  ghost function WalkStep<R(!new)>(walk: Walk<R>, request: Request<R>, key: R -> Key): Walk<R>
    requires Separates(request.rows, key) && request.limit >= 1
  {
    if walk.done then walk else
      var page := PageAt(request.rows, key, walk.cursor, request.limit);
      Walk(page.next, page.next.None?, walk.shown + page.items)
  }

  ghost function WalkFrom<R(!new)>(walk: Walk<R>, requests: seq<Request<R>>, key: R -> Key): Walk<R>
    requires Answerable(requests, key)
    decreases |requests|
  {
    if requests == [] then walk else
      WalkFrom(WalkStep(walk, requests[0], key), requests[1..], key)
  }

  ghost function Start<R(!new)>(): Walk<R> { Walk(None, false, []) }

  /** The cursor of an unfinished walk is the key of the last row it showed. */
  ghost predicate Coherent<R(!new)>(walk: Walk<R>, key: R -> Key) {
    && Ascending(walk.shown, key)
    && (!walk.done ==>
          walk.cursor == if walk.shown == [] then None else Some(key(walk.shown[|walk.shown| - 1])))
  }

  lemma StepStaysCoherent<R(!new)>(walk: Walk<R>, request: Request<R>, key: R -> Key)
    requires Separates(request.rows, key) && request.limit >= 1
    requires Coherent(walk, key)
    ensures Coherent(WalkStep(walk, request, key), key)
  {
    if !walk.done {
      PageIsAhead(request.rows, key, walk.cursor, request.limit);
      AscendingAppend(walk.shown, PageAt(request.rows, key, walk.cursor, request.limit).items, key);
    }
  }

  /**
   Whatever the table does between the requests, the rows of a walk come out in strictly
   ascending key order: a row can only be shown again under a later key.
   */
  lemma {:induction false} WalkIsAscending<R(!new)>(walk: Walk<R>, requests: seq<Request<R>>, key: R -> Key)
    requires Answerable(requests, key) && Coherent(walk, key)
    ensures Coherent(WalkFrom(walk, requests, key), key)
    decreases |requests|
  {
    if requests == [] {
    } else {
      StepStaysCoherent(walk, requests[0], key);
      WalkIsAscending(WalkStep(walk, requests[0], key), requests[1..], key);
    }
  }

  /** Position `k` is occupied by some candidate row at every request of the run. */
  ghost predicate AlwaysPresent<R(!new)>(requests: seq<Request<R>>, key: R -> Key, k: Key) {
    forall i | 0 <= i < |requests| :: exists r :: r in requests[i].rows && key(r) == k
  }

  ghost predicate Shown<R(!new)>(walk: Walk<R>, key: R -> Key, k: Key) {
    exists r :: r in walk.shown && key(r) == k
  }

  /**
   Whatever else is inserted, edited or removed meanwhile, a position that stays occupied is
   either already shown or still ahead of the cursor; so a finished walk has shown it.
   */
  lemma {:induction false} WalkMissesNothingStable<R(!new)>(
      walk: Walk<R>, requests: seq<Request<R>>, key: R -> Key, k: Key)
    requires Answerable(requests, key)
    requires AlwaysPresent(requests, key, k)
    requires Shown(walk, key, k) || (!walk.done && After(walk.cursor, k))
    ensures var end := WalkFrom(walk, requests, key);
      Shown(end, key, k) || (!end.done && After(end.cursor, k))
    decreases |requests|
  {
    if requests == [] {
    } else {
      var next := WalkStep(walk, requests[0], key);
      if Shown(walk, key, k) {
        var r :| r in walk.shown && key(r) == k;
        assert r in next.shown;
      } else {
        StepPassesOrShows(walk, requests[0], key, k);
      }
      assert forall i | 0 <= i < |requests[1..]| :: requests[1..][i] == requests[i + 1];
      WalkMissesNothingStable(next, requests[1..], key, k);
    }
  }

  lemma StepPassesOrShows<R(!new)>(walk: Walk<R>, request: Request<R>, key: R -> Key, k: Key)
    requires Separates(request.rows, key) && request.limit >= 1
    requires exists r :: r in request.rows && key(r) == k
    requires !walk.done && After(walk.cursor, k)
    ensures var next := WalkStep(walk, request, key);
      Shown(next, key, k) || (!next.done && After(next.cursor, k))
  {
    PageSplitsRemaining(request.rows, key, walk.cursor, request.limit);
    var rest := Remaining(request.rows, key, walk.cursor);
    var r :| r in request.rows && key(r) == k;
    assert r in Elements(rest);
    var i :| 0 <= i < |rest| && rest[i] == r;
    var next := WalkStep(walk, request, key);
    if i < request.limit {
      assert r == Limit(rest, request.limit)[i];
      assert r in next.shown;
    }
  }

  // ---- The same walk over a table nobody writes to ---------------------------------------------

  ghost predicate Unchanging<R(!new)>(requests: seq<Request<R>>, rows: set<R>) {
    forall i | 0 <= i < |requests| :: requests[i].rows == rows
  }

  /**
   Over a fixed table a walk yields the candidates in ORDER BY order, each once, whatever the
   limits are and however they change from page to page; every request but the last shows at
   least one row, so the walk ends.
   */
  lemma {:induction false} FixedWalkContinues<R(!new)>(
      walk: Walk<R>, requests: seq<Request<R>>, key: R -> Key, rows: set<R>)
    requires Answerable(requests, key) && Unchanging(requests, rows) && Separates(rows, key)
    requires !walk.done
    ensures var rest := Remaining(rows, key, walk.cursor);
      var end := WalkFrom(walk, requests, key);
      && (end.done ==> end.shown == walk.shown + rest)
      && (!end.done ==>
            && end.shown + Remaining(rows, key, end.cursor) == walk.shown + rest
            && |Remaining(rows, key, end.cursor)| + |requests| <= |rest|)
      && (|requests| > |rest| ==> end.done)
    decreases |requests|
  {
    if requests == [] {
    } else {
      var rest := Remaining(rows, key, walk.cursor);
      var next := WalkStep(walk, requests[0], key);
      FixedStep(walk, requests[0], key);
      if next.done {
        FinishedWalkStops(next, requests[1..], key);
      } else {
        FixedWalkContinues(next, requests[1..], key, rows);
      }
    }
  }

  lemma FixedStep<R(!new)>(walk: Walk<R>, request: Request<R>, key: R -> Key)
    requires Separates(request.rows, key) && request.limit >= 1 && !walk.done
    ensures var rest := Remaining(request.rows, key, walk.cursor);
      var next := WalkStep(walk, request, key);
      && (next.done ==> next.shown == walk.shown + rest)
      && (!next.done ==>
            && next.shown + Remaining(request.rows, key, next.cursor) == walk.shown + rest
            && |Remaining(request.rows, key, next.cursor)| < |rest|)
  {
    var rest := Remaining(request.rows, key, walk.cursor);
    PageSplitsRemaining(request.rows, key, walk.cursor, request.limit);
    if |rest| > request.limit {
      Rejoin(walk.shown, rest, request.limit);
    }
  }

  lemma Rejoin<R>(shown: seq<R>, rest: seq<R>, j: nat)
    requires j <= |rest|
    ensures shown + rest[..j] + rest[j..] == shown + rest
  {
  }

  lemma {:induction false} FinishedWalkStops<R(!new)>(walk: Walk<R>, requests: seq<Request<R>>, key: R -> Key)
    requires Answerable(requests, key) && walk.done
    ensures WalkFrom(walk, requests, key) == walk
    decreases |requests|
  {
    if requests == [] {
    } else {
      FinishedWalkStops(walk, requests[1..], key);
    }
  }

  // ---- Exactly what a page lists ---------------------------------------------------------------

  /** No two rows of a listing have the same identity. */
  predicate Distinct<R>(rows: seq<R>, id: R -> int) {
    forall i, j | 0 <= i < j < |rows| :: id(rows[i]) != id(rows[j])
  }

  predicate Lists<R>(rows: seq<R>, id: R -> int, x: int) {
    exists i :: 0 <= i < |rows| && id(rows[i]) == x
  }

  /** At any one moment a table holds a row once. */
  ghost predicate Identifies<R(!new)>(rows: set<R>, id: R -> int) {
    forall a, b | a in rows && b in rows && id(a) == id(b) :: a == b
  }

  /** The rows a query that resumes at `cursor` returns before `r`. */
  ghost function Between<R(!new)>(rows: set<R>, key: R -> Key, cursor: Option<Key>, r: R): set<R> {
    set q | q in rows && After(cursor, key(q)) && Precedes(key(q), key(r))
  }

  /** The turn of `r` comes on a page of `limit` rows. */
  ghost predicate HasTurn<R(!new)>(rows: set<R>, key: R -> Key, cursor: Option<Key>, limit: nat, r: R) {
    r in rows && After(cursor, key(r)) && |Between(rows, key, cursor, r)| < limit
  }

  lemma {:induction false} AscendingHasNoRepeats<R(!new)>(a: seq<R>, key: R -> Key)
    requires Ascending(a, key)
    ensures |Elements(a)| == |a|
  {
    if a == [] {
      assert Elements(a) == {};
    } else {
      HeadIsLeast(a, key);
      AscendingHasNoRepeats(a[1..], key);
      assert Elements(a) == Elements(a[1..]) + {a[0]};
      assert a[0] !in Elements(a[1..]);
    }
  }

  /** As many rows come before the j-th of an ascending listing as its index says. */
  lemma RankIsIndex<R(!new)>(rows: set<R>, key: R -> Key, cursor: Option<Key>, j: nat)
    requires Separates(rows, key) && j < |Remaining(rows, key, cursor)|
    ensures |Between(rows, key, cursor, Remaining(rows, key, cursor)[j])| == j
  {
    var rest := Remaining(rows, key, cursor);
    assert Elements(rest[..j]) == Between(rows, key, cursor, rest[j]) by {
      forall q ensures q in rest[..j] <==> q in Between(rows, key, cursor, rest[j]) {
        RemainingMembers(rows, key, cursor, q);
        BeforeIsPrefix(rest, key, j, q);
      }
    }
    assert Ascending(rest[..j], key);
    AscendingHasNoRepeats(rest[..j], key);
  }

  lemma BeforeIsPrefix<R(!new)>(rest: seq<R>, key: R -> Key, j: nat, q: R)
    requires Ascending(rest, key) && j < |rest|
    ensures q in rest[..j] <==> q in rest && Precedes(key(q), key(rest[j]))
  {
    if q in rest[..j] {
      var i :| 0 <= i < j && rest[..j][i] == q;
      assert rest[i] == q;
    }
    if q in rest && Precedes(key(q), key(rest[j])) {
      var i :| 0 <= i < |rest| && rest[i] == q;
      assert i > j ==> Precedes(key(rest[j]), key(rest[i]));
      assert rest[..j][i] == q;
    }
  }

  /** A page lists a row exactly when the row is after the cursor and fewer rows than the limit come before it. */
  lemma PageListsExactly<R(!new)>(rows: set<R>, key: R -> Key, cursor: Option<Key>, limit: nat, r: R)
    requires Separates(rows, key) && limit >= 1
    ensures r in PageAt(rows, key, cursor, limit).items <==> HasTurn(rows, key, cursor, limit, r)
  {
    hide PageAt;
    var rest := Remaining(rows, key, cursor);
    PageSplitsRemaining(rows, key, cursor, limit);
    RemainingMembers(rows, key, cursor, r);
    if r in rest {
      var j :| 0 <= j < |rest| && rest[j] == r;
      RankIsIndex(rows, key, cursor, j);
      OnlyOnce(rest, key, j, limit);
    }
  }

  lemma OnlyOnce<R(!new)>(rest: seq<R>, key: R -> Key, j: nat, limit: nat)
    requires Ascending(rest, key) && j < |rest|
    ensures rest[j] in Limit(rest, limit) <==> j < limit
  {
    if j < limit {
      assert Limit(rest, limit)[j] == rest[j];
    } else {
      forall i | 0 <= i < |Limit(rest, limit)| ensures Limit(rest, limit)[i] != rest[j] {
        assert Precedes(key(rest[i]), key(rest[j]));
      }
    }
  }

  /** The next request lists the row with identity `x`. */
  ghost predicate WillList<R(!new)>(walk: Walk<R>, request: Request<R>, key: R -> Key, id: R -> int, x: int) {
    !walk.done && exists r :: id(r) == x && HasTurn(request.rows, key, walk.cursor, request.limit, r)
  }

  ghost predicate WillRepeat<R(!new)>(walk: Walk<R>, request: Request<R>, key: R -> Key, id: R -> int) {
    exists i :: 0 <= i < |walk.shown| && WillList(walk, request, key, id, id(walk.shown[i]))
  }

  lemma StepListsExactly<R(!new)>(walk: Walk<R>, request: Request<R>, key: R -> Key, id: R -> int, x: int)
    requires Separates(request.rows, key) && request.limit >= 1
    ensures Lists(WalkStep(walk, request, key).shown, id, x)
      <==> Lists(walk.shown, id, x) || WillList(walk, request, key, id, x)
  {
    hide PageAt, HasTurn;
    if !walk.done {
      var items := PageAt(request.rows, key, walk.cursor, request.limit).items;
      forall r ensures r in items <==> HasTurn(request.rows, key, walk.cursor, request.limit, r) {
        PageListsExactly(request.rows, key, walk.cursor, request.limit, r);
      }
      ListsConcat(walk.shown, items, id, x);
      if WillList(walk, request, key, id, x) {
        var r :| id(r) == x && HasTurn(request.rows, key, walk.cursor, request.limit, r);
        var i :| 0 <= i < |items| && items[i] == r;
      }
      assert forall i | 0 <= i < |items| :: items[i] in items;
    }
  }

  lemma ListsConcat<R>(a: seq<R>, b: seq<R>, id: R -> int, x: int)
    ensures Lists(a + b, id, x) <==> Lists(a, id, x) || Lists(b, id, x)
  {
    if i :| 0 <= i < |a| && id(a[i]) == x {
      assert id((a + b)[i]) == x;
    }
    if i :| 0 <= i < |b| && id(b[i]) == x {
      assert id((a + b)[|a| + i]) == x;
    }
    if i :| 0 <= i < |a + b| && id((a + b)[i]) == x {
      assert if i < |a| then id(a[i]) == x else id(b[i - |a|]) == x;
    }
  }

  lemma DistinctConcat<R>(a: seq<R>, b: seq<R>, id: R -> int)
    ensures Distinct(a + b, id)
      <==> Distinct(a, id) && Distinct(b, id) && forall i | 0 <= i < |a| :: !Lists(b, id, id(a[i]))
  {
    if Distinct(a + b, id) {
      assert forall i | 0 <= i < |a| :: (a + b)[i] == a[i];
      assert forall j | 0 <= j < |b| :: (a + b)[|a| + j] == b[j];
    }
  }

  lemma PageIsDistinct<R(!new)>(rows: set<R>, key: R -> Key, cursor: Option<Key>, limit: nat, id: R -> int)
    requires Separates(rows, key) && limit >= 1 && Identifies(rows, id)
    ensures Distinct(PageAt(rows, key, cursor, limit).items, id)
  {
    var items := PageAt(rows, key, cursor, limit).items;
    PageIsAhead(rows, key, cursor, limit);
    hide PageAt;
    forall i, j | 0 <= i < j < |items| ensures id(items[i]) != id(items[j]) {
      assert Precedes(key(items[i]), key(items[j]));
      assert items[i] in items && items[j] in items;
    }
  }

  /** One more page keeps the listing free of repeats exactly when no row already shown has its turn on it. */
  lemma StepRepeatsExactly<R(!new)>(walk: Walk<R>, request: Request<R>, key: R -> Key, id: R -> int)
    requires Separates(request.rows, key) && request.limit >= 1 && Identifies(request.rows, id)
    requires Distinct(walk.shown, id)
    ensures Distinct(WalkStep(walk, request, key).shown, id) <==> !WillRepeat(walk, request, key, id)
  {
    hide PageAt, HasTurn;
    if !walk.done {
      var items := PageAt(request.rows, key, walk.cursor, request.limit).items;
      PageIsDistinct(request.rows, key, walk.cursor, request.limit, id);
      DistinctConcat(walk.shown, items, id);
      forall i | 0 <= i < |walk.shown|
        ensures Lists(items, id, id(walk.shown[i])) <==> WillList(walk, request, key, id, id(walk.shown[i]))
      {
        var unshown := walk.(shown := []);
        StepListsExactly(unshown, request, key, id, id(walk.shown[i]));
        assert WalkStep(unshown, request, key).shown == items;
      }
    }
  }

  /** The page that carries no cursor lists every row that was still ahead. */
  lemma LastPageListsAll<R(!new)>(walk: Walk<R>, request: Request<R>, key: R -> Key, r: R)
    requires Separates(request.rows, key) && request.limit >= 1 && !walk.done
    requires WalkStep(walk, request, key).done && r in request.rows && After(walk.cursor, key(r))
    ensures r in WalkStep(walk, request, key).shown
  {
    PageSplitsRemaining(request.rows, key, walk.cursor, request.limit);
    RemainingMembers(request.rows, key, walk.cursor, r);
  }

  /** The first page of one from a table of two rows. */
  lemma FirstOfTwo<R(!new)>(a: R, b: R, key: R -> Key)
    requires Precedes(key(a), key(b)) && Separates({a, b}, key)
    ensures WalkStep(Start(), Request({a, b}, 1), key) == Walk(Some(key(a)), false, [a])
  {
    assert Resumed({a, b}, key, None) == {a, b};
    assert Elements([a, b]) == {a, b};
    AscendingIsUnique(Remaining({a, b}, key, None), [a, b], key);
    PageSplitsRemaining({a, b}, key, None, 1);
  }
}
