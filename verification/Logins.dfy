/** Logging in: the retry loop that allocates a handle while other transactions commit in between. */
module Logins {
  import opened Sets
  import opened Wrappers
  import opened Handles
  import opened Accounts

  const MAX_HANDLE_ATTEMPTS := 1000

  /** What others commit before an attempt's lookup, and between its lookup and its writes. */
  datatype Interference = Interference(before: seq<Tx>, during: seq<Tx>)

  function Around(schedule: seq<Interference>, attempt: nat): Interference {
    if 1 <= attempt <= |schedule| then schedule[attempt - 1] else Interference([], [])
  }

  predicate IsRetryable(e: AuthError) { e.HandleTaken? || e.DiscordIDTaken? }

  ghost function AttemptAmid(st: State, l: Login, handle: string, others: Interference)
    : (State, Result<Account, AuthError>)
  {
    var read := Run(st, others.before);
    LoginAttempt(Run(read, others.during), Lookup(read, l.identity.id), l, handle)
  }

  /** The loop from `attempt` on: a unique-key conflict on handle or Discord id means try the next candidate. */
  ghost function LoginFrom(st: State, l: Login, base: string, attempt: nat, schedule: seq<Interference>)
    : (State, Result<Account, AuthError>)
    decreases MAX_HANDLE_ATTEMPTS + 1 - attempt
  {
    if attempt > MAX_HANDLE_ATTEMPTS then (st, Failure(HandlesExhausted))
    else
      var (next, result) := AttemptAmid(st, l, HandleCandidate(base, attempt), Around(schedule, attempt));
      if result.Failure? && IsRetryable(result.error) then LoginFrom(next, l, base, attempt + 1, schedule)
      else (next, result)
  }

  // ---- The loop only takes transactions --------------------------------------------------------

  lemma AttemptAmidKeeps(st: State, l: Login, handle: string, others: Interference)
    requires Consistent(st)
    ensures var next := AttemptAmid(st, l, handle, others).0; Consistent(next) && KeepsIdentities(st, next)
  {
    hide Consistent, LoginAttempt, Run;
    var read := Run(st, others.before);
    EveryRunKeepsHandles(st, others.before);
    EveryRunKeepsHandles(read, others.during);
    AttemptKeeps(Run(read, others.during), Lookup(read, l.identity.id), l, handle);
  }

  /** Whatever commits in between, the whole login keeps handles canonical, distinct and unchanged. */
  lemma {:induction false} LoginKeeps(st: State, l: Login, base: string, attempt: nat, schedule: seq<Interference>)
    requires Consistent(st)
    ensures var end := LoginFrom(st, l, base, attempt, schedule).0; Consistent(end) && KeepsIdentities(st, end)
    decreases MAX_HANDLE_ATTEMPTS + 1 - attempt
  {
    hide Consistent, AttemptAmid, HandleCandidate;
    if attempt <= MAX_HANDLE_ATTEMPTS {
      var (next, result) := AttemptAmid(st, l, HandleCandidate(base, attempt), Around(schedule, attempt));
      AttemptAmidKeeps(st, l, HandleCandidate(base, attempt), Around(schedule, attempt));
      if result.Failure? && IsRetryable(result.error) {
        LoginKeeps(next, l, base, attempt + 1, schedule);
      }
    }
  }

  // ---- What a login stores ---------------------------------------------------------------------

  /** A successful login has stored the user and opened the session, and replaced the previous one. */
  ghost predicate LoggedIn(end: State, l: Login, account: Account) {
    && account.id in end.accounts && end.accounts[account.id] == account
    && account.discordID == l.identity.id && MatchesIdentity(account, l)
    && l.token in end.sessions
    && end.sessions[l.token] == Session(account.id, l.now, l.now + SESSION_LIFETIME, l.now)
    && (l.previous.Some? && l.previous.value != l.token ==> l.previous.value !in end.sessions)
  }

  lemma LookupIsStored(st: State, discordID: string)
    requires Consistent(st)
    ensures var found := Lookup(st, discordID);
      found.Some? ==>
        && found.value.id in st.accounts && st.accounts[found.value.id] == found.value
        && found.value.discordID == discordID
  {
    var found := Lookup(st, discordID);
    if found.Some? {
      var id :| id in st.accounts && st.accounts[id] == found.value && found.value.discordID == discordID;
      assert AccountOK(st, id);
    }
  }

  lemma AttemptLogsIn(st: State, l: Login, handle: string, others: Interference)
    requires Consistent(st) && AttemptAmid(st, l, handle, others).1.Success?
    ensures var (end, account) := AttemptAmid(st, l, handle, others); LoggedIn(end, l, account.value)
  {
    hide Consistent, Run;
    var read := Run(st, others.before);
    EveryRunKeepsHandles(st, others.before);
    EveryRunKeepsHandles(read, others.during);
    LookupIsStored(read, l.identity.id);
    LoginOpensSession(Run(read, others.during), Lookup(read, l.identity.id), l, handle);
  }

  lemma {:induction false} LoginStores(st: State, l: Login, base: string, attempt: nat, schedule: seq<Interference>)
    requires Consistent(st) && LoginFrom(st, l, base, attempt, schedule).1.Success?
    ensures var (end, account) := LoginFrom(st, l, base, attempt, schedule); LoggedIn(end, l, account.value)
    decreases MAX_HANDLE_ATTEMPTS + 1 - attempt
  {
    hide Consistent, AttemptAmid, HandleCandidate, LoggedIn;
    var (next, result) := AttemptAmid(st, l, HandleCandidate(base, attempt), Around(schedule, attempt));
    AttemptAmidKeeps(st, l, HandleCandidate(base, attempt), Around(schedule, attempt));
    if result.Failure? {
      LoginStores(next, l, base, attempt + 1, schedule);
    } else {
      AttemptLogsIn(st, l, HandleCandidate(base, attempt), Around(schedule, attempt));
    }
  }

  /**
   A login that succeeds leaves the user stored under a canonical handle that is nobody else's; a
   user who was there before keeps the handle they had, and a new one gets a handle nobody had.
   */
  lemma LoginStoresOwnHandle(st: State, l: Login, base: string, schedule: seq<Interference>)
    requires Consistent(st) && LoginFrom(st, l, base, 1, schedule).1.Success?
    ensures var (end, account) := LoginFrom(st, l, base, 1, schedule);
      && LoggedIn(end, l, account.value)
      && IsCanonicalHandle(account.value.handle)
      && (forall id | id in end.accounts && id != account.value.id :: end.accounts[id].handle != account.value.handle)
      && (account.value.id in st.accounts ==> account.value.handle == st.accounts[account.value.id].handle)
      && (account.value.id !in st.accounts ==> account.value.handle !in HandlesOf(st))
  {
    hide LoginFrom, IsCanonicalHandle;
    LoginStores(st, l, base, 1, schedule);
    LoginKeeps(st, l, base, 1, schedule);
    var (end, account) := LoginFrom(st, l, base, 1, schedule);
    assert AccountOK(end, account.value.id);
  }

  /** A lost race for the handle or for the Discord user is tried again: no login ends in a conflict. */
  lemma {:induction false} NoLoginEndsInConflict(
      st: State, l: Login, base: string, attempt: nat, schedule: seq<Interference>)
    ensures var result := LoginFrom(st, l, base, attempt, schedule).1;
      result != Failure(HandleTaken) && result != Failure(DiscordIDTaken)
    decreases MAX_HANDLE_ATTEMPTS + 1 - attempt
  {
    hide AttemptAmid, HandleCandidate;
    if attempt <= MAX_HANDLE_ATTEMPTS {
      var (next, result) := AttemptAmid(st, l, HandleCandidate(base, attempt), Around(schedule, attempt));
      if result.Failure? && IsRetryable(result.error) {
        NoLoginEndsInConflict(next, l, base, attempt + 1, schedule);
      }
    }
  }

  // ---- When the loop gives up ------------------------------------------------------------------

  lemma HandlesStay(st: State, next: State)
    requires KeepsIdentities(st, next)
    ensures HandlesOf(st) <= HandlesOf(next)
    ensures forall d :: HasDiscordID(st, d) ==> HasDiscordID(next, d)
  {
    forall d | HasDiscordID(st, d) ensures HasDiscordID(next, d) {
      var id :| id in st.accounts && st.accounts[id].discordID == d;
      assert next.accounts[id].discordID == d;
    }
  }

  /** Why an attempt is repeated: its candidate is taken, or a racing login stored the same Discord user. */
  lemma RetriedMeansTaken(st: State, l: Login, handle: string, others: Interference)
    requires Consistent(st)
    ensures var (next, result) := AttemptAmid(st, l, handle, others);
      && (result == Failure(HandleTaken) ==> handle in HandlesOf(next))
      && (result == Failure(DiscordIDTaken) ==> HasDiscordID(next, l.identity.id))
      && (HasDiscordID(st, l.identity.id) ==> !(result.Failure? && IsRetryable(result.error)))
      && result != Failure(HandlesExhausted)
  {
    hide Consistent, Run, IsCanonicalHandle, IsStorable;
    EveryRunKeepsHandles(st, others.before);
    HandlesStay(st, Run(st, others.before));
  }

  /** Every attempt of an exhausted loop hit a taken handle; only the very last may have hit a racing login instead. */
  lemma {:induction false} ExhaustedMeansTaken(
      st: State, l: Login, base: string, attempt: nat, schedule: seq<Interference>)
    requires Consistent(st) && 1 <= attempt
    requires LoginFrom(st, l, base, attempt, schedule).1 == Failure(HandlesExhausted)
    ensures var end := LoginFrom(st, l, base, attempt, schedule).0;
      forall k | attempt <= k <= MAX_HANDLE_ATTEMPTS ::
        HandleCandidate(base, k) in HandlesOf(end)
        || (k == MAX_HANDLE_ATTEMPTS && HasDiscordID(end, l.identity.id))
    decreases MAX_HANDLE_ATTEMPTS + 1 - attempt
  {
    hide Consistent, AttemptAmid, HandleCandidate, HandlesOf, HasDiscordID, KeepsIdentities;
    if attempt <= MAX_HANDLE_ATTEMPTS {
      var others := Around(schedule, attempt);
      var (next, result) := AttemptAmid(st, l, HandleCandidate(base, attempt), others);
      AttemptAmidKeeps(st, l, HandleCandidate(base, attempt), others);
      RetriedMeansTaken(st, l, HandleCandidate(base, attempt), others);
      ExhaustedMeansTaken(next, l, base, attempt + 1, schedule);
      LoginKeeps(next, l, base, attempt + 1, schedule);
      var end := LoginFrom(next, l, base, attempt + 1, schedule).0;
      HandlesStay(next, end);
      if result == Failure(DiscordIDTaken) && attempt < MAX_HANDLE_ATTEMPTS {
        KnownUserIsNotRetried(next, l, base, attempt + 1, schedule);
      }
    }
  }

  lemma KnownUserIsNotRetried(st: State, l: Login, base: string, attempt: nat, schedule: seq<Interference>)
    requires Consistent(st) && attempt <= MAX_HANDLE_ATTEMPTS && HasDiscordID(st, l.identity.id)
    ensures LoginFrom(st, l, base, attempt, schedule).1 != Failure(HandlesExhausted)
  {
    hide Consistent, AttemptAmid, HandleCandidate, HasDiscordID;
    RetriedMeansTaken(st, l, HandleCandidate(base, attempt), Around(schedule, attempt));
  }

  /** A racing login that stored this Discord user since the lookup took one more handle than those taken before. */
  lemma RaceTakesAnotherHandle(st: State, l: Login, handle: string, others: Interference, taken: set<string>)
    requires Consistent(st) && taken <= HandlesOf(st)
    requires AttemptAmid(st, l, handle, others).1 == Failure(DiscordIDTaken)
    ensures |HandlesOf(AttemptAmid(st, l, handle, others).0)| >= |taken| + 1
  {
    hide Run, IsCanonicalHandle, IsStorable;
    var read := Run(st, others.before);
    var now := Run(read, others.during);
    EveryRunKeepsHandles(st, others.before);
    EveryRunKeepsHandles(read, others.during);
    var id :| id in now.accounts && now.accounts[id].discordID == l.identity.id;
    var raced := now.accounts[id].handle;
    assert id !in read.accounts;
    assert raced !in HandlesOf(read);
    HandlesStay(st, read);
    HandlesStay(read, now);
    assert HandlesOf(AttemptAmid(st, l, handle, others).0) == HandlesOf(now);
    SubsetSize(taken + {raced}, HandlesOf(now));
  }

  /** Handles 2..attempt - 1 are taken so far; every way to go on and give up takes 999 of them. */
  lemma {:induction false} GivingUpTakesManyHandles(
      st: State, l: Login, base: string, attempt: nat, schedule: seq<Interference>)
    requires Consistent(st) && 1 <= attempt <= MAX_HANDLE_ATTEMPTS + 1
    requires forall k | 2 <= k < attempt :: HandleCandidate(base, k) in HandlesOf(st)
    requires LoginFrom(st, l, base, attempt, schedule).1 == Failure(HandlesExhausted)
    ensures |HandlesOf(LoginFrom(st, l, base, attempt, schedule).0)| >= MAX_HANDLE_ATTEMPTS - 1
    decreases MAX_HANDLE_ATTEMPTS + 1 - attempt
  {
    hide Consistent, AttemptAmid, HandleCandidate, HandlesOf, HasDiscordID, KeepsIdentities;
    if attempt > MAX_HANDLE_ATTEMPTS {
      ExhaustionNeedsManyHandles(base, MAX_HANDLE_ATTEMPTS, HandlesOf(st));
    } else {
      var handle, others := HandleCandidate(base, attempt), Around(schedule, attempt);
      var (next, result) := AttemptAmid(st, l, handle, others);
      AttemptAmidKeeps(st, l, handle, others);
      RetriedMeansTaken(st, l, handle, others);
      HandlesStay(st, next);
      if result == Failure(HandleTaken) {
        GivingUpTakesManyHandles(next, l, base, attempt + 1, schedule);
      } else if attempt == MAX_HANDLE_ATTEMPTS {
        CandidatesCount(base, attempt - 1);
        RaceTakesAnotherHandle(st, l, handle, others, Candidates(base, attempt - 1));
      } else {
        KnownUserIsNotRetried(next, l, base, attempt + 1, schedule);
      }
    }
  }

  /** Whatever else commits during the attempts, a login gives up only when at least 999 handles are taken. */
  lemma ExhaustionMeansManyHandles(st: State, l: Login, base: string, schedule: seq<Interference>)
    requires Consistent(st) && LoginFrom(st, l, base, 1, schedule).1 == Failure(HandlesExhausted)
    ensures |HandlesOf(LoginFrom(st, l, base, 1, schedule).0)| >= 999
  {
    hide Consistent, LoginFrom, HandleCandidate, HandlesOf;
    GivingUpTakesManyHandles(st, l, base, 1, schedule);
  }

  // ---- An undisturbed login --------------------------------------------------------------------

  /** The first attempt whose candidate is free. */
  function FirstFree(base: string, attempt: nat, taken: set<string>): (k: Option<nat>)
    ensures k.Some? ==> attempt <= k.value <= MAX_HANDLE_ATTEMPTS
    decreases MAX_HANDLE_ATTEMPTS + 1 - attempt
  {
    if attempt > MAX_HANDLE_ATTEMPTS then None
    else if HandleCandidate(base, attempt) !in taken then Some(attempt)
    else FirstFree(base, attempt + 1, taken)
  }

  predicate IsFresh(st: State, l: Login) { l.token !in st.sessions }

  /** When nothing commits in between, a new user gets the first free candidate, or none is free. */
  lemma {:induction false} UndisturbedLoginTakesFirstFree(st: State, l: Login, base: string, attempt: nat)
    requires Consistent(st) && IsStorable(l.identity) && IsFresh(st, l) && !HasDiscordID(st, l.identity.id)
    requires IsCanonicalHandle(base) && 1 <= attempt
    ensures var (end, result) := LoginFrom(st, l, base, attempt, []);
      match FirstFree(base, attempt, HandlesOf(st))
      case None => result == Failure(HandlesExhausted) && end.accounts == st.accounts && end.sessions == st.sessions
      case Some(k) =>
        && result.Success? && result.value.handle == HandleCandidate(base, k)
        && result.value.id !in st.accounts && end.accounts == st.accounts[result.value.id := result.value]
    decreases MAX_HANDLE_ATTEMPTS + 1 - attempt
  {
    hide Consistent, IsStorable, HandleCandidate, HandlesOf, IsCanonicalHandle;
    if attempt <= MAX_HANDLE_ATTEMPTS {
      CandidateIsCanonical(base, attempt);
      var handle := HandleCandidate(base, attempt);
      UndisturbedAttempt(st, l, handle);
      if handle in HandlesOf(st) {
        var next := st.(nextID := st.nextID + 1);
        AttemptAmidKeeps(st, l, handle, Interference([], []));
        UndisturbedLoginTakesFirstFree(next, l, base, attempt + 1);
      }
    }
  }

  lemma UndisturbedAttempt(st: State, l: Login, handle: string)
    requires Consistent(st) && IsStorable(l.identity) && IsFresh(st, l) && !HasDiscordID(st, l.identity.id)
    requires IsCanonicalHandle(handle)
    ensures var (next, result) := AttemptAmid(st, l, handle, Interference([], []));
      var same := st.(nextID := st.nextID + 1);
      && HandlesOf(same) == HandlesOf(st) && !HasDiscordID(same, l.identity.id)
      && (handle in HandlesOf(st) ==> next == same && result == Failure(HandleTaken))
      && (handle !in HandlesOf(st) ==>
            && result.Success? && result.value.handle == handle && result.value.id == st.nextID
            && st.nextID !in st.accounts && next.accounts == st.accounts[st.nextID := result.value])
  {
    hide IsStorable, IsCanonicalHandle;
    assert st.nextID in st.accounts ==> AccountOK(st, st.nextID);
  }

  // ---- The service -----------------------------------------------------------------------------

  /** LoginWithDiscord after Discord has answered; a previous token that does not parse is None. */
  ghost function LoginWithDiscord(
      st: State, lower: char -> char, identity: Identity, token: Hash, previous: Option<Hash>, now: int,
      schedule: seq<Interference>): (State, Result<Account, AuthError>)
  {
    if !ValidIdentity(identity) then (st, Failure(InvalidIdentity))
    else LoginFrom(st, Login(identity, token, previous, now), NormalizedHandle(lower, identity.username), 1, schedule)
  }

  /** A valid new user whom nothing disturbs is refused exactly when all 1000 candidates are taken. */
  lemma NewUserLogsIn(st: State, lower: char -> char, identity: Identity, token: Hash, previous: Option<Hash>, now: int)
    requires Consistent(st) && ValidIdentity(identity) && token !in st.sessions && !HasDiscordID(st, identity.id)
    ensures var base := NormalizedHandle(lower, identity.username);
      var (end, result) := LoginWithDiscord(st, lower, identity, token, previous, now, []);
      && (result.Failure? <==> forall k | 1 <= k <= 1000 :: HandleCandidate(base, k) in HandlesOf(st))
      && (result.Failure? ==> result.error == HandlesExhausted && |HandlesOf(st)| >= 999)
      && (result.Success? ==>
            && result.value.handle !in HandlesOf(st)
            && (exists k :: 1 <= k <= 1000 && result.value.handle == HandleCandidate(base, k)
                            && forall j | 1 <= j < k :: HandleCandidate(base, j) in HandlesOf(st))
            && LoggedIn(end, Login(identity, token, previous, now), result.value))
  {
    hide HandleCandidate, HandlesOf, Consistent, NormalizedHandle, LoginFrom;
    hide IsCanonicalHandle, IsStorable, ValidIdentity;
    var base := NormalizedHandle(lower, identity.username);
    var l := Login(identity, token, previous, now);
    NormalizedIsCanonical(lower, identity.username);
    ValidIdentityIsStorable(identity);
    UndisturbedLoginTakesFirstFree(st, l, base, 1);
    FirstFreeIsFirst(base, 1, HandlesOf(st));
    var (end, result) := LoginFrom(st, l, base, 1, []);
    if result.Success? {
      LoginStores(st, l, base, 1, []);
      assert result.value.handle == HandleCandidate(base, FirstFree(base, 1, HandlesOf(st)).value);
    } else {
      ExhaustionNeedsManyHandles(base, MAX_HANDLE_ATTEMPTS, HandlesOf(st));
    }
  }

  lemma {:induction false} FirstFreeIsFirst(base: string, attempt: nat, taken: set<string>)
    ensures var k := FirstFree(base, attempt, taken);
      && (k.None? <==> forall j | attempt <= j <= MAX_HANDLE_ATTEMPTS :: HandleCandidate(base, j) in taken)
      && (k.Some? ==> HandleCandidate(base, k.value) !in taken
                      && forall j | attempt <= j < k.value :: HandleCandidate(base, j) in taken)
    decreases MAX_HANDLE_ATTEMPTS + 1 - attempt
  {
    hide HandleCandidate;
    if attempt <= MAX_HANDLE_ATTEMPTS {
      FirstFreeIsFirst(base, attempt + 1, taken);
    }
  }

  // ---- The account a login returns -------------------------------------------------------------

  /** Nobody disables the account between the lookup and the writes of any attempt. */
  ghost predicate NeverDisabledDuring(schedule: seq<Interference>, id: int) {
    forall i | 0 <= i < |schedule| :: NeverDisables(schedule[i].during, id)
  }

  lemma AttemptReturnsEnabled(st: State, l: Login, handle: string, others: Interference)
    requires Consistent(st) && AttemptAmid(st, l, handle, others).1.Success?
    requires NeverDisables(others.during, AttemptAmid(st, l, handle, others).1.value.id)
    ensures !AttemptAmid(st, l, handle, others).1.value.disabled
  {
    hide Consistent, Run, MatchesIdentity;
    var read := Run(st, others.before);
    var now := Run(read, others.during);
    var seen := Lookup(read, l.identity.id);
    EveryRunKeepsHandles(st, others.before);
    EveryRunKeepsHandles(read, others.during);
    LookupIsStored(read, l.identity.id);
    AttemptStoresAccount(now, seen, l, handle);
    hide LoginAttempt;
    if seen.Some? {
      SeenIsEnabled(now, seen, l, handle);
      StaysEnabled(read, others.during, seen.value.id);
    }
  }

  lemma SeenIsEnabled(st: State, seen: Option<Account>, l: Login, handle: string)
    requires LoginAttempt(st, seen, l, handle).1.Success? && seen.Some?
    ensures !seen.value.disabled
  {
  }

  /** A login never hands out a token for a disabled account, unless it is disabled while it logs in. */
  lemma {:induction false} LoginReturnsEnabled(
      st: State, l: Login, base: string, attempt: nat, schedule: seq<Interference>)
    requires Consistent(st) && LoginFrom(st, l, base, attempt, schedule).1.Success?
    requires NeverDisabledDuring(schedule, LoginFrom(st, l, base, attempt, schedule).1.value.id)
    ensures !LoginFrom(st, l, base, attempt, schedule).1.value.disabled
    decreases MAX_HANDLE_ATTEMPTS + 1 - attempt
  {
    hide Consistent, AttemptAmid, HandleCandidate, NeverDisables;
    var others := Around(schedule, attempt);
    var (next, result) := AttemptAmid(st, l, HandleCandidate(base, attempt), others);
    AttemptAmidKeeps(st, l, HandleCandidate(base, attempt), others);
    if result.Failure? {
      LoginReturnsEnabled(next, l, base, attempt + 1, schedule);
    } else {
      NobodyDisables(schedule, attempt, result.value.id);
      AttemptReturnsEnabled(st, l, HandleCandidate(base, attempt), others);
    }
  }

  lemma NobodyDisables(schedule: seq<Interference>, attempt: nat, id: int)
    requires NeverDisabledDuring(schedule, id)
    ensures NeverDisables(Around(schedule, attempt).during, id)
  {
  }

  /**
   Undisturbed, a user who was there before is refused exactly when disabled; otherwise the account
   returned is theirs, with the handle and profile it had.
   */
  lemma KnownUserLogsIn(
      st: State, lower: char -> char, identity: Identity, token: Hash, previous: Option<Hash>, now: int, id: int)
    requires Consistent(st) && IdentityFits(identity) && token !in st.sessions
    requires id in st.accounts && st.accounts[id].discordID == identity.id
    ensures var result := LoginWithDiscord(st, lower, identity, token, previous, now, []).1;
      var before := st.accounts[id];
      if before.disabled then result == Failure(UserDisabled)
      else
        && result.Success? && result.value.id == id && !result.value.disabled
        && result.value.handle == before.handle && result.value.discordID == identity.id
        && result.value.location == before.location && result.value.bio == before.bio
  {
    hide HandleCandidate, NormalizedHandle, IsCanonicalHandle, IsStorable, ValidIdentity, IdentityFits;
    var l, base := Login(identity, token, previous, now), NormalizedHandle(lower, identity.username);
    IdentityRule(identity);
    OnlyAccountOf(st, identity.id, id);
    hide Lookup, Consistent, LoginAttempt;
    AttemptIsRefusedInOrder(st, Some(st.accounts[id]), l, HandleCandidate(base, 1));
    FirstAttemptAlone(st, l, base);
    if !st.accounts[id].disabled {
      AttemptStoresAccount(st, Some(st.accounts[id]), l, HandleCandidate(base, 1));
    }
  }

  lemma OnlyAccountOf(st: State, discordID: string, id: int)
    requires Consistent(st) && id in st.accounts && st.accounts[id].discordID == discordID
    ensures Lookup(st, discordID) == Some(st.accounts[id]) && st.accounts[id].id == id
  {
    assert AccountOK(st, id);
    assert HasDiscordID(st, discordID);
  }

  lemma FirstAttemptAlone(st: State, l: Login, base: string)
    ensures var (next, result) := LoginAttempt(st, Lookup(st, l.identity.id), l, HandleCandidate(base, 1));
      !(result.Failure? && IsRetryable(result.error)) ==> LoginFrom(st, l, base, 1, []) == (next, result)
  {
    hide LoginAttempt, HandleCandidate, Lookup;
    assert Run(st, []) == st;
  }

  /** Undisturbed, a new user's account is enabled and has an empty profile. */
  lemma NewUserIsEnabled(
      st: State, lower: char -> char, identity: Identity, token: Hash, previous: Option<Hash>, now: int)
    requires Consistent(st) && !IsKnown(st, identity.id) && token !in st.sessions
    requires LoginWithDiscord(st, lower, identity, token, previous, now, []).1.Success?
    ensures var a := LoginWithDiscord(st, lower, identity, token, previous, now, []).1.value;
      && a.id !in st.accounts && !a.disabled && a.location == None && a.bio == None
      && a.discordID == identity.id && a.username == identity.username && a.displayName == identity.displayName
  {
    hide NormalizedHandle, Consistent, LoginFrom;
    UniqueIndexRules(st, identity.id, "");
    NewUserStored(st, Login(identity, token, previous, now), NormalizedHandle(lower, identity.username), 1);
  }

  lemma {:induction false} NewUserStored(st: State, l: Login, base: string, attempt: nat)
    requires Consistent(st) && !HasDiscordID(st, l.identity.id) && LoginFrom(st, l, base, attempt, []).1.Success?
    ensures var a := LoginFrom(st, l, base, attempt, []).1.value;
      && a.id !in st.accounts && !a.disabled && a.location == None && a.bio == None
      && a.discordID == l.identity.id && MatchesIdentity(a, l)
    decreases MAX_HANDLE_ATTEMPTS + 1 - attempt
  {
    hide Consistent, HandleCandidate, LoginAttempt, MatchesIdentity, HasDiscordID;
    var handle := HandleCandidate(base, attempt);
    assert Run(st, []) == st;
    AttemptAmidKeeps(st, l, handle, Interference([], []));
    var (next, result) := LoginAttempt(st, None, l, handle);
    if result.Failure? {
      RefusedAttemptStores(st, None, l, handle);
      SameAccountsSameIDs(st, next, l.identity.id);
      NewUserStored(next, l, base, attempt + 1);
    } else {
      AttemptStoresAccount(st, None, l, handle);
    }
  }

  lemma SameAccountsSameIDs(st: State, next: State, discordID: string)
    requires next.accounts == st.accounts
    ensures HasDiscordID(next, discordID) <==> HasDiscordID(st, discordID)
  {
  }

  // ---- A login is a run of transactions --------------------------------------------------------

  ghost function LoginTransactions(st: State, l: Login, base: string, attempt: nat, schedule: seq<Interference>)
    : seq<Tx>
    decreases MAX_HANDLE_ATTEMPTS + 1 - attempt
  {
    if attempt > MAX_HANDLE_ATTEMPTS then []
    else
      var others, handle := Around(schedule, attempt), HandleCandidate(base, attempt);
      var (next, result) := AttemptAmid(st, l, handle, others);
      others.before + others.during + [Attempt(Lookup(Run(st, others.before), l.identity.id), l, handle)]
        + if result.Failure? && IsRetryable(result.error) then LoginTransactions(next, l, base, attempt + 1, schedule)
          else []
  }

  lemma {:induction false} RunConcat(st: State, a: seq<Tx>, b: seq<Tx>)
    ensures Run(st, a + b) == Run(Run(st, a), b)
    decreases |a|
  {
    hide Perform;
    if a == [] {
      assert a + b == b;
    } else {
      assert (a + b)[1..] == a[1..] + b;
      RunConcat(Perform(st, a[0]), a[1..], b);
    }
  }

  /**
   A login leaves the state that its own transactions and those of the others leave, in the order they
   committed: what holds in every run of transactions holds through every login.
   */
  lemma {:induction false} LoginIsARun(st: State, l: Login, base: string, attempt: nat, schedule: seq<Interference>)
    ensures LoginFrom(st, l, base, attempt, schedule).0
      == Run(st, LoginTransactions(st, l, base, attempt, schedule))
    decreases MAX_HANDLE_ATTEMPTS + 1 - attempt
  {
    hide HandleCandidate, LoginAttempt, Lookup;
    if attempt > MAX_HANDLE_ATTEMPTS {
    } else {
      var others, handle := Around(schedule, attempt), HandleCandidate(base, attempt);
      var (next, result) := AttemptAmid(st, l, handle, others);
      var own := Attempt(Lookup(Run(st, others.before), l.identity.id), l, handle);
      var later := if result.Failure? && IsRetryable(result.error)
                   then LoginTransactions(next, l, base, attempt + 1, schedule) else [];
      LoginIsARun(next, l, base, attempt + 1, schedule);
      RunConcat(st, others.before, others.during);
      RunConcat(st, others.before + others.during, [own]);
      RunConcat(st, others.before + others.during + [own], later);
      RunOne(Run(Run(st, others.before), others.during), own);
    }
  }

  lemma RunOne(st: State, tx: Tx)
    ensures Run(st, [tx]) == Perform(st, tx)
  {
    hide Perform;
    assert [tx][1..] == [];
    assert Run(Perform(st, tx), []) == Perform(st, tx);
  }
}
