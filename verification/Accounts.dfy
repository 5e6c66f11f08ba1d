/** Users and sessions as the authentication store's transactions see them. */
module Accounts {
  import opened Wrappers
  import opened Text
  import opened Handles

  /** Thirty days, in seconds. */
  const SESSION_LIFETIME := 30 * 24 * 60 * 60
  const MAX_NAME := 100

  /** SHA-256 of a session token: an opaque value. */
  type Hash = int

  datatype Identity = Identity(id: string, username: string, displayName: string, avatarURL: Option<string>)

  datatype Account = Account(
    id: int, discordID: string, username: string, displayName: string, avatarURL: Option<string>,
    handle: string, location: Option<string>, bio: Option<string>, disabled: bool, updatedAt: int)

  datatype Session = Session(accountID: int, createdAt: int, expiresAt: int, lastSeenAt: int)

  datatype State = State(accounts: map<int, Account>, sessions: map<Hash, Session>, nextID: int)

  const EMPTY := State(map[], map[], 1)

  datatype AuthError =
    | UserDisabled | InvalidSession | HandleTaken | DiscordIDTaken | StoreRefused | HandlesExhausted
    | InvalidIdentity | NoRandomness

  function HandlesOf(st: State): set<string> {
    set id | id in st.accounts :: st.accounts[id].handle
  }

  predicate HasDiscordID(st: State, discordID: string) {
    exists id :: id in st.accounts && st.accounts[id].discordID == discordID
  }

  /** SELECT ... WHERE discord_id = $1 */
  ghost function Lookup(st: State, discordID: string): (found: Option<Account>)
    ensures found.Some? <==> HasDiscordID(st, discordID)
    ensures found.Some? ==>
      exists id :: id in st.accounts && st.accounts[id] == found.value && found.value.discordID == discordID
  {
    if HasDiscordID(st, discordID) then
      var id :| id in st.accounts && st.accounts[id].discordID == discordID;
      Some(st.accounts[id])
    else None
  }

  // ---- The identity Discord hands over ---------------------------------------------------------

  predicate IsNumeric(s: string) { s != "" && forall i | 0 <= i < |s| :: '0' <= s[i] <= '9' }

  /** DiscordIdentity.Validate */
  predicate ValidIdentity(i: Identity) {
    && IsNumeric(i.id)
    && TrimSpace(i.username) != "" && |i.username| <= MAX_NAME
    && TrimSpace(i.displayName) != "" && |i.displayName| <= MAX_NAME
  }

  /** The CHECK constraints on the columns an identity is written to. */
  predicate IsStorable(i: Identity) {
    IsNumeric(i.id) && 1 <= |i.username| <= MAX_NAME && 1 <= |i.displayName| <= MAX_NAME
  }

  lemma ValidIdentityIsStorable(i: Identity)
    requires ValidIdentity(i)
    ensures IsStorable(i)
  {
  }

  // ---- The login transaction -------------------------------------------------------------------

  datatype Login = Login(identity: Identity, token: Hash, previous: Option<Hash>, now: int)

  /** UpdateDiscordIdentity: everything Discord owns, and nothing else. */
  function Refreshed(a: Account, l: Login): Account {
    a.(username := l.identity.username, displayName := l.identity.displayName,
       avatarURL := l.identity.avatarURL, updatedAt := l.now)
  }

  function NewAccount(id: int, l: Login, handle: string): Account {
    Account(id, l.identity.id, l.identity.username, l.identity.displayName, l.identity.avatarURL,
            handle, None, None, false, l.now)
  }

  /** Refresh the account the lookup saw, or insert one; a refused insert has used its identifier up. */
  function SaveAccount(st: State, seen: Option<Account>, l: Login, handle: string)
    : (State, Result<Account, AuthError>)
  {
    match seen
    case Some(a) =>
      if a.disabled then (st, Failure(UserDisabled))
      else if a.id !in st.accounts || !IsStorable(l.identity) then (st, Failure(StoreRefused))
      else
        var b := Refreshed(st.accounts[a.id], l);
        (st.(accounts := st.accounts[a.id := b]), Success(b))
    case None =>
      var burned := st.(nextID := st.nextID + 1);
      if !IsStorable(l.identity) || !IsCanonicalHandle(handle) then (burned, Failure(StoreRefused))
      else if HasDiscordID(st, l.identity.id) then (burned, Failure(DiscordIDTaken))
      else if handle in HandlesOf(st) then (burned, Failure(HandleTaken))
      else
        var a := NewAccount(st.nextID, l, handle);
        (burned.(accounts := st.accounts[a.id := a]), Success(a))
  }

  function KeptSessions(st: State, l: Login): map<Hash, Session> {
    if l.previous.Some? then st.sessions - {l.previous.value} else st.sessions
  }

  /**
   One attempt: look up, save the account, replace the previous session, open the new one.  `seen` is
   what the lookup returned; other transactions may have committed since.
   */
  function LoginAttempt(st: State, seen: Option<Account>, l: Login, handle: string)
    : (State, Result<Account, AuthError>)
  {
    var (saved, account) := SaveAccount(st, seen, l, handle);
    if account.Failure? then (saved, account)
    else if l.token in KeptSessions(st, l) then (st.(nextID := saved.nextID), Failure(StoreRefused))
    else
      var session := Session(account.value.id, l.now, l.now + SESSION_LIFETIME, l.now);
      (saved.(sessions := KeptSessions(st, l)[l.token := session]), account)
  }

  /** Touch the session if it has not expired, then return its user. */
  function Authenticate(st: State, token: Hash, now: int): (State, Result<Account, AuthError>) {
    if token !in st.sessions || st.sessions[token].expiresAt <= now then (st, Failure(InvalidSession))
    else
      var s := st.sessions[token];
      var next := st.(sessions := st.sessions[token := s.(lastSeenAt := now)]);
      if s.accountID !in st.accounts then (next, Failure(InvalidSession))
      else if st.accounts[s.accountID].disabled then (next, Failure(UserDisabled))
      else (next, Success(st.accounts[s.accountID]))
  }

  function DeleteSession(st: State, token: Hash): State { st.(sessions := st.sessions - {token}) }

  // ---- Transactions in any order ---------------------------------------------------------------

  datatype Tx =
    | Attempt(seen: Option<Account>, login: Login, handle: string)
    | Touch(token: Hash, now: int)
    | Delete(token: Hash)
    | SetDisabled(accountID: int, disabled: bool)
    | EditProfile(accountID: int, location: Option<string>, bio: Option<string>, now: int)

  function Changed(st: State, accountID: int, a: Account): State {
    st.(accounts := st.accounts[accountID := a])
  }

  function Perform(st: State, tx: Tx): State {
    match tx
    case Attempt(seen, login, handle) => LoginAttempt(st, seen, login, handle).0
    case Touch(token, now) => Authenticate(st, token, now).0
    case Delete(token) => DeleteSession(st, token)
    case SetDisabled(id, disabled) =>
      if id in st.accounts then Changed(st, id, st.accounts[id].(disabled := disabled)) else st
    case EditProfile(id, location, bio, now) =>
      if id in st.accounts && !st.accounts[id].disabled then
        Changed(st, id, st.accounts[id].(location := location, bio := bio, updatedAt := now))
      else st
  }

  function Run(st: State, txs: seq<Tx>): State
    decreases |txs|
  {
    if txs == [] then st else Run(Perform(st, txs[0]), txs[1..])
  }

  // ---- What every run keeps --------------------------------------------------------------------

  ghost predicate AccountOK(st: State, id: int)
    requires id in st.accounts
  {
    st.accounts[id].id == id && 1 <= id < st.nextID && IsCanonicalHandle(st.accounts[id].handle)
  }

  /** The two unique indexes on users. */
  ghost predicate AreUnique(st: State) {
    forall a, b | a in st.accounts && b in st.accounts && a != b ::
      st.accounts[a].discordID != st.accounts[b].discordID && st.accounts[a].handle != st.accounts[b].handle
  }

  ghost predicate SessionOK(st: State, token: Hash)
    requires token in st.sessions
  {
    var s := st.sessions[token];
    s.accountID in st.accounts && s.expiresAt == s.createdAt + SESSION_LIFETIME
  }

  ghost predicate Consistent(st: State) {
    && st.nextID >= 1
    && (forall id | id in st.accounts :: AccountOK(st, id))
    && (forall token | token in st.sessions :: SessionOK(st, token))
    && AreUnique(st)
  }

  /** Accounts stay, and keep their handle and their Discord identity. */
  ghost predicate KeepsIdentities(st: State, next: State) {
    forall id | id in st.accounts ::
      && id in next.accounts
      && next.accounts[id].handle == st.accounts[id].handle
      && next.accounts[id].discordID == st.accounts[id].discordID
  }

  lemma SaveKeeps(st: State, seen: Option<Account>, l: Login, handle: string)
    requires Consistent(st)
    ensures var next := SaveAccount(st, seen, l, handle).0; Consistent(next) && KeepsIdentities(st, next)
  {
    hide IsCanonicalHandle, IsStorable;
    var next := SaveAccount(st, seen, l, handle).0;
    SaveKeepsUnique(st, seen, l, handle);
    hide AreUnique, HasDiscordID, HandlesOf;
    forall id | id in next.accounts ensures AccountOK(next, id) {
      assert id in st.accounts ==> AccountOK(st, id);
    }
    forall token | token in next.sessions ensures SessionOK(next, token) { assert SessionOK(st, token); }
  }

  /** The insert checks both unique columns; the refresh writes neither. */
  lemma SaveKeepsUnique(st: State, seen: Option<Account>, l: Login, handle: string)
    requires Consistent(st)
    ensures AreUnique(SaveAccount(st, seen, l, handle).0)
  {
    hide IsCanonicalHandle, IsStorable, SessionOK;
  }

  lemma AttemptKeeps(st: State, seen: Option<Account>, l: Login, handle: string)
    requires Consistent(st)
    ensures var next := LoginAttempt(st, seen, l, handle).0; Consistent(next) && KeepsIdentities(st, next)
  {
    hide IsCanonicalHandle, IsStorable, HasDiscordID, HandlesOf;
    SaveKeeps(st, seen, l, handle);
    var (next, saved) := (LoginAttempt(st, seen, l, handle).0, SaveAccount(st, seen, l, handle).0);
    forall id | id in next.accounts ensures AccountOK(next, id) {
      assert id in st.accounts ==> AccountOK(st, id);
      assert id in saved.accounts ==> AccountOK(saved, id);
    }
    forall token | token in next.sessions ensures SessionOK(next, token) {
      assert token in st.sessions ==> SessionOK(st, token);
    }
  }

  lemma PerformKeeps(st: State, tx: Tx)
    requires Consistent(st)
    ensures Consistent(Perform(st, tx)) && KeepsIdentities(st, Perform(st, tx))
  {
    hide LoginAttempt, IsCanonicalHandle;
    var next := Perform(st, tx);
    if tx.Attempt? {
      AttemptKeeps(st, tx.seen, tx.login, tx.handle);
    } else {
      forall id | id in next.accounts ensures AccountOK(next, id) {
        assert AccountOK(st, id);
      }
      forall token | token in next.sessions ensures SessionOK(next, token) {
        assert SessionOK(st, token);
      }
    }
  }

  /**
   In every run of logins, authentications, logouts, profile edits and disablings, handles stay
   canonical and pairwise different, and no account ever loses or changes its handle.
   */
  lemma {:induction false} EveryRunKeepsHandles(st: State, txs: seq<Tx>)
    requires Consistent(st)
    ensures Consistent(Run(st, txs)) && KeepsIdentities(st, Run(st, txs))
    decreases |txs|
  {
    hide Consistent, Perform;
    if txs == [] {
    } else {
      PerformKeeps(st, txs[0]);
      EveryRunKeepsHandles(Perform(st, txs[0]), txs[1..]);
    }
  }

  // ---- Sessions --------------------------------------------------------------------------------

  predicate Issues(tx: Tx, token: Hash) { tx.Attempt? && tx.login.token == token }

  /** Tokens are fresh: no transaction of the run issues this one again. */
  ghost predicate NeverIssued(txs: seq<Tx>, token: Hash) {
    forall i | 0 <= i < |txs| :: !Issues(txs[i], token)
  }

  /** A logout with the token, or a login that replaces it and commits. */
  predicate Revokes(st: State, tx: Tx, token: Hash) {
    || tx == Delete(token)
    || (tx.Attempt? && tx.login.previous == Some(token)
        && LoginAttempt(st, tx.seen, tx.login, tx.handle).1.Success?)
  }

  predicate EverRevoked(st: State, txs: seq<Tx>, token: Hash)
    decreases |txs|
  {
    txs != [] && (Revokes(st, txs[0], token) || EverRevoked(Perform(st, txs[0]), txs[1..], token))
  }

  predicate SameSession(s: Session, t: Session) { t.accountID == s.accountID && t.expiresAt == s.expiresAt }

  lemma PerformOnSession(st: State, tx: Tx, token: Hash)
    requires !Issues(tx, token)
    ensures var next := Perform(st, tx);
      && (token in next.sessions <==> token in st.sessions && !Revokes(st, tx, token))
      && (token in next.sessions ==> SameSession(st.sessions[token], next.sessions[token]))
  {
    hide IsCanonicalHandle, IsStorable, HasDiscordID, HandlesOf;
  }

  /** A token that is gone stays gone: it never authenticates again. */
  lemma {:induction false} RevokedStaysRevoked(st: State, txs: seq<Tx>, token: Hash, now: int)
    requires token !in st.sessions && NeverIssued(txs, token)
    ensures token !in Run(st, txs).sessions
    ensures Authenticate(Run(st, txs), token, now) == (Run(st, txs), Failure(InvalidSession))
    decreases |txs|
  {
    hide Perform, Revokes;
    if txs == [] {
    } else {
      PerformOnSession(st, txs[0], token);
      assert forall i | 0 <= i < |txs[1..]| :: txs[1..][i] == txs[i + 1];
      RevokedStaysRevoked(Perform(st, txs[0]), txs[1..], token, now);
    }
  }

  /** A session lasts until it is revoked; touching it never moves its expiry. */
  lemma {:induction false} SessionLasts(st: State, txs: seq<Tx>, token: Hash)
    requires token in st.sessions && NeverIssued(txs, token)
    ensures var end := Run(st, txs);
      && (token in end.sessions <==> !EverRevoked(st, txs, token))
      && (token in end.sessions ==> SameSession(st.sessions[token], end.sessions[token]))
    decreases |txs|
  {
    hide Perform, Revokes, Authenticate;
    if txs == [] {
    } else {
      var next := Perform(st, txs[0]);
      PerformOnSession(st, txs[0], token);
      assert forall i | 0 <= i < |txs[1..]| :: txs[1..][i] == txs[i + 1];
      if token in next.sessions {
        SessionLasts(next, txs[1..], token);
      } else {
        RevokedStaysRevoked(next, txs[1..], token, 0);
      }
    }
  }

  /** What Discord owns of an account is what Discord said at this login. */
  predicate MatchesIdentity(a: Account, l: Login) {
    && a.username == l.identity.username && a.displayName == l.identity.displayName
    && a.avatarURL == l.identity.avatarURL && a.updatedAt == l.now
  }

  /** A committed login refreshes or stores its account, opens its session and closes the one it replaces. */
  lemma LoginOpensSession(st: State, seen: Option<Account>, l: Login, handle: string)
    requires Consistent(st) && LoginAttempt(st, seen, l, handle).1.Success?
    ensures var (next, account) := LoginAttempt(st, seen, l, handle);
      && account.value.id in next.accounts && next.accounts[account.value.id] == account.value
      && MatchesIdentity(account.value, l)
      && l.token in next.sessions
      && next.sessions[l.token] == Session(account.value.id, l.now, l.now + SESSION_LIFETIME, l.now)
      && (l.previous.Some? && l.previous.value != l.token ==> l.previous.value !in next.sessions)
  {
    hide IsCanonicalHandle, IsStorable, HasDiscordID, HandlesOf;
    if seen.Some? && seen.value.id in st.accounts { assert AccountOK(st, seen.value.id); }
  }

  /**
   Over every run that does not issue its token again, a session authenticates exactly until it is
   logged out or replaced, its expiry is reached (however often it was touched), or its user is
   disabled; and it authenticates that user, under an unchanged handle.
   */
  lemma AuthenticatesExactlyWhile(st: State, token: Hash, txs: seq<Tx>, now: int)
    requires Consistent(st) && token in st.sessions && NeverIssued(txs, token)
    ensures var s, end := st.sessions[token], Run(st, txs);
      var result := Authenticate(end, token, now).1;
      && s.accountID in st.accounts && s.accountID in end.accounts
      && (result.Success? <==>
            && !EverRevoked(st, txs, token)
            && now < s.expiresAt
            && !end.accounts[s.accountID].disabled)
      && (result.Success? ==>
            result.value == end.accounts[s.accountID] && result.value.handle == st.accounts[s.accountID].handle)
  {
    hide Perform, Run, EverRevoked, AccountOK;
    assert SessionOK(st, token);
    EveryRunKeepsHandles(st, txs);
    SessionLasts(st, txs, token);
  }

  /** Logging out twice is logging out once, and touches no other session. */
  lemma LogoutIsIdempotent(st: State, token: Hash, other: Hash)
    ensures DeleteSession(DeleteSession(st, token), token) == DeleteSession(st, token)
    ensures DeleteSession(st, token).accounts == st.accounts
    ensures other != token && other in st.sessions ==>
      other in DeleteSession(st, token).sessions && DeleteSession(st, token).sessions[other] == st.sessions[other]
  {
  }

  // ---- What each transaction writes ------------------------------------------------------------

  predicate IdentityFits(i: Identity) {
    && |i.id| >= 1 && (forall k | 0 <= k < |i.id| :: i.id[k] in "0123456789")
    && |TrimSpace(i.username)| >= 1 && |i.username| <= 100
    && |TrimSpace(i.displayName)| >= 1 && |i.displayName| <= 100
  }

  lemma IdentityRule(i: Identity)
    ensures ValidIdentity(i) <==> IdentityFits(i)
  {
    hide TrimSpace;
    assert forall c: char :: c in "0123456789" <==> '0' <= c <= '9';
  }

  predicate IsKnown(st: State, discordID: string) {
    exists id :: id in st.accounts && st.accounts[id].discordID == discordID
  }

  predicate IsHeld(st: State, handle: string) {
    exists id :: id in st.accounts && st.accounts[id].handle == handle
  }

  lemma UniqueIndexRules(st: State, discordID: string, handle: string)
    ensures HasDiscordID(st, discordID) <==> IsKnown(st, discordID)
    ensures handle in HandlesOf(st) <==> IsHeld(st, handle)
  {
  }

  /** Each refusal of a login transaction, in the order of its statements, and commit exactly when none applies. */
  lemma AttemptIsRefusedInOrder(st: State, seen: Option<Account>, l: Login, handle: string)
    requires IdentityFits(l.identity)
    ensures var (next, result) := LoginAttempt(st, seen, l, handle);
      && (result.Failure? ==> next.accounts == st.accounts && next.sessions == st.sessions)
      && if seen.Some? && seen.value.disabled then result == Failure(UserDisabled)
         else if seen.Some? && seen.value.id !in st.accounts then result == Failure(StoreRefused)
         else if seen.None? && !IsCanonicalHandle(handle) then result == Failure(StoreRefused)
         else if seen.None? && IsKnown(st, l.identity.id) then result == Failure(DiscordIDTaken)
         else if seen.None? && IsHeld(st, handle) then result == Failure(HandleTaken)
         else if l.token in st.sessions && l.previous != Some(l.token) then result == Failure(StoreRefused)
         else result.Success?
  {
    hide SaveAccount, IsCanonicalHandle, IdentityFits, IsKnown, IsHeld, KeptSessions;
    SaveIsRefusedInOrder(st, seen, l, handle);
    RefusedAttemptStores(st, seen, l, handle);
    TokenIsKept(st, l);
  }

  lemma TokenIsKept(st: State, l: Login)
    ensures l.token in KeptSessions(st, l) <==> l.token in st.sessions && l.previous != Some(l.token)
  {
  }

  lemma SaveIsRefusedInOrder(st: State, seen: Option<Account>, l: Login, handle: string)
    requires IdentityFits(l.identity)
    ensures var result := SaveAccount(st, seen, l, handle).1;
      if seen.Some? && seen.value.disabled then result == Failure(UserDisabled)
      else if seen.Some? && seen.value.id !in st.accounts then result == Failure(StoreRefused)
      else if seen.None? && !IsCanonicalHandle(handle) then result == Failure(StoreRefused)
      else if seen.None? && IsKnown(st, l.identity.id) then result == Failure(DiscordIDTaken)
      else if seen.None? && IsHeld(st, handle) then result == Failure(HandleTaken)
      else result.Success?
  {
    IdentityRule(l.identity);
    ValidIdentityIsStorable(l.identity);
    UniqueIndexRules(st, l.identity.id, handle);
    hide IsCanonicalHandle, IsStorable, ValidIdentity, IdentityFits, HasDiscordID, HandlesOf, IsKnown, IsHeld;
  }

  /**
   A committed login writes one account.  A known one keeps everything but what Discord said; a new one
   is enabled, with the handle proposed and an empty profile.
   */
  lemma AttemptStoresAccount(st: State, seen: Option<Account>, l: Login, handle: string)
    requires Consistent(st) && LoginAttempt(st, seen, l, handle).1.Success?
    ensures var (next, result) := LoginAttempt(st, seen, l, handle);
      var a := result.value;
      && next.accounts == st.accounts[a.id := a] && MatchesIdentity(a, l)
      && (seen.Some? ==> a.id == seen.value.id && a.id in st.accounts)
      && (seen.None? ==> a.id !in st.accounts)
      && (a.id in st.accounts ==>
            && var before := st.accounts[a.id];
            && a.handle == before.handle && a.discordID == before.discordID && a.disabled == before.disabled
            && a.location == before.location && a.bio == before.bio)
      && (a.id !in st.accounts ==>
            && a.discordID == l.identity.id && a.handle == handle && !a.disabled
            && a.location == None && a.bio == None)
  {
    hide IsCanonicalHandle, IsStorable, HasDiscordID, HandlesOf;
    assert st.nextID in st.accounts ==> AccountOK(st, st.nextID);
    if seen.Some? && seen.value.id in st.accounts { assert AccountOK(st, seen.value.id); }
  }

  /** Authenticating stamps the session it found and writes nothing else. */
  lemma AuthenticateTouchesOnly(st: State, token: Hash, now: int)
    requires Consistent(st)
    ensures var (next, result) := Authenticate(st, token, now);
      && next.accounts == st.accounts && next.nextID == st.nextID
      && Perform(st, Touch(token, now)) == next
      && if token in st.sessions && now < st.sessions[token].expiresAt then
           var s := st.sessions[token];
           && next.sessions == st.sessions[token := Session(s.accountID, s.createdAt, s.expiresAt, now)]
           && s.accountID in st.accounts
           && result == if st.accounts[s.accountID].disabled then Failure(UserDisabled)
                        else Success(st.accounts[s.accountID])
         else next == st && result == Failure(InvalidSession)
  {
    if token in st.sessions { assert SessionOK(st, token); }
  }

  /** A profile edit writes the profile of one enabled account, disabling one flag, and neither touches a session. */
  lemma AccountWritesAre(st: State, id: int, location: Option<string>, bio: Option<string>, now: int, disabled: bool)
    requires id in st.accounts
    ensures var before := st.accounts[id];
      var edited, flagged := Perform(st, EditProfile(id, location, bio, now)), Perform(st, SetDisabled(id, disabled));
      && edited.sessions == st.sessions && flagged.sessions == st.sessions
      && (before.disabled ==> edited == st)
      && (!before.disabled ==>
            && edited.accounts.Keys == st.accounts.Keys
            && (forall k | k in st.accounts && k != id :: edited.accounts[k] == st.accounts[k])
            && edited.accounts[id].location == location && edited.accounts[id].bio == bio
            && edited.accounts[id].updatedAt == now && !edited.accounts[id].disabled
            && edited.accounts[id].username == before.username && edited.accounts[id].handle == before.handle)
      && flagged.accounts == st.accounts[id := before.(disabled := disabled)]
  {
  }

  // ---- Staying enabled -------------------------------------------------------------------------

  ghost predicate NeverDisables(txs: seq<Tx>, id: int) {
    forall i | 0 <= i < |txs| :: txs[i] != SetDisabled(id, true)
  }

  /** An account is disabled only by being disabled. */
  lemma {:induction false} StaysEnabled(st: State, txs: seq<Tx>, id: int)
    requires Consistent(st) && id in st.accounts && !st.accounts[id].disabled && NeverDisables(txs, id)
    ensures id in Run(st, txs).accounts && !Run(st, txs).accounts[id].disabled
    decreases |txs|
  {
    hide Consistent, Perform;
    if txs == [] {
    } else {
      PerformKeeps(st, txs[0]);
      PerformDisables(st, txs[0], id);
      assert forall i | 0 <= i < |txs[1..]| :: txs[1..][i] == txs[i + 1];
      StaysEnabled(Perform(st, txs[0]), txs[1..], id);
    }
  }

  lemma PerformDisables(st: State, tx: Tx, id: int)
    requires Consistent(st) && id in st.accounts && !st.accounts[id].disabled && tx != SetDisabled(id, true)
    ensures id in Perform(st, tx).accounts && !Perform(st, tx).accounts[id].disabled
  {
    hide LoginAttempt;
    if tx.Attempt? {
      AttemptKeeps(st, tx.seen, tx.login, tx.handle);
      if LoginAttempt(st, tx.seen, tx.login, tx.handle).1.Success? {
        AttemptStoresAccount(st, tx.seen, tx.login, tx.handle);
      } else {
        RefusedAttemptStores(st, tx.seen, tx.login, tx.handle);
      }
    }
  }

  lemma RefusedAttemptStores(st: State, seen: Option<Account>, l: Login, handle: string)
    ensures var (next, result) := LoginAttempt(st, seen, l, handle);
      result.Failure? ==> next.accounts == st.accounts && next.sessions == st.sessions
  {
    hide IsCanonicalHandle, IsStorable, HasDiscordID, HandlesOf;
  }

  /** The session of an enabled account works as long as it lasts. */
  lemma EnabledSessionWorks(st: State, token: Hash, txs: seq<Tx>, now: int)
    requires Consistent(st) && token in st.sessions && NeverIssued(txs, token) && !EverRevoked(st, txs, token)
    requires var id := st.sessions[token].accountID;
      id in st.accounts && !st.accounts[id].disabled && NeverDisables(txs, id)
    requires now < st.sessions[token].expiresAt
    ensures var result := Authenticate(Run(st, txs), token, now).1;
      var id := st.sessions[token].accountID;
      result.Success? && result.value.id == id && result.value.handle == st.accounts[id].handle
  {
    hide Perform, Run, EverRevoked, NeverIssued, NeverDisables;
    var id := st.sessions[token].accountID;
    AuthenticatesExactlyWhile(st, token, txs, now);
    StaysEnabled(st, txs, id);
    EveryRunKeepsHandles(st, txs);
    assert AccountOK(Run(st, txs), id);
  }
}
