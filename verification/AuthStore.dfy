/** The authentication store over tables it updates in place, and its login loop. */
module AuthStores {
  import opened Wrappers
  import opened Handles
  import opened Accounts
  import opened Logins

  class AuthStore {
    var accounts: map<int, Account>
    var sessions: map<Hash, Session>
    var nextID: int

    function View(): State
      reads this
    {
      State(accounts, sessions, nextID)
    }

    constructor ()
      ensures View() == EMPTY && Consistent(View())
    {
      accounts := map[];
      sessions := map[];
      nextID := 1;
    }

    method GetUserByDiscordID(discordID: string) returns (found: Option<Account>)
      requires Consistent(View())
      ensures found == Lookup(View(), discordID)
    {
      if id: int :| id in accounts && accounts[id].discordID == discordID {
        assert HasDiscordID(View(), discordID);
        return Some(accounts[id]);
      }
      return None;
    }

    method SaveUser(seen: Option<Account>, l: Login, handle: string) returns (result: Result<Account, AuthError>)
      modifies this`accounts, this`nextID
      ensures (View(), result) == SaveAccount(old(View()), seen, l, handle)
    {
      if seen.Some? {
        if seen.value.disabled {
          return Failure(UserDisabled);
        }
        if seen.value.id !in accounts || !IsStorable(l.identity) {
          return Failure(StoreRefused);
        }
        var refreshed := Refreshed(accounts[seen.value.id], l);
        accounts := accounts[seen.value.id := refreshed];
        return Success(refreshed);
      }
      var id := nextID;
      nextID := nextID + 1;
      if !IsStorable(l.identity) || !IsCanonicalHandle(handle) {
        return Failure(StoreRefused);
      }
      if exists other :: other in accounts && accounts[other].discordID == l.identity.id {
        return Failure(DiscordIDTaken);
      }
      if exists other :: other in accounts && accounts[other].handle == handle {
        assert handle in HandlesOf(old(View()));
        return Failure(HandleTaken);
      }
      var created := NewAccount(id, l, handle);
      accounts := accounts[id := created];
      return Success(created);
    }

    /** The transaction; anything refused after the first write rolls the writes back. */
    method LoginAttempt(seen: Option<Account>, l: Login, handle: string) returns (result: Result<Account, AuthError>)
      modifies this
      ensures (View(), result) == Accounts.LoginAttempt(old(View()), seen, l, handle)
    {
      var accountsBefore, sessionsBefore := accounts, sessions;
      result := SaveUser(seen, l, handle);
      if result.Failure? {
        return;
      }
      if l.previous.Some? {
        sessions := sessions - {l.previous.value};
      }
      if l.token in sessions {
        accounts, sessions := accountsBefore, sessionsBefore;
        return Failure(StoreRefused);
      }
      sessions := sessions[l.token := Session(result.value.id, l.now, l.now + SESSION_LIFETIME, l.now)];
    }

    method Authenticate(token: Hash, now: int) returns (result: Result<Account, AuthError>)
      modifies this`sessions
      ensures (View(), result) == Accounts.Authenticate(old(View()), token, now)
    {
      if token !in sessions || sessions[token].expiresAt <= now {
        return Failure(InvalidSession);
      }
      var s := sessions[token];
      sessions := sessions[token := s.(lastSeenAt := now)];
      if s.accountID !in accounts {
        return Failure(InvalidSession);
      }
      if accounts[s.accountID].disabled {
        return Failure(UserDisabled);
      }
      return Success(accounts[s.accountID]);
    }

    method DeleteSession(token: Hash)
      modifies this`sessions
      ensures View() == Accounts.DeleteSession(old(View()), token)
    {
      sessions := sessions - {token};
    }

    /** A transaction of someone else. */
    method Perform(tx: Tx)
      modifies this
      ensures View() == Accounts.Perform(old(View()), tx)
    {
      match tx
      case Attempt(seen, login, handle) => var _ := LoginAttempt(seen, login, handle);
      case Touch(token, now) => var _ := Authenticate(token, now);
      case Delete(token) => DeleteSession(token);
      case SetDisabled(id, disabled) =>
        if id in accounts { accounts := accounts[id := accounts[id].(disabled := disabled)]; }
      case EditProfile(id, location, bio, now) =>
        if id in accounts && !accounts[id].disabled {
          accounts := accounts[id := accounts[id].(location := location, bio := bio, updatedAt := now)];
        }
    }

    method PerformAll(txs: seq<Tx>)
      modifies this
      ensures View() == Run(old(View()), txs)
    {
      var i := 0;
      while i < |txs|
        invariant i <= |txs| && Run(View(), txs[i..]) == Run(old(View()), txs)
      {
        Perform(txs[i]);
        assert txs[i..][1..] == txs[i + 1..];
        i := i + 1;
      }
    }

    /** Up to 1000 attempts, each with the next handle candidate, while others commit around them. */
    method Login(l: Login, base: string, schedule: seq<Interference>) returns (result: Result<Account, AuthError>)
      requires Consistent(View())
      modifies this
      ensures (View(), result) == LoginFrom(old(View()), l, base, 1, schedule)
      ensures Consistent(View())
    {
      hide Consistent, Accounts.LoginAttempt, Run, HandleCandidate;
      LoginKeeps(View(), l, base, 1, schedule);
      var attempt := 1;
      while attempt <= MAX_HANDLE_ATTEMPTS
        invariant 1 <= attempt <= MAX_HANDLE_ATTEMPTS + 1
        invariant Consistent(View())
        invariant LoginFrom(View(), l, base, attempt, schedule) == LoginFrom(old(View()), l, base, 1, schedule)
      {
        AttemptAmidKeeps(View(), l, HandleCandidate(base, attempt), Around(schedule, attempt));
        EveryRunKeepsHandles(View(), Around(schedule, attempt).before);
        PerformAll(Around(schedule, attempt).before);
        var seen := GetUserByDiscordID(l.identity.id);
        PerformAll(Around(schedule, attempt).during);
        result := LoginAttempt(seen, l, HandleCandidate(base, attempt));
        if result.Success? || !IsRetryable(result.error) {
          return;
        }
        attempt := attempt + 1;
      }
      return Failure(HandlesExhausted);
    }
  }
}
