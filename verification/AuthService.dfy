/** Logging in, authenticating and logging out with the token text a browser holds. */
module AuthServices {
  import opened Wrappers
  import opened Handles
  import opened Base64Url
  import opened Accounts
  import opened Logins
  import opened AuthStores

  const SESSION_TOKEN_BYTES := 32

  /** `sha` stands for SHA-256. */
  function SessionTokenHash(sha: seq<Byte> -> Hash, rawToken: string): Option<Hash> {
    var decoded := DecodeString(rawToken);
    if decoded.None? || |decoded.value| != SESSION_TOKEN_BYTES then None else Some(sha(decoded.value))
  }

  /** A token the service issues is one it accepts, and stands for the hash that was stored. */
  lemma IssuedTokenIsAccepted(sha: seq<Byte> -> Hash, value: seq<Byte>)
    requires |value| == SESSION_TOKEN_BYTES
    ensures SessionTokenHash(sha, EncodeToString(value)) == Some(sha(value))
    ensures |EncodeToString(value)| == 43
  {
    DecodeOfEncode(value);
    EncodedText(value);
  }

  /** The hash to replace; no token, or one that does not parse, replaces nothing. */
  function PreviousHash(sha: seq<Byte> -> Hash, rawToken: string): Option<Hash> {
    if rawToken == "" then None else SessionTokenHash(sha, rawToken)
  }

  /**
   A text is taken for a token exactly when it is 43 symbols with at most line breaks between them, and
   then it is also what a login replaces: the check for an empty text makes no difference.
   */
  lemma TokensAreRecognised(sha: seq<Byte> -> Hash, rawToken: string)
    ensures SessionTokenHash(sha, rawToken).Some? <==> AreReadable(rawToken) && CountSymbols(rawToken) == 43
    ensures PreviousHash(sha, rawToken) == SessionTokenHash(sha, rawToken)
  {
    assert CountSymbols("") == 0;
    hide DecodeString, AreReadable, CountSymbols;
    DecodesExactly(rawToken);
  }

  datatype LoginResult = LoginResult(user: Account, rawToken: string, expiresAt: int)

  class AuthService {
    const store: AuthStore
    const sha: seq<Byte> -> Hash
    const lower: char -> char

    constructor (store: AuthStore, sha: seq<Byte> -> Hash, lower: char -> char)
      ensures this.store == store && this.sha == sha && this.lower == lower
    {
      this.store := store;
      this.sha := sha;
      this.lower := lower;
    }

    /** `random` is what the random source delivers. */
    method LoginWithDiscord(
        identity: Identity, random: seq<Byte>, previousRawToken: string, now: int, schedule: seq<Interference>)
      returns (result: Result<LoginResult, AuthError>)
      requires Consistent(store.View())
      modifies store
      ensures Consistent(store.View())
      ensures ValidIdentity(identity) && |random| < SESSION_TOKEN_BYTES ==>
        result == Failure(NoRandomness) && store.View() == old(store.View())
      ensures !ValidIdentity(identity) || |random| >= SESSION_TOKEN_BYTES ==>
        var token := if |random| >= SESSION_TOKEN_BYTES then sha(random[..SESSION_TOKEN_BYTES]) else 0;
        var (end, user) := Logins.LoginWithDiscord(
          old(store.View()), lower, identity, token, PreviousHash(sha, previousRawToken), now, schedule);
        && store.View() == end
        && (result.Failure? <==> user.Failure?)
        && (user.Failure? ==> result.error == user.error)
        && (user.Success? ==>
              var rawToken := EncodeToString(random[..SESSION_TOKEN_BYTES]);
              result.value == LoginResult(user.value, rawToken, now + SESSION_LIFETIME))
    {
      hide Consistent, ValidIdentity, LoginFrom, NormalizedHandle, EncodeToString, DecodeString;
      if !ValidIdentity(identity) {
        return Failure(InvalidIdentity);
      }
      if |random| < SESSION_TOKEN_BYTES {
        return Failure(NoRandomness);
      }
      var value := random[..SESSION_TOKEN_BYTES];
      var previous := None;
      if previousRawToken != "" {
        previous := SessionTokenHash(sha, previousRawToken);
      }
      var base := NormalizeHandle(lower, identity.username);
      var user := store.Login(Login(identity, sha(value), previous, now), base, schedule);
      if user.Failure? {
        return Failure(user.error);
      }
      return Success(LoginResult(user.value, EncodeToString(value), now + SESSION_LIFETIME));
    }

    method Authenticate(rawToken: string, now: int) returns (result: Result<Account, AuthError>)
      modifies store
      ensures match SessionTokenHash(sha, rawToken)
        case None => store.View() == old(store.View()) && result == Failure(InvalidSession)
        case Some(token) => (store.View(), result) == Accounts.Authenticate(old(store.View()), token, now)
    {
      var token := SessionTokenHash(sha, rawToken);
      if token.None? {
        return Failure(InvalidSession);
      }
      result := store.Authenticate(token.value, now);
    }

    /** Logging out with nothing, or with a text that is no token, does nothing. */
    method Logout(rawToken: string)
      modifies store
      ensures store.View() == match PreviousHash(sha, rawToken)
        case None => old(store.View())
        case Some(token) => DeleteSession(old(store.View()), token)
    {
      if rawToken == "" {
        return;
      }
      var token := SessionTokenHash(sha, rawToken);
      if token.None? {
        return;
      }
      store.DeleteSession(token.value);
    }
  }

  /**
   From login to any later moment, with fresh tokens: the text handed to the browser authenticates
   its user exactly until it is logged out or replaced by another login, thirty days have passed
   since the login, or the user is disabled.
   */
  lemma IssuedTokenAuthenticates(
      st: State, sha: seq<Byte> -> Hash, lower: char -> char, identity: Identity, value: seq<Byte>,
      previous: Option<Hash>, at: int, schedule: seq<Interference>, txs: seq<Tx>, now: int)
    requires Consistent(st) && |value| == SESSION_TOKEN_BYTES && NeverIssued(txs, sha(value))
    requires Logins.LoginWithDiscord(st, lower, identity, sha(value), previous, at, schedule).1.Success?
    ensures var (after, user) := Logins.LoginWithDiscord(st, lower, identity, sha(value), previous, at, schedule);
      var end := Run(after, txs);
      && SessionTokenHash(sha, EncodeToString(value)) == Some(sha(value))
      && user.value.id in end.accounts
      && (Accounts.Authenticate(end, sha(value), now).1.Success? <==>
            && !EverRevoked(after, txs, sha(value))
            && now < at + SESSION_LIFETIME
            && !end.accounts[user.value.id].disabled)
      && end.accounts[user.value.id].handle == user.value.handle
  {
    hide Consistent, LoginFrom, NormalizedHandle, EncodeToString, DecodeString, Run, EverRevoked, Accounts.Authenticate;
    IssuedTokenIsAccepted(sha, value);
    var l, base := Login(identity, sha(value), previous, at), NormalizedHandle(lower, identity.username);
    LoginStores(st, l, base, 1, schedule);
    LoginKeeps(st, l, base, 1, schedule);
    var (after, user) := LoginFrom(st, l, base, 1, schedule);
    AuthenticatesExactlyWhile(after, sha(value), txs, now);
    EveryRunKeepsHandles(after, txs);
  }

  /** A token replaced at a login, or logged out, never authenticates again. */
  lemma ReplacedTokenIsDead(
      st: State, sha: seq<Byte> -> Hash, lower: char -> char, identity: Identity, value: seq<Byte>,
      previousRawToken: string, at: int, schedule: seq<Interference>, txs: seq<Tx>, now: int)
    requires Consistent(st) && PreviousHash(sha, previousRawToken).Some?
    requires var replaced := PreviousHash(sha, previousRawToken).value;
      replaced != sha(value) && NeverIssued(txs, replaced)
    requires Logins.LoginWithDiscord(
      st, lower, identity, sha(value), PreviousHash(sha, previousRawToken), at, schedule).1.Success?
    ensures var replaced := PreviousHash(sha, previousRawToken).value;
      var after := Logins.LoginWithDiscord(
        st, lower, identity, sha(value), PreviousHash(sha, previousRawToken), at, schedule).0;
      && Accounts.Authenticate(Run(after, txs), replaced, now).1 == Failure(InvalidSession)
      && Accounts.Authenticate(Run(DeleteSession(st, replaced), txs), replaced, now).1 == Failure(InvalidSession)
  {
    hide Consistent, LoginFrom, NormalizedHandle, DecodeString, Run, Accounts.Authenticate;
    var previous := PreviousHash(sha, previousRawToken);
    var l, base := Login(identity, sha(value), previous, at), NormalizedHandle(lower, identity.username);
    LoginStores(st, l, base, 1, schedule);
    RevokedStaysRevoked(LoginFrom(st, l, base, 1, schedule).0, txs, previous.value, now);
    RevokedStaysRevoked(DeleteSession(st, previous.value), txs, previous.value, now);
  }

  /**
   So a user who logged in enabled stays in: with fresh tokens, and as long as nobody disables the
   account, the issued text authenticates it at every moment of the next thirty days at which it has
   been neither logged out nor replaced.
   */
  lemma IssuedTokenWorks(
      st: State, sha: seq<Byte> -> Hash, lower: char -> char, identity: Identity, value: seq<Byte>,
      previous: Option<Hash>, at: int, schedule: seq<Interference>, txs: seq<Tx>, now: int)
    requires Consistent(st) && |value| == 32 && NeverIssued(txs, sha(value))
    requires Logins.LoginWithDiscord(st, lower, identity, sha(value), previous, at, schedule).1.Success?
    requires var (after, user) := Logins.LoginWithDiscord(st, lower, identity, sha(value), previous, at, schedule);
      && NeverDisabledDuring(schedule, user.value.id) && NeverDisables(txs, user.value.id)
      && !EverRevoked(after, txs, sha(value))
    requires now < at + 30 * 24 * 60 * 60
    ensures var (after, user) := Logins.LoginWithDiscord(st, lower, identity, sha(value), previous, at, schedule);
      var token := SessionTokenHash(sha, EncodeToString(value));
      && token.Some?
      && var result := Accounts.Authenticate(Run(after, txs), token.value, now).1;
      result.Success? && result.value.id == user.value.id && result.value.handle == user.value.handle
  {
    hide Consistent, LoginFrom, NormalizedHandle, EncodeToString, DecodeString, Run, EverRevoked, NeverDisables;
    hide NeverDisabledDuring, SessionTokenHash, NeverIssued, Accounts.Authenticate, MatchesIdentity;
    IssuedTokenIsAccepted(sha, value);
    var l, base := Login(identity, sha(value), previous, at), NormalizedHandle(lower, identity.username);
    LoginStores(st, l, base, 1, schedule);
    LoginKeeps(st, l, base, 1, schedule);
    LoginReturnsEnabled(st, l, base, 1, schedule);
    EnabledSessionWorks(LoginFrom(st, l, base, 1, schedule).0, sha(value), txs, now);
  }
}
