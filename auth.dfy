/**
 * The honeypot's password gate (`MySSHServer.begin_auth` and
 * `MySSHServer.validate_password`), as decisions over the account store,
 * a dictionary from user name to the expected password.
 */
module Auth {
  import opened Wrappers

  type Accounts = map<string, string>

  /** The value `validate_password` substitutes for the password of an unknown user. */
  const Sentinel: string := "*"

  /** Python's `accounts.get(username)`: `None` when the user is not in the store. */
  function Get(accounts: Accounts, username: string): (r: Option<string>)
    ensures r.Some? <==> username in accounts
    ensures r.Some? ==> r.value == accounts[username]
  {
    if username in accounts then Some(accounts[username]) else None
  }

  /**
   * `begin_auth`: whether the client must authenticate. It compares the
   * lookup (possibly `None`) with the empty string, so only a known user whose
   * stored password is empty is let in without authenticating.
   */
  function BeginAuth(accounts: Accounts, username: string): (needed: bool)
    ensures !needed <==> username in accounts && accounts[username] == ""
  {
    Get(accounts, username) != Some("")
  }

  /**
   * `validate_password`: the stored password, or the sentinel for an unknown
   * user, must differ from the sentinel and equal the submitted password.
   */
  function ValidatePassword(accounts: Accounts, username: string, password: string): (ok: bool)
    ensures ok <==> username in accounts && accounts[username] != Sentinel && password == accounts[username]
  {
    var pw := Get(accounts, username).GetOr(Sentinel);
    pw != Sentinel && password == pw
  }

  /** An unknown user is refused whatever the password, the empty one and the sentinel included. */
  lemma UnknownUserRejected(accounts: Accounts, username: string, password: string)
    requires username !in accounts
    ensures BeginAuth(accounts, username)
    ensures !ValidatePassword(accounts, username, password)
  {
  }

  /** An account stored with the sentinel as its password can never log in with a password. */
  lemma SentinelAccountNeverValidates(accounts: Accounts, username: string, password: string)
    requires username in accounts && accounts[username] == Sentinel
    ensures BeginAuth(accounts, username)
    ensures !ValidatePassword(accounts, username, password)
  {
  }

  /**
   * The gate as the SSH server library applies it: a connection is let in
   * when `begin_auth` says no authentication is needed, and otherwise when
   * the password it submits validates. Exactly the known users whose stored
   * password is empty, or is not the sentinel and matches, get in.
   */
  function Admitted(accounts: Accounts, username: string, password: string): (admitted: bool)
    ensures admitted <==>
      username in accounts &&
      (accounts[username] == "" || (accounts[username] != Sentinel && password == accounts[username]))
  {
    !BeginAuth(accounts, username) || ValidatePassword(accounts, username, password)
  }

  /** A known user with an empty stored password is let in with any password. */
  lemma EmptySecretAdmitsAnyPassword(accounts: Accounts, username: string, password: string)
    requires username in accounts && accounts[username] == ""
    ensures Admitted(accounts, username, password)
    ensures ValidatePassword(accounts, username, "")
  {
  }

  /**
   * A known user with a non-empty stored password other than the sentinel is
   * let in exactly when the submitted password equals the stored one.
   */
  lemma NonEmptySecretNeedsExactPassword(accounts: Accounts, username: string, password: string)
    requires username in accounts && accounts[username] != "" && accounts[username] != Sentinel
    ensures Admitted(accounts, username, password) <==> password == accounts[username]
  {
  }
}
