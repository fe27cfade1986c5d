/** Sequences of requests against one store, each started from given table
    contents. They state what the handlers promise across calls: an account
    can be registered once, a registered password logs in, a reset code works
    once and only before it expires, a deleted account cannot log in, and
    which answers do or do not reveal whether an account exists. */
module Scenarios {
  import opened Options
  import opened Validation
  import opened Passwords
  import opened ResetCodes
  import opened Timestamps
  import opened Tables
  import opened Handlers

  /** Registering the same address twice: created, then refused with the `fail` key. */
  method RegisterTwice(accounts: map<string, Account>, rows: seq<ResetRow>,
                       email: string, password: string, now: string, salt1: string, salt2: string)
    returns (first: Response, second: Response)
    requires IsValidEmail(email) && IsValidPassword(password) && email !in accounts
    ensures first == Response(200, "success", "Account created")
    ensures second == Response(400, "fail", "Account already exists")
  {
    var store := new AccountStore(accounts, rows);
    first := store.Register(Some(email), Some(password), Some(password), now, salt1);
    second := store.Register(Some(email), Some(password), Some(password), now, salt2);
  }

  /** A freshly registered account logs in with the password it was registered with. */
  method RegisterThenLogin(accounts: map<string, Account>, rows: seq<ResetRow>,
                           email: string, password: string, registeredAt: string, loginAt: string, salt: string)
    returns (registered: Response, login: Response)
    requires IsValidEmail(email) && IsValidPassword(password) && email !in accounts
    ensures registered == Response(200, "success", "Account created")
    ensures login == Response(200, "success", "Login successful")
  {
    var store := new AccountStore(accounts, rows);
    registered := store.Register(Some(email), Some(password), Some(password), registeredAt, salt);
    login := store.Login(Some(email), Some(password), loginAt);
  }

  /** `/login` gives the same answer for an unknown address as for a known
      address with a wrong password. */
  method LoginHidesWhichCheckFailed(accounts: map<string, Account>, rows: seq<ResetRow>,
                                    email: string, password: string, now: string)
    returns (unknown: Response, wrong: Response)
    requires IsValidEmail(email) && IsValidPassword(password)
    requires email in accounts && !VerifyPassword(accounts[email].password, password)
    ensures unknown == wrong == InvalidCredentials
  {
    var withoutAccount := new AccountStore(accounts - {email}, rows);
    unknown := withoutAccount.Login(Some(email), Some(password), now);
    var withAccount := new AccountStore(accounts, rows);
    wrong := withAccount.Login(Some(email), Some(password), now);
  }

  /** `/forgot-password` answers an unknown address and a known one with the
      same status and message, but under a different key (`sucess` against
      `success`), so the answer does tell whether the account exists. */
  method ForgotPasswordKeyRevealsAccount(accounts: map<string, Account>, rows: seq<ResetRow>,
                                         email: string, expiry: string, random: seq<Byte>)
    returns (unknown: Response, known: Response)
    requires email != "" && email in accounts && |random| == 4
    ensures unknown.status == known.status == 200
    ensures unknown.message == known.message
    ensures unknown.key != known.key
  {
    var withoutAccount := new AccountStore(accounts - {email}, rows);
    unknown := withoutAccount.ForgotPassword(Some(email), expiry, random, true);
    var withAccount := new AccountStore(accounts, rows);
    known := withAccount.ForgotPassword(Some(email), expiry, random, true);
  }

  /** The whole reset workflow: the mailed code resets the password once
      before it expires, the new password logs in, and the same code is then
      refused. */
  method ResetCodeWorksOnce(accounts: map<string, Account>, rows: seq<ResetRow>,
                            email: string, random: seq<Byte>, expiry: string, now: string,
                            newPassword: string, salt: string)
    returns (forgot: Response, first: Response, second: Response, login: Response)
    requires IsValidEmail(email) && email in accounts && |random| == 4
    requires IsValidPassword(newPassword) && !IsExpired(now, expiry)
    ensures forgot == Response(200, "success", ForgotMessage)
    ensures first == Response(200, "success", "Password updated successfully")
    ensures login == Response(200, "success", "Login successful")
    ensures second == Reject("Invalid or expired code")
  {
    var store := new AccountStore(accounts, rows);
    forgot := store.ForgotPassword(Some(email), expiry, random, true);
    var code := GenerateResetCode(random);
    assert |code| == 8;
    ghost var issued := store.resetRows;
    SoleRowIsSelected(issued, ResetRow(email, code, expiry));
    assert email in store.accounts;
    first := store.ResetPassword(Some(email), Some(code), Some(newPassword), now, salt);
    assert store.resetRows == DeleteByCode(issued, email, code);
    assert VerifyPassword(store.accounts[email].password, newPassword);
    login := store.Login(Some(email), Some(newPassword), now);
    DeletedCodeNotFound(issued, email, code);
    second := store.ResetPassword(Some(email), Some(code), Some(newPassword), now, salt);
  }

  /** An expired code is refused, and the old password still logs in. */
  method ExpiredCodeKeepsPassword(accounts: map<string, Account>, rows: seq<ResetRow>,
                                  email: string, password: string, code: string, time: string,
                                  now: string, newPassword: string, salt: string)
    returns (reset: Response, login: Response)
    requires UniqueEmails(rows) && ResetRow(email, code, time) in rows && IsExpired(now, time)
    requires IsValidEmail(email) && code != "" && IsValidPassword(password) && IsValidPassword(newPassword)
    requires Authenticates(accounts, email, password)
    ensures reset == Reject("Code has expired")
    ensures login == Response(200, "success", "Login successful")
  {
    var store := new AccountStore(accounts, rows);
    SelectFindsExisting(rows, email, code);
    reset := store.ResetPassword(Some(email), Some(code), Some(newPassword), now, salt);
    login := store.Login(Some(email), Some(password), now);
  }

  /** After the account is deleted, logging in with its password is refused
      with the generic credentials error. */
  method DeletedAccountCannotLogIn(accounts: map<string, Account>, rows: seq<ResetRow>,
                                   email: string, password: string, now: string)
    returns (deleted: Response, login: Response)
    requires IsValidEmail(email) && IsValidPassword(password) && Authenticates(accounts, email, password)
    ensures deleted == Response(200, "success", "Account deleted successfully")
    ensures login == InvalidCredentials
  {
    var store := new AccountStore(accounts, rows);
    deleted := store.DeleteAccount(Some(email), Some(password), Some(password));
    login := store.Login(Some(email), Some(password), now);
  }

  /** `/register` checks the e-mail format before the password match, and
      `/delete-account` the other way round: the same bad request gets two
      different answers. */
  method GuardOrderDiffers(accounts: map<string, Account>, rows: seq<ResetRow>,
                           email: string, password: string, confirm: string, now: string, salt: string)
    returns (registered: Response, deleted: Response)
    requires email != "" && !IsValidEmail(email)
    requires IsValidPassword(password) && IsValidPassword(confirm) && password != confirm
    ensures registered == Reject(EmailFormatMessage)
    ensures deleted == Reject(MismatchMessage)
  {
    var forRegister := new AccountStore(accounts, rows);
    registered := forRegister.Register(Some(email), Some(password), Some(confirm), now, salt);
    var forDelete := new AccountStore(accounts, rows);
    deleted := forDelete.DeleteAccount(Some(email), Some(password), Some(confirm));
  }

  /** On tables with at most one reset row per e-mail, all owned by accounts,
      reset-password answers "Invalid or expired code" exactly when no row
      has the e-mail and code sent. */
  method ResetRefusesOnlyMissingCodes(accounts: map<string, Account>, rows: seq<ResetRow>,
                                      email: string, code: string, newPassword: string,
                                      now: string, salt: string)
    returns (r: Response)
    requires UniqueEmails(rows) && Owned(rows, accounts)
    requires email != "" && code != "" && IsValidPassword(newPassword)
    ensures r == Reject("Invalid or expired code")
        <==> !exists row :: row in rows && row.email == email && row.code == code
  {
    var store := new AccountStore(accounts, rows);
    assert store.Valid();
    store.LookupFindsExisting(email, code);
    r := store.ResetPassword(Some(email), Some(code), Some(newPassword), now, salt);
  }
}
