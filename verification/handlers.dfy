/** The five request handlers: `/register`, `/login`, `/forgot-password`,
    `/reset-password` and `/delete-account`. Each is a fixed sequence of
    guards, each answering with a status, a JSON key and a message, followed
    by reads and writes of the two tables. The tables are fields of an
    `AccountStore`; the clock, the random bytes, the bcrypt salt and the mail
    transport's outcome are parameters. Calls to `logActivity` and
    `sendResetEmail` are recorded in two logs. */
module Handlers {
  import opened Options
  import opened Validation
  import opened Passwords
  import opened ResetCodes
  import opened Timestamps
  import opened Tables

  /** An HTTP status and the one-entry JSON body `{ key: message }`. */
  datatype Response = Response(status: int, key: string, message: string)

  /** A body field as received: absent, or a string. */
  type Field = Option<string>

  /** JavaScript truthiness of a string field: sent and not empty. */
  predicate Present(f: Field)
    ensures Present(f) <==> f != None && f != Some("")
  {
    f.Some? && f.value != ""
  }

  /** A call of `logActivity(email, time, table, column)`. */
  datatype ActivityCall = ActivityCall(email: string, time: string, table: string, column: string)

  /** A reset e-mail that `sendResetEmail` handed to the mail transport. */
  datatype ResetMail = ResetMail(to: string, code: string)

  const LengthMessage := "Password must be between 8 and 20 characters"
  const EmailFormatMessage := "Invalid email format"
  const MismatchMessage := "Password and confirm password must match"
  const ForgotMessage := "If the account exists, the code has been sent to your email."

  function Reject(message: string): Response {
    Response(400, "error", message)
  }

  /** The one answer `/login` gives to an unknown e-mail and to a wrong password. */
  const InvalidCredentials := Response(401, "error", "Invalid email or password")

  /** The account exists and the password verifies against its stored hash. */
  predicate Authenticates(accounts: map<string, Account>, email: string, password: string) {
    email in accounts && VerifyPassword(accounts[email].password, password)
  }

  /** All of `/register`'s (and `/delete-account`'s) input checks pass. */
  predicate CredentialsAccepted(email: Field, password: Field, confirm: Field) {
    && Present(email) && Present(password) && Present(confirm)
    && IsValidPassword(password.value) && IsValidPassword(confirm.value)
    && IsValidEmail(email.value)
    && password.value == confirm.value
  }

  /** All of `/login`'s input checks pass. */
  predicate LoginAccepted(email: Field, password: Field) {
    Present(email) && Present(password) && IsValidPassword(password.value) && IsValidEmail(email.value)
  }

  /** All of `/reset-password`'s input checks pass. */
  predicate ResetAccepted(email: Field, code: Field, newPassword: Field) {
    Present(email) && Present(code) && Present(newPassword) && IsValidPassword(newPassword.value)
  }

  class AccountStore {
    /** The `Contas` table, keyed by e-mail. */
    var accounts: map<string, Account>
    /** The `ChangePassword` table. */
    var resetRows: seq<ResetRow>
    /** Every `logActivity` call made, in order. */
    var activity: seq<ActivityCall>
    /** Every reset e-mail sent, in order. */
    var mails: seq<ResetMail>

    /** What the handlers keep true of the tables: at most one reset row per
        e-mail, and only for e-mails that have an account. */
    ghost predicate Valid()
      reads this
    {
      UniqueEmails(resetRows) && Owned(resetRows, accounts)
    }

    constructor (accounts: map<string, Account>, resetRows: seq<ResetRow>)
      ensures this.accounts == accounts && this.resetRows == resetRows
      ensures activity == [] && mails == []
    {
      this.accounts := accounts;
      this.resetRows := resetRows;
      activity := [];
      mails := [];
    }

    /** In a store whose tables are valid, the reset lookup finds a row
        exactly when a row with that e-mail and code exists. */
    lemma LookupFindsExisting(email: string, code: string)
      requires Valid()
      ensures SelectByCode(resetRows, email, code).Some?
          <==> exists row :: row in resetRows && row.email == email && row.code == code
    {
      SelectFindsExisting(resetRows, email, code);
    }

    /** `POST /register`. */
    method Register(email: Field, password: Field, confirm: Field, now: string, salt: string)
      returns (r: Response)
      modifies this
      ensures !(Present(email) && Present(password) && Present(confirm)) ==>
              r == Reject("Email, password and confirm password are required")
      ensures Present(email) && Present(password) && Present(confirm) &&
              !(IsValidPassword(password.value) && IsValidPassword(confirm.value)) ==>
              r == Reject(LengthMessage)
      ensures Present(email) && Present(password) && Present(confirm) &&
              IsValidPassword(password.value) && IsValidPassword(confirm.value) &&
              !IsValidEmail(email.value) ==>
              r == Reject(EmailFormatMessage)
      ensures Present(email) && Present(password) && Present(confirm) &&
              IsValidPassword(password.value) && IsValidPassword(confirm.value) &&
              IsValidEmail(email.value) && password.value != confirm.value ==>
              r == Reject(MismatchMessage)
      ensures CredentialsAccepted(email, password, confirm) && email.value in old(accounts) ==>
              r == Response(400, "fail", "Account already exists")
      ensures CredentialsAccepted(email, password, confirm) && email.value !in old(accounts) ==>
              && r == Response(200, "success", "Account created")
              && accounts == old(accounts)[email.value := Account(EncryptPassword(password.value, salt), now, None)]
              && activity == old(activity) + [ActivityCall(email.value, now, "logs_register", "created_at")]
      ensures r.status != 200 ==> unchanged(this)
      ensures resetRows == old(resetRows) && mails == old(mails)
      ensures old(Valid()) ==> Valid()
    {
      if !Present(email) || !Present(password) || !Present(confirm) {
        return Reject("Email, password and confirm password are required");
      }
      var e, p, c := email.value, password.value, confirm.value;
      if !IsValidPassword(p) || !IsValidPassword(c) {
        return Reject(LengthMessage);
      }
      if !IsValidEmail(e) {
        return Reject(EmailFormatMessage);
      }
      if p != c {
        return Reject(MismatchMessage);
      }
      if e in accounts {
        return Response(400, "fail", "Account already exists");
      }
      accounts := accounts[e := Account(EncryptPassword(p, salt), now, None)];
      activity := activity + [ActivityCall(e, now, "logs_register", "created_at")];
      r := Response(200, "success", "Account created");
    }

    /** `POST /login`. */
    method Login(email: Field, password: Field, now: string) returns (r: Response)
      modifies this
      ensures !(Present(email) && Present(password)) ==>
              r == Reject("Email and password are required")
      ensures Present(email) && Present(password) && !IsValidPassword(password.value) ==>
              r == Reject(LengthMessage)
      ensures Present(email) && Present(password) && IsValidPassword(password.value) &&
              !IsValidEmail(email.value) ==>
              r == Reject(EmailFormatMessage)
      ensures LoginAccepted(email, password) && !Authenticates(old(accounts), email.value, password.value) ==>
              r == InvalidCredentials
      ensures LoginAccepted(email, password) && Authenticates(old(accounts), email.value, password.value) ==>
              && r == Response(200, "success", "Login successful")
              && accounts == old(accounts)[email.value := old(accounts)[email.value].(lastLogin := Some(now))]
              && activity == old(activity) + [ActivityCall(email.value, now, "logs_login", "login_at")]
      ensures r.status != 200 ==> unchanged(this)
      ensures resetRows == old(resetRows) && mails == old(mails)
      ensures old(Valid()) ==> Valid()
    {
      if !Present(email) || !Present(password) {
        return Reject("Email and password are required");
      }
      var e, p := email.value, password.value;
      if !IsValidPassword(p) {
        return Reject(LengthMessage);
      }
      if !IsValidEmail(e) {
        return Reject(EmailFormatMessage);
      }
      if e !in accounts {
        return InvalidCredentials;
      }
      if !VerifyPassword(accounts[e].password, p) {
        return InvalidCredentials;
      }
      accounts := accounts[e := accounts[e].(lastLogin := Some(now))];
      activity := activity + [ActivityCall(e, now, "logs_login", "login_at")];
      r := Response(200, "success", "Login successful");
    }

    /** `POST /forgot-password`. `expiry` is the clock's time fifteen minutes
        ahead, `random` the four bytes of `crypto.randomBytes(4)`, and
        `delivered` whether the mail transport accepted the message. */
    method ForgotPassword(email: Field, expiry: string, random: seq<Byte>, delivered: bool)
      returns (r: Response)
      requires |random| == 4
      modifies this
      ensures !Present(email) ==> r == Reject("Email is required") && unchanged(this)
      ensures Present(email) && email.value !in old(accounts) ==>
              && r == Response(200, "sucess", ForgotMessage)
              && resetRows == DeleteByEmail(old(resetRows), email.value)
              && mails == old(mails)
      ensures Present(email) && email.value in old(accounts) ==>
              && resetRows == DeleteByEmail(old(resetRows), email.value)
                              + [ResetRow(email.value, GenerateResetCode(random), expiry)]
              && (if delivered
                  then r == Response(200, "success", ForgotMessage)
                       && mails == old(mails) + [ResetMail(email.value, GenerateResetCode(random))]
                  else r == Response(500, "error", "an error occurred") && mails == old(mails))
      ensures Present(email) ==>
              Where(resetRows, SameEmail(email.value))
              == if email.value in old(accounts) then [ResetRow(email.value, GenerateResetCode(random), expiry)] else []
      ensures accounts == old(accounts) && activity == old(activity)
      ensures old(Valid()) ==> Valid()
    {
      if !Present(email) {
        return Reject("Email is required");
      }
      var e := email.value;
      var code := GenerateResetCode(random);
      if old(Valid()) {
        WhereKeepsUnique(resetRows, OtherEmail(e));
      }
      resetRows := DeleteByEmail(resetRows, e);
      ReplaceLeavesOneRow(old(resetRows), ResetRow(e, code, expiry));
      if e !in accounts {
        return Response(200, "sucess", ForgotMessage);
      }
      var row := ResetRow(e, code, expiry);
      resetRows := resetRows + [row];
      if old(Valid()) {
        ReplaceKeepsUnique(old(resetRows), row);
      }
      if !delivered {
        return Response(500, "error", "an error occurred");
      }
      mails := mails + [ResetMail(e, code)];
      r := Response(200, "success", ForgotMessage);
    }

    /** `POST /reset-password`. `now` is the clock's current time and `salt`
        the bcrypt salt for the new hash. */
    method ResetPassword(email: Field, code: Field, newPassword: Field, now: string, salt: string)
      returns (r: Response)
      modifies this
      ensures !(Present(email) && Present(code) && Present(newPassword)) ==>
              r == Reject("Email, code, and newpassword are required")
      ensures Present(email) && Present(code) && Present(newPassword) &&
              !IsValidPassword(newPassword.value) ==>
              r == Reject(LengthMessage)
      ensures ResetAccepted(email, code, newPassword) &&
              SelectByCode(old(resetRows), email.value, code.value).None? ==>
              r == Reject("Invalid or expired code")
      ensures ResetAccepted(email, code, newPassword) &&
              SelectByCode(old(resetRows), email.value, code.value).Some? &&
              IsExpired(now, SelectByCode(old(resetRows), email.value, code.value).value.time) ==>
              r == Reject("Code has expired")
      ensures ResetAccepted(email, code, newPassword) &&
              SelectByCode(old(resetRows), email.value, code.value).Some? &&
              !IsExpired(now, SelectByCode(old(resetRows), email.value, code.value).value.time) ==>
              && r == Response(200, "success", "Password updated successfully")
              && accounts == (if email.value in old(accounts)
                              then old(accounts)[email.value :=
                                     old(accounts)[email.value].(password := EncryptPassword(newPassword.value, salt))]
                              else old(accounts))
              && resetRows == DeleteByCode(old(resetRows), email.value, code.value)
      ensures r.status != 200 ==> unchanged(this)
      ensures activity == old(activity) && mails == old(mails)
      ensures old(Valid()) ==> Valid()
    {
      if !Present(email) || !Present(code) || !Present(newPassword) {
        return Reject("Email, code, and newpassword are required");
      }
      var e, c, p := email.value, code.value, newPassword.value;
      if !IsValidPassword(p) {
        return Reject(LengthMessage);
      }
      var found := SelectByCode(resetRows, e, c);
      if found.None? {
        return Reject("Invalid or expired code");
      }
      if IsExpired(now, found.value.time) {
        return Reject("Code has expired");
      }
      if e in accounts {
        accounts := accounts[e := accounts[e].(password := EncryptPassword(p, salt))];
      }
      if old(Valid()) {
        WhereKeepsUnique(resetRows, OtherCode(e, c));
      }
      resetRows := DeleteByCode(resetRows, e, c);
      r := Response(200, "success", "Password updated successfully");
    }

    /** `DELETE /delete-account`. */
    method DeleteAccount(email: Field, password: Field, confirm: Field) returns (r: Response)
      modifies this
      ensures !(Present(email) && Present(password) && Present(confirm)) ==>
              r == Reject("Email, password and confirm password are required")
      ensures Present(email) && Present(password) && Present(confirm) &&
              !(IsValidPassword(password.value) && IsValidPassword(confirm.value)) ==>
              r == Reject(LengthMessage)
      ensures Present(email) && Present(password) && Present(confirm) &&
              IsValidPassword(password.value) && IsValidPassword(confirm.value) &&
              password.value != confirm.value ==>
              r == Reject(MismatchMessage)
      ensures Present(email) && Present(password) && Present(confirm) &&
              IsValidPassword(password.value) && IsValidPassword(confirm.value) &&
              password.value == confirm.value && !IsValidEmail(email.value) ==>
              r == Reject(EmailFormatMessage)
      ensures CredentialsAccepted(email, password, confirm) && email.value !in old(accounts) ==>
              r == Response(404, "error", "Account not found")
      ensures CredentialsAccepted(email, password, confirm) && email.value in old(accounts) &&
              !VerifyPassword(old(accounts)[email.value].password, password.value) ==>
              r == Response(401, "error", "Invalid password")
      ensures CredentialsAccepted(email, password, confirm) &&
              Authenticates(old(accounts), email.value, password.value) ==>
              && r == Response(200, "success", "Account deleted successfully")
              && accounts == old(accounts) - {email.value}
              && resetRows == DeleteByEmail(old(resetRows), email.value)
      ensures r.status != 200 ==> unchanged(this)
      ensures activity == old(activity) && mails == old(mails)
      ensures old(Valid()) ==> Valid()
    {
      if !Present(email) || !Present(password) || !Present(confirm) {
        return Reject("Email, password and confirm password are required");
      }
      var e, p, c := email.value, password.value, confirm.value;
      if !IsValidPassword(p) || !IsValidPassword(c) {
        return Reject(LengthMessage);
      }
      if p != c {
        return Reject(MismatchMessage);
      }
      if !IsValidEmail(e) {
        return Reject(EmailFormatMessage);
      }
      if e !in accounts {
        return Response(404, "error", "Account not found");
      }
      if !VerifyPassword(accounts[e].password, p) {
        return Response(401, "error", "Invalid password");
      }
      accounts := accounts - {e};
      if old(Valid()) {
        WhereKeepsUnique(resetRows, OtherEmail(e));
      }
      resetRows := DeleteByEmail(resetRows, e);
      r := Response(200, "success", "Account deleted successfully");
    }
  }
}
