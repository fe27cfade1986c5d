# Credential and reset-code lifecycle of an Express authentication API

This project models, in Dafny, the logic at the centre of a small Express
authentication service (`index.js`). The service keeps accounts in a
`Contas` table (e-mail, bcrypt hash, creation time, last login) and
password-reset codes in a `ChangePassword` table (e-mail, code, expiry
time). Five request handlers work on the two tables:

- `/register` creates an account.
- `/login` checks a password and stamps `last_login`.
- `/forgot-password` replaces the reset code of an e-mail and mails it.
- `/reset-password` exchanges an unexpired code for a new password hash.
- `/delete-account` removes an account and its reset codes.

The model has one module per component:

- `Validation`: `isValidEmail` is the regular expression
  `^[^\s@]+@[^\s@]+\.[^\s@]+$`, written as a split of the string into three
  words. `ValidEmailIff` proves it equal to a description that does not use
  the expression: no whitespace, exactly one `@`, something before it, and a
  dot after it that is neither first nor last. `IsValidPassword` is the
  length bound the code enforces, 6 to 20 characters. The handlers' error
  message says "between 8 and 20"; the model keeps both as the code has them.
- `Passwords`: bcrypt is abstracted. A digest records its salt, the cost
  factor 12 and the password it stands for. `VerifyPassword(EncryptPassword(p, salt), p)`
  holds, and a digest verifies against no other password.
- `ResetCodes`: `generateResetCode` is Node's hex encoding of four random
  bytes. Its decoder is proved to be an inverse in both directions. From
  that, codes are exactly the 8-character strings over `0-9a-f`, and
  different bytes give different codes.
- `Timestamps`: expiry is decided by JavaScript's `>` on
  `YYYY-MM-DD HH:mm:ss` strings. `StrLess` models that comparison and is
  proved to be a strict total order. `ExpiryIsCalendarOrder` proves that, on
  formatted timestamps, it agrees with calendar (wall-clock) order.
- `Tables`: the `.eq(...)` filters, `.delete()` and `.single()` of the store
  client, as functions over the `ChangePassword` rows.
- `Handlers`: class `AccountStore` holds the two tables as fields, plus logs
  of `logActivity` calls and of delivered reset mails. Each handler is a
  method with the source's guards in the source's order. Each returns a
  `Response(status, key, message)`. Its contract states:
  - the answer of every guard;
  - the whole new state on success;
  - that every 400, 401 and 404 answer changes nothing (the 500 of `/forgot-password` keeps its inserted row, as described below);
  - that the table invariant is preserved: at most one reset row per
    e-mail, and only for existing accounts.
- `Scenarios`: request sequences over one store built from given tables.
  These cover a double registration, register-then-login, the reset
  workflow, an expired code, and login after deletion. They also cover the
  login and forgot-password answers that do or do not reveal whether an
  account exists, and the different guard orders of register and
  delete-account.

The clock, the random bytes, the bcrypt salt and the outcome of the mail
transport are parameters of the handlers.

Three behaviours of the code that its messages and intent do not suggest:

- A failed reset mail makes `/forgot-password` answer 500 "an error
  occurred", not 200. `sendResetEmail` rethrows, and the handler's catch
  answers 500. The reset row is already inserted at that point and stays.
- For an unknown e-mail, `/forgot-password` answers under the key `sucess`.
  For a known one the key is `success`. The status and message are the same
  in both cases. `ForgotPasswordKeyRevealsAccount` shows that the key alone
  tells the two cases apart.
- An expired code is answered with "Code has expired". The row is left in
  place.

## Model

| member | source | states |
|---|---|---|
| Validation.ValidEmailIff | index.js:66-69 | the e-mail expression accepts a string exactly when it has no whitespace, exactly one `@` with something before it, and a `.` after the `@` that is neither the first nor the last character of the domain part |
| Validation.AcceptsPlainAddress | index.js:66-69 | `a@b.com` is accepted |
| Validation.RefusesDomainWithoutDot | index.js:66-69 | `a@bcom`, with no dot after the `@`, is refused |
| Validation.RefusesWhitespace | index.js:66-69 | `a b@c.com`, which contains a space, is refused |
| Validation.EmailExamples | index.js:66-69 | `a@b.com` is accepted; `a@bcom` (no dot) and `a b@c.com` (whitespace) are refused |
| Validation.IsValidPassword | index.js:71-73 | a password passes exactly when its length is 6 to 20; lengths 6 and 7 pass although the handlers' message says the minimum is 8 |
| Passwords.EncryptPassword | index.js:33-37 | a hash made with a salt and cost factor 12 verifies against the password it was made from |
| Passwords.VerifyOnlyOwnPassword | index.js:39-41 | `bcrypt.compare` of a hash accepts its own password and no other |
| Passwords.SaltsSeparateDigests | index.js:33-37 | hashing one password with two different salts gives two different digests, both of which verify |
| ResetCodes.HexEncode | index.js:168-170 | hex encoding writes two lower-case hexadecimal characters per byte |
| ResetCodes.HexDecode | index.js:168-170 | decoding a hex string yields half as many bytes as characters |
| ResetCodes.DecodeEncode | index.js:168-170 | decoding the hex encoding of any bytes gives the bytes back |
| ResetCodes.EncodeDecode | index.js:168-170 | every string that decodes is the encoding of what it decodes to |
| ResetCodes.HexStringsDecode | index.js:168-170 | every even-length string of lower-case hex digits decodes |
| ResetCodes.GenerateResetCode | index.js:168-170 | a reset code from 4 random bytes is 8 characters long, each in `0-9a-f` |
| ResetCodes.ResetCodeInjective | index.js:168-170 | different random bytes never give the same reset code |
| ResetCodes.ResetCodeRange | index.js:168-170 | the possible reset codes are exactly the 8-character lower-case hex strings |
| Timestamps.IsExpired | index.js:261 | a code is not expired at the very second of its expiry; for different strings it is expired exactly when the current time does not sort before the expiry |
| Timestamps.StrLessIrreflexive | index.js:261 | no timestamp string is later than itself |
| Timestamps.StrLessTransitive | index.js:261 | the string comparison used for expiry is transitive |
| Timestamps.StrLessTotal | index.js:261 | of two different strings exactly one is greater |
| Timestamps.StrLessAppend | index.js:261 | strings whose first parts have equal length compare on the first parts, then on the rest |
| Timestamps.DigitsOrder | index.js:205 | zero-padded fixed-width numerals compare, and are equal, exactly as the numbers do |
| Timestamps.RenderOrder | index.js:205 | a fixed layout of zero-padded fields compares as its field values compare, first field first |
| Timestamps.ExpiryIsCalendarOrder | index.js:259-263 | for `YYYY-MM-DD HH:mm:ss` timestamps, "current time > expiry" as strings holds exactly when the expiry lies strictly before the current time in calendar order |
| Timestamps.FormatPieces | index.js:205 | a formatted timestamp is the year in 4 digits, `-`, month, `-`, day, a space, hour, `:`, minute, `:`, second, each of the last five in 2 digits |
| Timestamps.DigitsExample | index.js:205 | the numerals of 2024-03-09 17:05:00 are `2024`, `03`, `09`, `17`, `05` and `00`: zero-padded on the left |
| Tables.Where | index.js:248-253 | a filtered query returns exactly the rows of the table that pass the filter, never more rows than the table has; copies are counted by `Tables.WhereCounts` |
| Tables.WhereCounts | index.js:248-253 | a filter keeps every copy of each row it keeps and none of the rows it drops: it never merges duplicates |
| Tables.DeleteByEmail | index.js:209 | deleting by e-mail leaves exactly the rows of other e-mails |
| Tables.DeleteByCode | index.js:273-277 | deleting by (e-mail, code) leaves exactly the rows that do not have both that e-mail and that code |
| Tables.DeleteCounts | index.js:273-277 | both deletes (by e-mail at line 209, by e-mail and code here) keep every copy of each row they keep and remove every copy of the rows they match |
| Tables.SelectByCode | index.js:248-257 | `.single()` on an (e-mail, code) lookup returns only a row of the table with that e-mail and code |
| Tables.SeveralMatchesNotSelected | index.js:248-256 | when two rows of the table (even two copies of one row) match the lookup, `.single()` returns no row, so the handler answers "Invalid or expired code" |
| Tables.SelectedRowIsOnlyMatch | index.js:248-256 | the row `.single()` returns occurs once in the table and is the only row matching the lookup |
| Tables.WhereKeepsUnique | index.js:209 | deleting rows keeps "at most one reset row per e-mail" |
| Tables.SelectFindsExisting | index.js:248-257 | with at most one row per e-mail, the (e-mail, code) lookup finds a row exactly when one exists, and returns that row |
| Tables.ReplaceKeepsUnique | index.js:209-225 | deleting an e-mail's rows and inserting one new row for it keeps e-mails unique |
| Tables.ReplaceLeavesOneRow | index.js:209-225 | after forgot-password's delete-then-insert, the e-mail has exactly the new row; after the delete alone it has none |
| Tables.SoleRowIsSelected | index.js:221-225 | a row that is the only one of its e-mail is what the (e-mail, code) lookup returns |
| Tables.DeletedCodeNotFound | index.js:273-277 | once a code's row is deleted, the lookup of that (e-mail, code) finds nothing |
| Handlers.Present | index.js:79 | a body field passes the handlers' `!field` guards exactly when it is sent and is not the empty string |
| Handlers.AccountStore.LookupFindsExisting | index.js:248-256 | in a store whose tables keep the invariant, the reset lookup finds a row exactly when a row with that e-mail and code exists |
| Handlers.AccountStore.Register | index.js:75-123 | 400 for a missing field, then a bad length of either password, then a bad e-mail, then a mismatch; 400 key `fail` for an existing e-mail; otherwise 200, exactly one new account with the hash, `created_at` = now, `last_login` = null, and one `logs_register` activity call; rejections change nothing; the table invariant is kept |
| Handlers.AccountStore.Login | index.js:125-166 | 400 for missing fields, a bad length, a bad e-mail; the same 401 answer for an unknown e-mail and a wrong password; on success only that account's `last_login` changes and one `logs_login` call is made; rejections change nothing |
| Handlers.AccountStore.ForgotPassword | index.js:198-234 | 400 when the e-mail is missing; otherwise every reset row of the e-mail is deleted; an unknown e-mail gets 200 under key `sucess` and no new row; a known one gets one row with the generated code and expiry, then 200 `success` with a mail sent, or 500 if the transport fails; afterwards the e-mail has at most that one row; accounts never change |
| Handlers.AccountStore.ResetPassword | index.js:236-284 | 400 for missing fields, a bad new-password length, no single (e-mail, code) row ("Invalid or expired code"), a current time after the stored time ("Code has expired"); otherwise 200, the account's hash replaced and that (e-mail, code) row deleted; rejections change nothing |
| Handlers.AccountStore.DeleteAccount | index.js:286-330 | 400 for a missing field, a bad length, a mismatch, then a bad e-mail; 404 for an unknown account; 401 for a wrong password; otherwise 200, the account and every reset row of its e-mail removed; rejections change nothing |
| Scenarios.RegisterTwice | index.js:96-118 | registering a new valid address succeeds with "Account created", and registering it again answers 400 `fail` "Account already exists" |
| Scenarios.RegisterThenLogin | index.js:106-161 | a freshly registered account logs in with its password |
| Scenarios.LoginHidesWhichCheckFailed | index.js:148-156 | an unknown e-mail and a wrong password get the identical 401 answer |
| Scenarios.ForgotPasswordKeyRevealsAccount | index.js:217-229 | unknown and known e-mails get the same status and message but different keys (`sucess` against `success`) |
| Scenarios.ResetCodeWorksOnce | index.js:198-279 | the mailed code, used before its expiry, resets the password once; the new password logs in; the same code is then refused with "Invalid or expired code" |
| Scenarios.ExpiredCodeKeepsPassword | index.js:259-263 | an expired code is refused with "Code has expired" and the old password still logs in |
| Scenarios.DeletedAccountCannotLogIn | index.js:305-325 | after a successful delete, login with the same credentials gets the generic 401 answer |
| Scenarios.GuardOrderDiffers | index.js:87-93 | a request with a bad e-mail and mismatched passwords is refused for the e-mail by register and for the mismatch by delete-account |
| Scenarios.ResetRefusesOnlyMissingCodes | index.js:248-256 | on tables that keep the invariant, a well-formed reset request is answered "Invalid or expired code" exactly when no row has its e-mail and code |

## Left out

- `logActivity` (index.js:43-64) calls the ipify and proxycheck services and inserts into a log table, swallowing every error. Both calls are network I/O. The model only records the call, and records it only on register and login success.
- `sendResetEmail` (index.js:172-196) is SMTP through nodemailer. The model reduces it to a "delivered" flag and a log of sent mails.
- bcrypt internals (salt generation, the cost factor's work, the 72-byte input limit, malformed hashes) are a library outside the model. The digest abstraction assumes no two passwords share a hash.
- Express setup, helmet, CORS, the rate limiter (5 requests per minute) and `app.listen` are framework plumbing.
- moment's clock and `crypto.randomBytes` are nondeterministic sources; the model takes them as parameters. The "+15 minutes" calendar arithmetic that produces the expiry string is not modelled: `ForgotPassword` receives the expiry string.
- Timestamps.ExpiryIsCalendarOrder: applies to the reset handler only if the `ChangePassword.time` column gives back the formatted string exactly as it was inserted, which the model assumes. If the column were a timestamp type, the store would answer in another layout, such as `YYYY-MM-DDTHH:mm:ss`, and the string comparison would behave differently.
- The 500 answers for store failures, and the check-then-insert race in register, concern the external database. `Contas` is a map keyed by e-mail, so the duplicate accounts that such a race could create are not modelled.
- Body fields are modelled as absent-or-string. Non-string JSON values (numbers, booleans, objects) are not modelled.
- Validation.IsValidPassword: counts Unicode scalar values, not UTF-16 code units. `"😀😀😀"` has length 6 in JavaScript and passes, but has length 3 in the model and fails.
- Lengths and string order are counted in Unicode scalar values rather than JavaScript's UTF-16 code units. The two differ only for characters outside the Basic Multilingual Plane, which timestamps never contain. They do matter for `isValidPassword`.
- Timestamps.ExpiryIsCalendarOrder: says nothing about elapsed time. `now` and the expiry are local wall-clock strings from moment, so across a daylight-saving or other time-zone offset change, calendar order and elapsed-time order differ. For example, when clocks fall back, a code that expired just before the change is accepted again in the repeated hour, and a code issued in the first pass of that hour is refused at once.
- Timestamps.ExpiryIsCalendarOrder: stated only for timestamps whose year is below 10000 and whose other fields are below 100, because moment writes longer years with more digits.
