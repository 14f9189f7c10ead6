# User registrations and password reset — a Dafny model

This project models the user-account web application in `app.py`. The
application keeps one document collection, `user_registrations`. Its handlers
register a user, log in, look up a registration by number, issue a
password-reset token by mail, and reset the password with that token.

The collection is an in-memory table: a sequence of `Record`s in insertion
order. `find_one` and `update_one` act on the first document that matches
their filter (`Records.FirstMatch`).

- `Collection.UserCollection` is the collection object. It is updated in place by `InsertOne` and `UpdateOne`.
- `App` holds the three handlers that write: `Register`, `ForgotPassword` and `ResetPassword`. Each is a method over the collection. `Register` inserts without any lookup; `ForgotPassword` and `ResetPassword` read with `find_one`, run the original checks in the original order, then write once.
- `Handlers` states what each handler does as a function of the table before the request. It also holds the two read-only handlers, `Login` and `Lookup`, which are functions and so cannot change the table.
- `Properties` relates several requests, such as register then log in, or issue a token, reset, then reuse it.
- `Scenario.ResetFlow` runs one user through these handlers on the collection object, from its contracts alone.

The reset token lifecycle is: no token → token active (`resetToken` and
`resetExpiry` both set) → no token. Expiry is a guard on the way back, and
nothing clears an expired token.

The environment is passed in as parameters:
- the clock is `now`, in whole seconds;
- the token from `secrets.token_urlsafe(16)` is `token`;
- the output of `generate_password_hash` is `hash` or `req.newHash`;
- `check_password_hash` is the function parameter `verify`;
- the result of the SMTP exchange is `mailSent`.

The expiry comparison in the code is strict (`expiry < now` is expired,
app.py:152). So a reset requested at the expiry instant itself is still
accepted; with the model's whole-second clock, that is a request at
`now == expiry`.

## Model

| member | source | states |
|---|---|---|
| `Records.FirstMatch` | app.py:31 | the position `find_one` selects: the first document the filter matches, or none exactly when no document matches |
| `Records.FindOne` | app.py:105 | `find_one` returns the first matching document, and nothing exactly when no document matches |
| `Records.UpdateFirst` | app.py:166-172 | `update_one` rewrites only the first matching document; the length and every other document stay as they were; with no match the table is unchanged |
| `Collection.UserCollection.constructor` | app.py:16 | a new collection holds no documents |
| `Collection.UserCollection.InsertOne` | app.py:63 | `insert_one` appends the document and keeps every earlier one |
| `Collection.UserCollection.UpdateOne` | app.py:109-117 | `update_one` in place: the new table is `UpdateFirst` of the old one; it reports whether any document matched |
| `Text.UpperChar` | app.py:80 | an upper-cased character is never an ASCII lower-case letter; `a`-`z` map to their capitals and every other character is kept |
| `Text.Upper` | app.py:80 | `str.upper` keeps the length and upper-cases each character in its place |
| `Text.UpperHasNoLower` | app.py:80 | an upper-cased string holds no lower-case letter |
| `Text.UpperIdempotent` | app.py:80 | upper-casing twice equals upper-casing once |
| `Handlers.Login` | app.py:31-39 | "user not found" exactly when no document has the email; otherwise the first document with the email decides: success exactly when `verify(storedHash, password)`, "invalid password" exactly when not |
| `Handlers.Register` | app.py:53-63 | appends exactly one document with the form fields as typed, the supplied hash and no token fields, with no duplicate check; earlier documents are unchanged and every query that had an answer keeps it; the paired-token and unique-token invariants are preserved |
| `Handlers.Lookup` | app.py:78-81 | none exactly when no document's number equals the upper-cased query; otherwise the first such document, whose number never holds a lower-case letter |
| `Handlers.LookupIgnoringCase` | app.py:78-81 | corrected lookup: none exactly when no number equals the query up to case; otherwise the first document whose number equals the query up to case |
| `Handlers.ForgotTable` | app.py:104-117 | unknown email: table unchanged; known email: the first document with it gets the token and an expiry of `now + 3600`, and every other document and field is unchanged; keeps tokens paired, and keeps them unique when the token is fresh |
| `Handlers.ForgotOutcomeOf` | app.py:104-139 | "email not found" exactly when no document has the email; otherwise "link sent" or "error sending" according to the mail outcome alone |
| `Handlers.ResetPassword` | app.py:148-177 | the checks run in order: invalid token exactly when no document holds it; expired exactly when the first holder's expiry is strictly before `now`; then a GET shows the form; confirmation mismatch is reported before length; a password under 6 characters is refused; every refusal leaves the table unchanged; success sets the new hash and removes both token fields on the first holder only; keeps tokens paired and unique |
| `App.Register` | app.py:44-66 | the collection after POST /register is `Handlers.Register` of the collection before |
| `App.ForgotPassword` | app.py:99-140 | the collection after the request is `Handlers.ForgotTable` of the one before, whatever the mail outcome; the outcome is `Handlers.ForgotOutcomeOf` |
| `App.ResetPassword` | app.py:143-177 | the outcome and the collection after the request are those `Handlers.ResetPassword` gives; tokens stay paired |
| `Properties.RegisterThenLogin` | app.py:31-63 | registering a new email and then logging in succeeds exactly for passwords the stored hash verifies, and reports "invalid password" otherwise |
| `Properties.DuplicateRegistrationIsShadowed` | app.py:53-63 | registering an email already present still appends a document, but login answers exactly as before, from the earlier document |
| `Properties.ForgotThenReset` | app.py:104-172 | after a token is issued to a known email, a matching long-enough password is accepted up to and including `issued + 3600` and refused as expired after it |
| `Properties.ResetIsSingleUse` | app.py:148-172 | with unique tokens, after a successful reset no document holds the token and any later request with it is an invalid token |
| `Properties.RejectedResetKeepsTokenActive` | app.py:155-177 | a mismatch, a too-short password or a GET leaves the table unchanged, so a valid submission at the same time then succeeds |
| `Properties.ResetThenLogin` | app.py:31-39 | after a successful reset of the first document with its email, login with that email succeeds exactly for passwords the new hash verifies |
| `Properties.ForgotResetThenLogin` | app.py:104-172 | a token issued to a known email and used before it expires with a matching, long enough password leaves a table where login with that email succeeds exactly for passwords the new hash verifies |
| `Scenario.ResetFlow` | app.py:44-177 | on a fresh collection: register, request a reset, reset within the hour, then log in; the reset succeeds, the login with the new password succeeds, and reusing the link is an invalid token; the forgot outcome depends on the mail result alone |
| `Properties.NewTokenRevokesOld` | app.py:104-117 | asking again for a reset with a fresh token replaces the active token, so the old token becomes invalid |
| `Properties.LookupMissesLowerCaseNumber` | app.py:60 | a number registered as `ab1` is found neither by `ab1` nor by `AB1`; the corrected lookup finds it |
| `Properties.RegisteredNumberIsFoundIgnoringCase` | app.py:78-81 | with the corrected lookup, a newly registered number is found by a query in any case, unless an earlier document has the same number up to case |

## Left out

- Rendering, redirects and routing: `render_template`, `redirect`/`url_for`, the `index` route, and the message choice on GET `/success`. These are presentation only. The handlers return an outcome value instead.
- The database connection and the `/mongodb` ping (app.py:13-16, app.py:181-187) are I/O against the driver. Only the table semantics of `find_one`, `insert_one` and `update_one` are modelled.
- SMTP sending (app.py:123-136) is network I/O. It is the boolean `mailSent`, which only selects the reported outcome.
- Token generation, password hashing and the clock are library randomness, cryptography and time. They are parameters (`token`, `hash`/`newHash`, `now`), and hash checking is the uninterpreted parameter `verify`. Timestamps are whole seconds, not `datetime` values.
- Races between concurrent requests are not modelled. Each request runs alone on the table.
- `print` logging is left out.
- `Text.UpperChar`: models `str.upper` on one character for the ASCII letters only; every other character is kept, where Python also maps other scripts (`é` becomes `É`, `ſ` becomes `S`).
- `Text.Upper`: models `str.upper` on the ASCII letters only. Python also upper-cases other scripts, and sometimes changes the length (`ß` becomes `SS`).
- `Handlers.ResetPassword`: requires that every document's token fields are paired. The original reads `reset_token_expiry` from the token's holder and would fail with a `KeyError` if the field were missing. Every modelled operation preserves the pairing, and the empty collection has it.
- `Properties.ResetIsSingleUse`: assumes that no two documents share a token. `update_one` clears only the first holder, so a second document holding a colliding token would keep it. Token uniqueness is kept by every operation when the issued token is fresh.
- Mongo `_id` and any fields beyond the five form fields and the two token fields are not modelled.

## Findings

| source | as written | input that shows it | evidently intended | confidence | as-written member | corrected member |
|---|---|---|---|---|---|---|
| app.py:78-81 | the query is upper-cased, but the stored number is compared as typed at registration (app.py:60) | register number `ab1`; look up `ab1` or `AB1`: nothing is found | registration numbers compared without regard to case | medium; not executed | `Handlers.Lookup`, shown by `Properties.LookupMissesLowerCaseNumber` | `Handlers.LookupIgnoringCase`, proved by `Properties.RegisteredNumberIsFoundIgnoringCase` |
