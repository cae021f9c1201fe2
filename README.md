# Registration chain of the PizzaParlor auth routes, in Dafny

This project models the `POST /` registration chain of `routes/register.js`.
The chain is three Express handlers run in order, and the first one that
answers decides the response:

1. **Presence check.** `first`, `last`, `email` and `password` must all be
   provided. Otherwise the answer is 400 "Missing required information".
2. **Password requirement.** The rules are checked in a fixed order, and the
   first one that fails wins:
   - at least 8 characters ("password should be atleast 8 characters!");
   - a capital `A`–`Z` ("Your password needs a capital letter!");
   - a digit `0`–`9` ("Your password needs atleast one number!").
3. **Insert.** Presence is checked again. Then the chain builds the insert
   `[first, last, email, hash(password, salt), salt]` and maps the store's
   answer to a response:
   - success gives 201 `{success: true, email}`;
   - a violation of `members_email_key` gives 400 "Email exists";
   - any other error gives 400 with the error's `detail`.

Files:

- `wrappers.dfy`: the `Option` type.
- `password_policy.dfy` (module `PasswordPolicy`) models the second handler.
  - It models the two regular expressions by how `RegExp.prototype.test`
    matches them. It tries every start index. In the lookahead
    `(?=.*[A-Z])`, `.` does not match the four JavaScript line terminators.
    Lemmas prove that these tests are exactly "contains a capital" and
    "contains a digit".
  - The if/else-if chain is a pure function, `CheckPassword`.
  - `ValidatePassword` is a method that updates `validPassword` and
    `message` step by step, as the handler does. It is proved against the
    policy.
  - The rules are also listed in order as `Rules`, with `FirstFailing` as an
    independent first-failure reference.
- `registration.dfy` (module `Registration`) holds:
  - the request, the insert, the store's answer and the response;
  - the three stages (`PresenceCheck`, `PasswordRequirement`,
    `InsertMember`);
  - the store mapping (`MapStoreResult`);
  - the whole chain (`Register`), which returns an `Outcome`: the insert
    it attempted, if any, and the response it sent.

Parameters stand in for what the source gets from outside:

- the salt (`crypto.randomBytes(32).toString("hex")`) is the `salt`
  parameter;
- the hash (`getHash`) is an uninterpreted `hash: (string, string) -> string`;
- the database is `store: Insert -> StoreResult`, so the store's answer can
  depend on the insert it receives.

The model assumes how `isProvided` behaves: a field counts as provided when
it is present and is not the empty string. `isProvided` lives in a
utilities file that is not part of this model. The assumption follows the
source's own comment at routes/register.js:60. It is not verified behaviour.

## Model

| member | source | states |
|---|---|---|
| PasswordPolicy.CapitalsSearchFromIff | routes/register.js:74 | trying the lookahead `.*[A-Z]` from every start index at or after `i` succeeds iff some character at or after `i` is in `A`..`Z` |
| PasswordPolicy.CapitalsRegexTestIff | routes/register.js:74 | `(?=.*[A-Z])`.test(s) holds iff `s` contains a capital anywhere, line terminators notwithstanding |
| PasswordPolicy.DigitSearchFromIff | routes/register.js:75 | searching `[0-9]` from index `i` succeeds iff some character at or after `i` is a digit |
| PasswordPolicy.DigitRegexTestIff | routes/register.js:75 | `[0-9]`.test(s) holds iff `s` contains a digit |
| PasswordPolicy.FirstFailing | routes/register.js:83-92 | the rule returned is broken and every rule before it holds; none is returned iff every rule holds |
| PasswordPolicy.ValidatePassword | routes/register.js:77-92 | after the step-by-step updates, `validPassword` holds iff length >= 8, a capital and a digit are present; then `message` is empty; otherwise `message` is the policy's rejection message |
| PasswordPolicy.TooShortWins | routes/register.js:83-85 | a password shorter than 8 is rejected with "password should be atleast 8 characters!", whatever it contains |
| PasswordPolicy.MissingCapitalReported | routes/register.js:86-88 | a password of length >= 8 with no `A`..`Z` is rejected with "Your password needs a capital letter!" |
| PasswordPolicy.MissingDigitReported | routes/register.js:89-91 | a password of length >= 8 with a capital and no `0`..`9` is rejected with "Your password needs atleast one number!" |
| PasswordPolicy.AcceptedIff | routes/register.js:77-102 | the password is accepted iff length >= 8 and it has a capital and a digit |
| PasswordPolicy.FirstFailingRuleReported | routes/register.js:77-92 | the policy's verdict is the message of the first rule, in the order length, capital, digit, that the password breaks, and acceptance when it breaks none |
| PasswordPolicy.MessagesIdentifyRule | routes/register.js:84-90 | the three rejection messages are pairwise different, so a message names exactly one rule (used by Registration.WeakPasswordRejected) |
| Registration.MissingFieldRejected | routes/register.js:61-67 | a request missing any of the four fields gets 400 "Missing required information" and no insert is attempted |
| Registration.WeakPasswordRejected | routes/register.js:83-98 | a complete request with a weak password gets 400 with the message of the first rule, in the order length, capital, digit, that it breaks; that message names no other rule; no insert is attempted |
| Registration.InsertIffValid | routes/register.js:61-124 | an insert is attempted iff all four fields are provided and the password meets the policy |
| Registration.RecheckAlwaysPasses | routes/register.js:114-150 | once the first handler passed the request on, the third handler's presence check holds, so its missing-information branch is never taken from the chain |
| Registration.InsertValuesInOrder | routes/register.js:118-124 | an attempted insert uses the MEMBERS insert query with values exactly [first, last, email, hash(password, salt), salt] |
| Registration.StoreAnswerMapped | routes/register.js:126-145 | for a valid request: store success gives 201 {success: true, email returned by the store}; constraint "members_email_key" gives 400 "Email exists"; any other error gives 400 with the error's detail |
| Registration.CreatedIffStored | routes/register.js:126-145 | status 201 is sent iff the request is valid and the store accepted the row; every other outcome is a 400 with a `Failed` body |
| Registration.NoUsernameExistsMessage | routes/register.js:40 | a "Username exists" response arises only from a valid request whose store error carries that very detail under a constraint other than the email key; the chain never chooses that message itself |

## Left out

- Express routing, the `request`/`response` objects and `next()`. The chain
  is one function that returns an `Outcome`. A stage that returns `None`
  stands for `next()`.
- `pool.query` and its promise. It is database I/O, so the store's answer is
  the `store` parameter. The model reads `result.rows[0].email` directly as
  the `InsertOk` payload.
- `crypto.randomBytes` and `getHash`. They are random or foreign code, so
  they are the `salt` and `hash` parameters. The model claims nothing about
  collisions, about one-wayness, or about salted versus unsalted hashes.
- The `GET /hash_demo` endpoint (routes/register.js:153-165). It only draws
  randomness and calls the foreign hash, so there is no logic of its own to
  check.
- The `console.log` diagnostics, and the blank-password check, which the
  source has commented out.
- Concurrent registrations and the duplicate-email race. The database's
  unique constraint settles those, not this code.
- Registration.Provided: claims only the behaviour the source comment
  describes for `isProvided`: a field that is absent, undefined or null
  (`None`) or the empty string is not provided.
  `isProvided` itself is not part of this model.
- Body values that are not strings (numbers, objects, where `.length` would
  differ or be undefined). Every field is a `string`.
- PasswordPolicy.CheckPassword: measures length in Unicode scalar values.
  JavaScript's `.length` counts UTF-16 code units, so the two differ for
  characters outside the Basic Multilingual Plane.
