# yii2-oauth core, modelled in Dafny

This project models the decision and bookkeeping logic of the yii2-oauth
module, an OAuth 2.0 authorisation server built on the Yii 2 framework. It
covers five pieces:

- **Scope reconciliation** (`Scopes::runInternal`). The form remembers which
  scope ids a client had when it was built. It validates the submitted ids.
  Then, inside one transaction, it deletes the ids no longer selected and
  inserts the newly selected ones. It commits only when every step succeeded
  and rolls back in `finally` otherwise.
  - `scope_store.dfy` models the client_scope table and the connection as a
    class. The class holds the rows, one savepoint per open transaction level,
    and a log of the statements issued.
  - `scopes_form.dfy` models the form as a class whose methods follow
    `runInternal` step by step. The methods are proved against the
    specification functions `Reconcile` and `Expected`.
  - `scopes_properties.dfy` proves what a run guarantees about those
    functions.
- **Client authentication** (`ClientRepository`), in `client_repository.dfy`.
  It covers the lookup of an active, non-deleted client by identifier and the
  boolean decision of `validateClient`.
- **Bearer extraction and token acceptance** (`AccessTokenService`), in
  `access_token_service.dfy`.
  - `getJwtFromRequest` is modelled for the default pattern
    `/^Bearer\s+(.*?)$/`.
  - `getAndValidateToken` and `getToken` are modelled with the JWT parser, the
    `StrictValidAt` constraint and the revocation repository as function
    values. The clock is a parameter `now`.
- **Grant types** (`ClientGrantType`), in `grant_types.dfy`. It covers the
  five constants, the keys of `grantTypeOptions()` and the validation rules of
  a (client_id, grant_type) row.
- **Expiry serialisation** (`ExpirableTrait`), in `expirable.dfy`.
  - `setExpiryDateTime` renders a date-time as `Y-m-d H:i:s` into the
    `expired_at` attribute of a record class.
  - `getExpiryDateTime` parses it back with `createFromFormat`. The space of
    the format matches any run of spaces and tabs, an empty run included;
    '-' and ':' must be there literally.

`wrappers.dfy` holds the `Option` type the other modules share.

Some behaviours of the code are modelled as written, not as a reader might
expect:

- **Delete step.** It succeeds when at least one row was deleted
  (`0 < deleteAll(...)`), not when every id to remove was deleted. A form
  built from a stale snapshot can therefore report true while the table
  differs from the selection (`ScopesProperties.StaleFormReportsTrue`). It can
  also report false and roll back even though the table already matches
  (`ScopesProperties.DeleteNeedsOneRow`).
- **Insert loop.** `$result &= save()` does not short-circuit, so a save that
  reports false does not stop the loop. A save that throws does stop it, and
  the exception leaves `runInternal` after the rollback in `finally`.
- **Nested transactions.** `beginTransaction()` on a connection whose
  transaction is already open creates a savepoint. The model assumes the
  database driver supports savepoints; Yii throws `NotSupportedException`
  there otherwise. `commit()` and
  `rollBack()` close one level. The `finally` block rolls back only while the
  level opened here is still the innermost one. The model keeps one savepoint
  per level, so a run nested in an outer transaction is covered too.
- **Token parse failure.** The parse-failure branch of `getAndValidateToken`
  builds its message from `$exception`, which is not defined there (the
  caught variable is `$e`). Reading it fails before any
  `UnauthorizedHttpException` exists. Under Yii's error handler the warning
  becomes an `ErrorException`; without it, `getMessage()` on null raises an
  `Error`. Neither is an `InvalidArgumentException` or an
  `UnauthorizedHttpException`, so a token that does not parse escapes
  `getToken` instead of becoming null. The model has a separate outcome,
  `UndefinedVariable`, for this and does not fix its message.
- **Revocation check.** An `InvalidArgumentException` from
  `isAccessTokenRevoked` is caught by the outer handler and becomes an
  `UnauthorizedHttpException`, so `getToken` gives null. Any other exception
  from it passes through `getToken`.
- **Signature check.** `getAndValidateToken` asserts only the `StrictValidAt`
  constraint and never checks the signature. The model claims no signature
  property.
- **Year field on parse.** `createFromFormat` reads 'Y' as one to four digits.
  A year before 0 or after 9999 is therefore rendered in a form the getter
  cannot read back.

## Model

| member | source | states |
|---|---|---|
| ScopesForm.Scopes.constructor | src/models/form/clients/Scopes.php:29-34 | the form starts with the client's current scope ids both remembered and selected |
| ScopesForm.Scopes.Validate | src/models/form/clients/Scopes.php:49-55 | validation passes exactly when the submission is empty or every submitted id is a known scope id; afterwards an empty submission has become the empty list |
| ScopesForm.Diff | src/models/form/clients/Scopes.php:69 | array_diff: an id is in the result exactly when it is in the first list and not in the second; the result is no longer than the first list |
| ScopesForm.SavesOf | src/models/form/clients/Scopes.php:78-84 | the insert loop issues one save per id it reaches |
| ScopesForm.SavesOfAt | src/models/form/clients/Scopes.php:78-84 | the j-th save of the loop is for the j-th id to add, with that row's outcome |
| ScopesForm.Attempted | src/models/form/clients/Scopes.php:78-84 | the loop reaches every id up to and including the first save that throws, and no save before that one throws |
| ScopesForm.InsertedMembers | src/models/form/clients/Scopes.php:79-83 | the loop stores exactly the rows of this client for the ids to add whose save succeeds |
| ScopesForm.Reconcile | src/models/form/clients/Scopes.php:64-93 | a run that does not report true leaves the table as it was; the log opens with the begin and closes with a commit when the run reports true and a rollback otherwise |
| ScopesForm.Expected | src/models/form/clients/Scopes.php:61-97 | no statement is issued exactly when the submission fails validation, and such a submission returns false with the table unchanged; a run that does not report true leaves the table as it was |
| ScopesForm.Scopes.RunInternal | src/models/form/clients/Scopes.php:61-97 | the result, the rows left and the statement log are those of `Expected`: an invalid submission returns false and issues nothing; a valid one runs `Reconcile`; every transaction level opened is closed again |
| ScopesForm.Scopes.Transact | src/models/form/clients/Scopes.php:64-93 | begin, delete, insert loop, commit when the result is true, rollback in finally: the rows, the log and the outcome are those of `Reconcile`, and the savepoints are as before |
| ScopesForm.Scopes.InsertAdded | src/models/form/clients/Scopes.php:77-84 | the loop saves the ids Attempted counts, in order; it throws exactly when some save throws; without a throw the result is the old result and-ed with every save |
| ScopesForm.Scopes.SaveNext | src/models/form/clients/Scopes.php:79-83 | one save stores its row exactly when it succeeds and appends its outcome to the log |
| ScopeStore.Database.BeginTransaction | src/models/form/clients/Scopes.php:64-65 | a new transaction level is opened over the current rows, and its level is reported |
| ScopeStore.Database.Commit | src/models/form/clients/Scopes.php:86-88 | the innermost level is closed and the rows are kept |
| ScopeStore.Database.RollBack | src/models/form/clients/Scopes.php:89-93 | the innermost level is closed and the rows return to what they were when it was opened |
| ScopeStore.Database.DeleteAll | src/models/form/clients/Scopes.php:71-73 | exactly this client's rows for the given scope ids are removed, and their number is returned |
| ScopeStore.Database.Insert | src/models/form/clients/Scopes.php:79-83 | the row is stored exactly when its save succeeds |
| ScopesProperties.TrueIffCommitted | src/models/form/clients/Scopes.php:70-88 | the run reports true exactly when the delete step removed a row (or had nothing to do) and every save succeeded |
| ScopesProperties.TransactionCloses | src/models/form/clients/Scopes.php:64-93 | the log starts with the begin and ends with a single commit when the run reports true and a single rollback otherwise; in between come only the delete and the saves |
| ScopesProperties.ThrownRollsBack | src/models/form/clients/Scopes.php:83-93 | a throwing save is the last statement before the rollback, and the table is as it was |
| ScopesProperties.ThrowIsLastAttempt | src/models/form/clients/Scopes.php:78-84 | when some save throws, the last save the loop reaches is one that throws |
| ScopesProperties.NoThrowAttemptsAll | src/models/form/clients/Scopes.php:78-84 | without a throwing save the loop reaches every id |
| ScopesProperties.AttemptLogged | src/models/form/clients/Scopes.php:78-84 | every save the loop reaches appears in the log with its outcome |
| ScopesProperties.EveryAdditionAttempted | src/models/form/clients/Scopes.php:77-84 | when no save throws, every newly selected id gets its save attempted, even after an earlier failure |
| ScopesProperties.OtherClientsUntouched | src/models/form/clients/Scopes.php:71-83 | rows of other clients are in the table after the run exactly when they were before |
| ScopesProperties.InStepCommitsIffSaved | src/models/form/clients/Scopes.php:70-88 | when the table matches the ids the form was built from, the run reports true exactly when every save succeeds, and it throws exactly when a save throws |
| ScopesProperties.AllOrNothing | src/models/form/clients/Scopes.php:64-93 | when the table matches the ids the form was built from, a true run leaves the client with exactly the selected ids, and any other run leaves the table unchanged |
| ScopesProperties.UnchangedSelection | src/models/form/clients/Scopes.php:32 | submitting the initial selection, in any order, gives empty diffs, a begin and a commit, true, and an unchanged table |
| ScopesProperties.EmptySubmissionRemovesAll | src/models/form/clients/Scopes.php:53 | an empty submission removes every remembered id; it reports false and changes nothing when none of them is in the table |
| ScopesProperties.EmptySelection | src/models/form/clients/Scopes.php:69-77 | selecting nothing removes every remembered id, with the same outcome rule |
| ScopesProperties.DiffKeepsAll | src/models/form/clients/Scopes.php:69 | array_diff keeps every entry, in order, when none is in the second list |
| ScopesProperties.DiffEmpty | src/models/form/clients/Scopes.php:77 | array_diff is empty when every entry is in the second list |
| ScopesProperties.DeleteNeedsOneRow | src/models/form/clients/Scopes.php:71 | deleting ids 1 and 2 when only 1 is stored reports true and commits; when neither is stored it reports false and rolls back |
| ScopesProperties.StaleFormReportsTrue | src/models/form/clients/Scopes.php:69-88 | a form built with ids 1, 2 and 3 whose client holds only 1, submitted with 3, deletes 1, adds nothing, reports true and commits, leaving the client without the selected id 3 |
| ScopesProperties.SavesContinueAfterFalse | src/models/form/clients/Scopes.php:83 | after a save that reports false, the next id is still saved; the run reports false and rolls back |
| ScopesProperties.ThrowStopsSaves | src/models/form/clients/Scopes.php:78-84 | after a save that throws, no later id is attempted; the run rolls back and throws |
| ClientRepository.GetClientEntity | src/components/repository/ClientRepository.php:32-41 | a returned client is in the table, active, not deleted and carries the identifier; none is returned exactly when no row passes that filter |
| ClientRepository.GetClientEntityIsFirst | src/components/repository/ClientRepository.php:35-39 | the first row that passes the filter is the one returned |
| ClientRepository.PermitsGrantType | src/components/repository/ClientRepository.php:64 | the grant type is permitted exactly when some client_grant_type row of this client carries it; a null grant type is never permitted |
| ClientRepository.ValidateClient | src/components/repository/ClientRepository.php:58-75 | acceptance implies a usable client with the identifier that permits the grant type |
| ClientRepository.UnknownClientRefused | src/components/repository/ClientRepository.php:60-66 | an identifier no usable client carries is refused, whatever secret and grant type are given |
| ClientRepository.UnpermittedGrantTypeRefused | src/components/repository/ClientRepository.php:62-66 | a grant type the client lacks is refused, whatever secret is given |
| ClientRepository.DecisionForFoundClient | src/components/repository/ClientRepository.php:70-74 | for a found client that permits the grant type, a confidential client gets secretVerify of the secret, and a public client is accepted without its secret being inspected |
| ClientRepository.ValidateClientIff | src/components/repository/ClientRepository.php:58-75 | acceptance holds exactly when the first usable client with the identifier permits the grant type and is public or its secret verifies |
| ClientRepository.FirstUsable | src/components/repository/ClientRepository.php:35-39 | when some row passes the filter, there is a first such row |
| AccessTokenService.JwtFromHeader | src/components/AccessTokenService.php:79-92 | a missing header gives null; any token returned has no newline, and the header is "Bearer", white space, the token and at most a final newline |
| AccessTokenService.JwtFromBearerHeader | src/components/AccessTokenService.php:50 | "Bearer", a run of white space, then a single-line token not starting with white space and at most a final newline gives that token back, without the newline |
| AccessTokenService.LeadingSpacesOfRun | src/components/AccessTokenService.php:50 | the greedy `\s+` takes the whole run of white space and stops at the first other character |
| AccessTokenService.JwtFinalNewline | src/components/AccessTokenService.php:50 | "Bearer x" with a final newline gives "x": `$` matches before the newline |
| AccessTokenService.JwtRefusedHeaders | src/components/AccessTokenService.php:83-91 | no header, "Basic abc", "Bearer", "Bearerx" and "bearer x" all give null |
| AccessTokenService.JwtRefusedNewline | src/components/AccessTokenService.php:50 | a newline inside the token defeats the match |
| AccessTokenService.JwtAcceptedHeader | src/components/AccessTokenService.php:87-88 | "Bearer xyz123" gives "xyz123" |
| AccessTokenService.JwtSkipsWhiteSpace | src/components/AccessTokenService.php:87-88 | the white space after "Bearer", tabs included, is stripped from the token |
| AccessTokenService.JwtEmptyToken | src/components/AccessTokenService.php:87-88 | "Bearer " gives the empty token, not null |
| AccessTokenService.GetAndValidateToken | src/components/AccessTokenService.php:118-152 | the token is returned, unchanged, exactly when the key loads, the token parses, it is valid at `now` and the repository answers that its jti is not revoked; something other than an UnauthorizedHttpException escapes exactly when the key loads and either the token does not parse (the undefined variable) or it is valid and the repository throws anything but an InvalidArgumentException |
| AccessTokenService.GetToken | src/components/AccessTokenService.php:99-110 | null exactly when getAndValidateToken is unauthorised; the same token when it returns one; whatever else escapes passes through unchanged |
| AccessTokenService.ParseFailureEscapesGetToken | src/components/AccessTokenService.php:127-131 | a token that does not parse escapes getToken as the undefined-variable failure instead of becoming null |
| AccessTokenService.RepositoryDecidesValidToken | src/components/AccessTokenService.php:143-151 | for a valid token, getToken returns it when the repository says not revoked, gives null when it says revoked or throws an InvalidArgumentException, and lets any other exception through |
| AccessTokenService.ChecksRunInOrder | src/components/AccessTokenService.php:127-145 | the outcome for an unparsable token does not depend on validity or revocation, and for an invalid token it does not depend on revocation |
| AccessTokenService.RejectedTokensAreUnauthorized | src/components/AccessTokenService.php:137-151 | a parsed token that is not valid at `now`, whose jti is revoked, or whose revocation check throws an InvalidArgumentException, is unauthorised, and getToken gives null |
| ClientGrantTypes.FromName | src/models/ActiveRecord/ClientGrantType.php:21-25 | a string is read back as a grant type only when it is that type's constant |
| ClientGrantTypes.NamesDistinct | src/models/ActiveRecord/ClientGrantType.php:21-25 | the five constants are pairwise distinct |
| ClientGrantTypes.FromNameOfName | src/models/ActiveRecord/ClientGrantType.php:21-25 | reading back a constant gives its grant type |
| ClientGrantTypes.OptionKeysAreTheConstants | src/models/ActiveRecord/ClientGrantType.php:38-47 | a string is a key of grantTypeOptions() exactly when it is one of the constants, and there are five keys |
| ClientGrantTypes.Errors | src/models/ActiveRecord/ClientGrantType.php:52-59 | client_id is flagged exactly when it is missing or not an existing client; grant_type is flagged exactly when it is missing or not one of the five |
| ClientGrantTypes.Validate | src/models/ActiveRecord/ClientGrantType.php:52-59 | a row validates exactly when both attributes are present, the client exists and the grant type is one of the five constants |
| ClientGrantTypes.ValidateIff | src/models/ActiveRecord/ClientGrantType.php:52-59 | a row validates exactly when both attributes are present, the client exists and the grant type is a key of grantTypeOptions() |
| Expirable.Parse | src/traits/ExpirableTrait.php:19 | a parsed date-time always has its fields in range |
| Expirable.Format | src/traits/ExpirableTrait.php:27 | the rendering has 19 characters for the years 0 to 9999 and more than 19 for the others, and starts with a minus sign exactly for a year before 0 |
| Expirable.Separator | src/traits/ExpirableTrait.php:19 | the space of the format always matches and leaves a suffix of the text; any other separator matches exactly when the text starts with it literally |
| Expirable.BlanksOfRun | src/traits/ExpirableTrait.php:19 | the space of the format takes the whole run of spaces and tabs, up to the first other character |
| Expirable.FixedValue | src/traits/ExpirableTrait.php:27 | a zero-padded field reads back as its value |
| Expirable.FixedOfValue | src/traits/ExpirableTrait.php:19 | re-padding a digit group to its length gives the group back |
| Expirable.FormatIsRender | src/traits/ExpirableTrait.php:27 | for years 0 to 9999 the rendering is the six fields at widths 4, 2, 2, 2, 2, 2 after their separators |
| Expirable.ParseFormat | src/traits/ExpirableTrait.php:19-27 | parsing the rendering of a valid date-time of years 0 to 9999 gives the same six fields |
| Expirable.FormatIsWellFormed | src/traits/ExpirableTrait.php:27 | that rendering has the exact 'Y-m-d H:i:s' shape and 19 characters |
| Expirable.WellFormedPositions | src/traits/ExpirableTrait.php:27 | a text of that shape has 19 characters, with '-' at 4 and 7, ' ' at 10, ':' at 13 and 16 |
| Expirable.FormatParse | src/traits/ExpirableTrait.php:19-27 | a text of that shape parses exactly when its fields are in range, and rendering the result gives the text back |
| Expirable.ReadWellFormed | src/traits/ExpirableTrait.php:19 | the reader takes the digit groups of a text of that shape and leaves nothing over |
| Expirable.BlanksBeforeHour | src/traits/ExpirableTrait.php:19-27 | the rendering is 'Y-m-d', one space and 'H:i:s'; with any run of spaces and tabs in place of that space, none included, the text still parses to the same date-time |
| Expirable.FiveDigitYearFails | src/traits/ExpirableTrait.php:19 | a text starting with five digits does not parse |
| Expirable.SignedYearFails | src/traits/ExpirableTrait.php:19 | a text starting with a minus sign does not parse |
| Expirable.WideYearsDoNotRoundTrip | src/traits/ExpirableTrait.php:19-27 | a year before 0 or after 9999 is written in a form the getter cannot read back |
| Expirable.Record.ExpiryDateTime | src/traits/ExpirableTrait.php:16-20 | a date-time read from `expired_at` has its fields in range, and when the attribute has the exact shape, rendering the result gives the attribute back; nothing is changed |
| Expirable.Record.SetExpiryDateTime | src/traits/ExpirableTrait.php:25-28 | only `expired_at` changes, to the rendering; for years 0 to 9999 it has the exact 19-character shape and the getter returns the same date-time |

## Left out

- The configuration checks of the two `init` methods are left out; each throws `InvalidConfigException`. `ClientRepository::init` checks that `modelClass` implements `ClientEntityInterface`. `AccessTokenService::init` resolves `accessTokenRepository` and checks that it implements `AccessTokenRepositoryInterface`, checks that `tokenHeader` and `tokenPattern` are set, and checks that `publicKey` (the module's key by default) is a `CryptKey`. No key file is read in `init`.
- Reading the public key file happens when `getAndValidateToken` builds the JWT configuration. The model reduces it to `keyError`, an optional message from building that configuration.
- The JWT library is left out: compact-token decoding, RSA-SHA256 and building `Configuration`. The parser, the `StrictValidAt` window and the `jti` claim are function values, and the system clock is the parameter `now`.
- Only the default `tokenPattern` is modelled, not general regular expressions. Header values are strings, and PCRE's `\s` is the six ASCII white-space characters.
- The password hashing behind `secretVerify` and any timing behaviour are left out. `secretVerify` is a function value.
- ActiveRecord queries become in-memory tables. `clientScopes` becomes the list of scope ids the form is built with, and `scopeOptions()` becomes the set of known scope ids. The scope names and all localised labels are left out.
- `ScopesForm.Scopes.Transact`: `deleteAll`, `beginTransaction`, `commit` and `rollBack` never throw in the model. Only a row's save may throw. Database concurrency and isolation are left out.
- What a save does is given up front as `SaveFaults`: the rows whose save reports false and the rows whose save throws. Validation messages and the exception's content are not modelled.
- `ScopesForm.Scopes.Validate`: a submission is a list of ids or empty (null or ''). Non-array scalar submissions, and PHP's loose comparison of '1' with 1 in the range check, are left out.
- `Expirable.Parse`: `createFromFormat` rolls a field that is out of range over into the next one (a month 13 becomes January of the next year). The model refuses such text instead.
- `Expirable.Separator`: recent versions of PHP's date parser also let the space of the format match non-breaking spaces. The model takes spaces and tabs only.
- `ScopeStore.Database.Insert`: a save's outcome depends only on its row, given up front. The unique (client_id, scope_id) key of client_scope is not modelled. A submission that repeats an id, or an id whose row is stored although the form was built without it, saves that row as if it were new. The real table refuses the second copy, so that run reports false or throws and rolls back. `ScopesProperties.InStepCommitsIffSaved` and `ScopesProperties.TrueIffCommitted` inherit this.
- `Expirable.Record.ExpiryDateTime`: a missing `expired_at` is taken to make the getter fail, as the empty string does. From PHP 8.1 on, passing null to `createFromFormat` raises a deprecation notice, which Yii's error handler can turn into an `ErrorException` instead.
- Time zones and fractions of a second are left out. A date-time is six integer fields of the proleptic Gregorian calendar.
- src/traits/IdentifiableTrait.php only forwards to attribute storage. It is not part of this model.
