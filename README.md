# MToken identity gateway: resolve and register, modelled in Dafny

This project models the core of a digital-identity gateway. A caller presents an
application id and a mobile token. The resolve endpoint trades application
credentials for a bearer token at the government authority (GDX). It then fetches
the citizen's profile from the profile authority (Deproc) and looks the citizen up
in the `personal_data` table. The reply is either `found`, with the stored record,
or `new_user`, with the profile as a registration draft. The register endpoint
writes a submission with one atomic `INSERT … ON CONFLICT (citizen_id) DO UPDATE`.
Only `mobile` and `additional_info` of an existing row are overwritten. Beside them
sit the shared helpers: the token helper, the error classifier, required-field
validation and field extraction.

Files (one module each):

- `wrappers.dfy`: `Option`, and a `Result` whose failure is a JavaScript error message.
- `js_values.dfy`: JavaScript values after JSON parsing, written out explicitly.
  Truthiness: `undefined`, `null`, `false`, `0` and `""` are falsy. Also here:
  property access with and without optional chaining (the latter throws V8's
  TypeError on a nullish value), the outcome of one axios call, and an incoming request.
- `constants.dfy`: the message literals the helpers use.
- `utils.dfy`: `getGdxToken` (its decision logic over the HTTP outcome),
  `handleApiError`, `validateRequired` and `extractField`.
- `identity_store.dfy`: the `personal_data` table.
  - Cells are written and read the way node-postgres does.
  - Rows are keyed by citizen id. PostgreSQL's UNIQUE admits any number of NULL
    citizen ids, so those rows are keyed by their primary key instead.
  - The three statements are pure functions of the table. A `Store` class holds
    the table and a connection outage, and its methods are proved against those functions.
- `login.ts` → `login.dfy`: the resolve handler. It is a method over the store. The
  two outbound replies are inputs, and it returns the JSON reply plus the list of
  external calls it made.
- `register.ts` → `register.dfy`: the register handler, as a method that modifies the store.

Behaviour of the code that the model keeps:

- The NEW_USER draft echoes the profile's `mobile` verbatim; the contact fields
  are not left empty.
- Registration passes absent fields on as `undefined`, which the database stores
  as NULL. Nothing normalises them.
- The resolve endpoint's own token helper does not reject an empty `Result`; only
  the shared helper in the utilities does.
- A profile-less reply fails with the message "Deproc returned NULL", as any other
  failure would.
- A FOUND reply carries the user id, citizen id, names, mobile and additional
  information, not only the contact fields.
- `user_id` is the primary key and so NOT NULL, and that constraint is checked
  before any conflict on `citizen_id` is looked for. Any registration without a
  `userId` therefore fails, whether or not its citizen id is already stored; a body
  holding only citizen id, mobile and additional information is rejected.
- The database, not the handler, checks the values. A text holding the character
  U+0000 is refused by PostgreSQL, both in a registration and in the lookup, and the
  request ends with 500. A value longer than its VARCHAR column is refused, unless
  everything past the width is spaces; those are cut off and the cut value is stored.

## Model

| member | source | states |
|---|---|---|
| `Utils.GetGdxToken` | src/lib/utils.ts:16-41 | Succeeds exactly when the URL is truthy, the request succeeded and `Result` is truthy, and then returns that `Result` unchanged; every failure message starts with the NO_GDX_TOKEN text and ": " |
| `Utils.GetGdxTokenFailures` | src/lib/utils.ts:19-39 | A missing URL, a transport failure and an empty `Result` each give the same kind of error with its own cause; with a missing URL the result does not depend on the authority's answer |
| `Utils.HandleApiError` | src/lib/utils.ts:46-57 | 401 gives (401, 'Unauthorized') and 404 gives (404, 'Not found'), whatever the messages. Otherwise the status is the response status, or 500 when that is falsy. The message is the first truthy of the response data message, the error message and 'Unknown error'. A nullish error throws |
| `Utils.HandleApiErrorAlwaysInformative` | src/lib/utils.ts:53-56 | For any non-nullish error, the classified status and message are both truthy |
| `Utils.MissingFields` | src/lib/utils.ts:66 | A name is reported exactly when it is required and its value is falsy; never more names than were required |
| `Utils.MissingFieldsConcat` | src/lib/utils.ts:66 | The filter keeps the given order: filtering a concatenation concatenates the filtered parts |
| `Utils.MissingFieldsCount` | src/lib/utils.ts:66 | A falsy name is reported as many times as it is listed, a truthy one never |
| `Utils.ValidateRequired` | src/lib/utils.ts:62-68 | `valid` holds exactly when every required field is truthy, exactly when `missing` is empty; `missing` is the filter above |
| `Utils.ExtractField` | src/lib/utils.ts:73-81 | Returns the value of the first listed field whose value is truthy. Returns `""` when none is, including an empty list and a nullish object |
| `IdentityStore.ToSql` | src/pages/api/user/register.ts:16 | A parameter becomes NULL exactly when it is null or undefined; a string is stored as it is |
| `IdentityStore.FromSql` | src/pages/api/auth/login.ts:53 | Reading a cell back and sending it again gives the same cell |
| `IdentityStore.StoredTruthiness` | src/pages/api/auth/login.ts:63 | A value read back from the table is truthy exactly when the value sent was truthy, or was 0 or false (stored as "0" and "false") |
| `IdentityStore.ConsistentMeansUnique` | src/pages/api/auth/login.ts:35-36 | In a table that keeps its invariant, two rows with the same non-NULL citizen id, or with the same user id, are the same row |
| `IdentityStore.CreateTable` | src/pages/api/auth/login.ts:33-46 | Fails exactly on a connection outage; otherwise the relation exists afterwards and every row is kept |
| `IdentityStore.CreateTableIdempotent` | src/pages/api/auth/login.ts:33-46 | Provisioning twice is provisioning once, an existing relation is left exactly as it was, and the set of rows never changes |
| `IdentityStore.Select` | src/pages/api/auth/login.ts:49 | Fails on an outage or a missing relation, and otherwise exactly when the key holds U+0000; on a consistent table, a row it finds carries the looked-up citizen id |
| `IdentityStore.SelectFindsExactlyTheMatchingRow` | src/pages/api/auth/login.ts:49-51 | On a provisioned, consistent table the lookup succeeds exactly when the key holds no U+0000; it then finds a row exactly when some row has that non-NULL citizen id, and that row belongs to the table |
| `IdentityStore.FitTo` | src/pages/api/auth/login.ts:35-42 | A text longer than the VARCHAR width is refused exactly when something other than spaces lies past the width. Otherwise the stored value fits and keeps its NULL-ness: a value within the width is kept unchanged, a longer one is cut to its first width characters |
| `IdentityStore.Prepared` | src/pages/api/user/register.ts:10-16 | A parameter holding U+0000 fails the statement with PostgreSQL's encoding error. Otherwise the first overflowing column, in declaration order, fails it with its width. Otherwise every value fits its column: each is the submitted one when that fits, else that one cut to the width with only spaces dropped; additional_info is kept whole, and a submission that already fits is used unchanged |
| `IdentityStore.TrailingSpacesAreCut` | src/pages/api/auth/login.ts:40 | A mobile number of 255 characters followed by spaces is stored as those 255 characters, and nothing else of the submission changes |
| `IdentityStore.Upsert` | src/pages/api/user/register.ts:10-16 | A successful statement met no outage, found the relation and could bind and assign every value; it never creates or drops the relation |
| `IdentityStore.UpsertSucceedsExactlyWhen` | src/pages/api/user/register.ts:10-16 | The statement succeeds exactly when all hold: the connection is up, the relation exists, no text holds U+0000, no value overflows its VARCHAR width, the user id is present, and either the citizen id (as assigned) is already stored or the user id is free |
| `IdentityStore.UpsertKeepsConsistent` | src/pages/api/auth/login.ts:35-36 | A registration keeps the table invariant: one row per citizen id, unique non-NULL user ids, column types respected |
| `IdentityStore.UpsertInsertsNewCitizen` | src/pages/api/user/register.ts:10-13 | For a citizen id not yet stored, exactly one row is added. It holds the nine values as assigned to their columns and the statement's time, and every other row is kept |
| `IdentityStore.UpsertInsertsWithoutCitizen` | src/pages/api/user/register.ts:7-16 | A successful registration whose citizen id is absent or null inserts one row keyed by its user id, holding the nine values as assigned and the statement's time; the rows with a citizen id are unchanged and the row count grows by one |
| `IdentityStore.UpsertUpdatesExistingCitizen` | src/pages/api/user/register.ts:14-15 | For a stored citizen id and any non-NULL user id, with the connection up, no text holding U+0000 and no value overflowing its column, the statement succeeds and only mobile and additional_info change; the row count is unchanged. Which non-NULL user id is submitted plays no part, even one another row holds |
| `IdentityStore.UpsertTouchesOnlyItsCitizen` | src/pages/api/user/register.ts:10-16 | The lookup of every other citizen id, and every row without a citizen id, are unchanged by a registration |
| `IdentityStore.UpsertIdempotent` | src/pages/api/user/register.ts:14-15 | Applying a submission twice leaves the table as applying it once, whatever the second statement's time |
| `IdentityStore.UpsertLastWriterWins` | src/pages/api/user/register.ts:14-15 | After two successful submissions for one citizen id, the row has the second one's mobile and additional_info as assigned. The other fields, created_at included, come from the first one (or from the row that was already stored) |
| `IdentityStore.UpsertRejects` | src/pages/api/user/register.ts:19-20 | A failed statement changes nothing. It fails before the relation exists; with the encoding error on a U+0000; with the width of the first overflowing column; with the NOT NULL violation for any registration without a user id; and with the primary key violation for a new citizen id whose user id another row holds |
| `IdentityStore.RegistrationsKeepUniqueness` | src/pages/api/user/register.ts:14 | After any sequence of registrations the table invariant still holds, so there is at most one row per citizen id |
| `IdentityStore.Store.CreateTableIfNotExists` | src/pages/api/auth/login.ts:33-46 | The store afterwards is the provisioning function's result, or unchanged with the outage's message |
| `IdentityStore.Store.SelectByCitizenId` | src/pages/api/auth/login.ts:49 | Returns what the lookup function gives on the current table, the U+0000 refusal included |
| `IdentityStore.Store.InsertOnConflictUpdate` | src/pages/api/user/register.ts:10-16 | The store afterwards is the upsert function's result, or unchanged with the database's message; the invariant is kept |
| `Login.AuthorityToken` | src/pages/api/auth/login.ts:7-13 | A failed request fails with its message; a nullish body throws V8's TypeError for reading `Result`; otherwise the token is `Result` of the body, empty or not |
| `Login.AuthorityTokenSkipsEmptinessCheck` | src/pages/api/auth/login.ts:12 | Where the shared helper yields a token, this one yields the same token. An empty `Result`, which the shared helper rejects, is passed on here |
| `Login.ProfileData` | src/pages/api/auth/login.ts:24-30 | Succeeds exactly when the body's `result` is truthy, and then returns it. A falsy one fails with "Deproc returned NULL", a nullish body throws V8's TypeError for reading `result`, and a failed request fails with its own message |
| `Login.FoundData` | src/pages/api/auth/login.ts:53-65 | Carries exactly user id, citizen id, names, mobile and additional info. Each is the stored cell as node-postgres hands it over: NULL as `null`, text as that string, and re-sending it gives the same cell. Additional info is "" when the stored value is falsy (NULL or empty) |
| `Login.NewUserData` | src/pages/api/auth/login.ts:67-81 | Carries exactly the eight draft fields, each the profile's own value verbatim |
| `Login.Resolve` | src/pages/api/auth/login.ts:15-88 | Non-POST gives 405 and a falsy appId or mToken gives 400, both with no call made. Otherwise the token is forwarded unchanged to the profile call. Each failing step ends the request with 500 and that step's message, the lookup refusing a citizen id holding U+0000 included. Provisioning keeps every row. A lookup on the profile's citizen id gives `found` with the row's data, or `new_user` with the profile's |
| `Register.SubmissionOf` | src/pages/api/user/register.ts:7 | Each of the nine parameters is the body's field of that name turned into a cell, so the user id is NULL exactly when the body's is null or absent |
| `Register.Register` | src/pages/api/user/register.ts:4-22 | Non-POST gives 405 and leaves the store unchanged. Otherwise it reports success, with the store equal to the upsert's result, exactly when the statement succeeds. On failure it reports 500 with the database's message and the store is unchanged |
| `Register.RegisterThenResolveFinds` | src/pages/api/user/register.ts:10-18 | After a successful registration, a resolve for the same citizen id (within its column width) finds the row. Its reply echoes the citizen id, the submitted mobile as stored (exactly, for a string within 255 characters) and the additional information |
| `Register.DraftAsSubmission` | src/pages/api/auth/login.ts:71-80 | Sending a NEW_USER draft back as a registration body keeps the identity fields and mobile. Date of birth is lost (`dateOfBirthString` is not `dateOfBirth`), and additional information is absent |

## Left out

- Outbound HTTP (axios), the TLS-bypassing agent, environment variables and console
  logging are not modelled. The authority's and the profile authority's answers are
  inputs, a URL is a value, and what is logged is not modelled.
- A non-2xx answer is not distinguished from a transport failure: both are a failed
  outcome carrying axios's message.
- The connection pool (`src/lib/db.ts`) is not part of this model, nor is its exit on
  an idle-client error. A broken connection is the store's `outage` message, which
  every statement meets.
- Concurrency: each statement is one atomic step. Interleavings of simultaneous
  registrations, and races between two `CREATE TABLE IF NOT EXISTS`, are not modelled.
- The database clock is a parameter (`now`) of the registration.
- JSON serialisation of replies is not modelled. In particular, `undefined` draft fields
  stay in the reply's map; `res.json` would omit them.
- Numbers are integers, so NaN and fractions (and their truthiness and text) are not
  modelled. Arrays are not modelled.
- node-postgres sends an object-valued parameter as its JSON text. The model keeps the
  object itself in that cell, takes it to fit any VARCHAR width, and reads it back as
  the object.
- Property access on primitives yields `undefined`. Prototype members such as a
  string's `length` are not modelled.
- Request bodies are parsed JSON objects. A body that is a number, a string or an
  array destructures to `undefined` fields and so behaves as the empty object, which
  the model covers. Only a `null` or absent body makes the destructuring throw, outside
  the handlers' try blocks; that case is not modelled.
- Strings are sequences of Unicode scalar values, so a column width counts characters
  as PostgreSQL does. A JavaScript string holding a lone surrogate cannot be
  represented; node-postgres would send it as U+FFFD. Where values of several columns
  are too long, the message is taken to name the first such column in declaration order.
- The presentation layer (`src/pages/index.tsx`), the notification endpoint
  (`src/pages/api/notify/send.ts`), the health check and the build configuration are
  not part of this model.
- `Utils.GetGdxToken`: that no request is sent without a URL is stated only as the
  result's independence from the authority's answer.
- `IdentityStore.ToSql`: a number is written with every digit. JavaScript writes
  numbers of 1e21 and above in exponent form, and JSON parsing rounds integers beyond
  2^53; neither is modelled.
