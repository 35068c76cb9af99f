# Email summary tool: verified model

The application gives each project a generated mail address, runs an SMTP server that
accepts mail only for those addresses, stores what arrives, and shows it to the project's
owner behind cookie-based authentication. This project models that behaviour in Dafny and
proves what its users rely on.

| file | models |
|---|---|
| `Text.dfy` | byte strings, UTF-8 (section 4 of RFC 3629), the text cleaning |
| `Utf8.dfy` | the same patterns from the code points, and the proof that they agree |
| `Address.dfy` | generating, normalising and splitting addresses |
| `Parse.dfy` | reading a message part by part |
| `Columns.dfy` | what every stored column holds, from headers and part events alone |
| `Database.dfy` | the two tables, one function per SQL statement, the connection |
| `InboundStore.dfy` | address lookup and delivery |
| `MailServer.dfy` | one SMTP session |
| `Projects.dfy` | the project and email handlers, with other statements running in between |
| `MailSystem.dfy` | all of it interleaved: sessions, half-finished requests, the database |
| `Delivery.dfy`, `Guarantees.dfy` | theorems over every run of that machine |
| `Answers.dfy` | what every callback and request is answered, over every run |
| `Jwt.dfy`, `Cookies.dfy`, `AuthHandlers.dfy` | tokens, the browser's jar, the handlers and middleware |
| `AuthSystem.dfy` | clients, clock and server interleaved, and theorems over every run |
| `Accounts.dfy` | accounts and the answers to authentication requests, over every run |
| `JsonSubset.dfy` | the JSON matcher of the API tests |

How it is put together:

- A method of a class (`Session`, `Store`, `ProjectHandler`, `AuthHandler`, ...) is the code; its
  contract ties it to a function on values. The machines in `MailSystem.dfy` and
  `AuthSystem.dfy` take those same functions as their steps, so the theorems about runs are
  about what the methods do. `Connection.OthersRun` stands for anything other requests do
  between two statements of one request; `MailSystem.StepKeepsInv` shows that every step of
  the machine stays within its contract (`Evolves`).
- A run is any finite sequence of actions from the empty system. Names of sessions and
  requests, random bytes, generated ids, clocks, message contents and failing statements are
  chosen by the actions, so a theorem about all runs covers all of them. `fault` is a statement
  that fails and has no effect.
- Each function on values is also tied down from outside: what its result must be is stated
  without calling it (`Utf8`, `Columns`, `Answers`, `Accounts`).
- Theorems are told through the callbacks made and the answers given (`Smtp(Ok250)`,
  `Http(Created(...))`), not through the state, wherever they can be.
- Bun's soft delete is modelled as adding `deleted_at IS NULL` to selects, updates and deletes
  of the projects table. The unique index on addresses covers deleted rows.
- Times are nanoseconds since Go's zero time. Strings from the network are byte sequences.

Six properties one might expect are false of the code. Each has a lemma with an input that
shows it and a lemma with the exact condition:

- Mail is deferred only by a passing failure, so a sender that retries gets through. A Date
  header before year 1 is stored unchecked, the TIMESTAMPTZ column refuses it, and every
  retry gets 451: `UndisturbedDeliveryCanBeDeferred` and `EarlyDateDeferredForEver`, with
  `DeferredIff`.
- An update answered with 200 took effect: `AcknowledgedUpdateCanBeLost`, with
  `UpdateTookEffectIff`.
- A project's own address works: `Address.GoodAndBadDomains`, with `OwnAddressWorksIff` and
  `Address.GoodDomainIff`.
- A cookie lasts as long as its token, for any configured lifetime: `Cookies.CutShort`, with
  `Cookies.CookieOutlivesTokenIff`.
- An email belongs to one account: `Accounts.SignUpsCanRace`, with
  `Accounts.EmailsUniqueIff`.
- Only the password given at sign-up logs in. This fails for every password:
  `AuthHandlers.AnotherPasswordMatches` and `Accounts.AnotherPasswordLogsIn`, with
  `AuthHandlers.MatchesIff` for which others do.

## Model

| member | source | states |
|---|---|---|
| Text.CleanTextIsStorable | services/inbound/parse.go:121-142 | whatever the bytes, the cleaned text is well-formed UTF-8 without NUL, as a TEXT column requires |
| Text.CleanTextFixpoints | services/inbound/parse.go:137-142 | exactly the storable strings come back unchanged; cleaning twice is cleaning once |
| Text.CleanTextNeverGlues | services/inbound/parse.go:137-142 | cleaning around a NUL is cleaning both sides apart: nothing is joined across it |
| Text.RemovingNulFirstWouldGlue | services/inbound/parse.go:137-142 | the opposite order of the two passes would turn C3 00 A9 into a letter nobody sent |
| Text.ToValidUTF8IsRepair | services/inbound/parse.go:138-140 | the repair keeps every character and turns each maximal run of other bytes into one U+FFFD |
| Text.RepairIsUnique | services/inbound/parse.go:138-140 | any function with that contract is this repair |
| Text.CleanTextSize | services/inbound/parse.go:137-142 | cleaned text is at most twice as long plus one byte |
| Text.CleanTextSizeIsTight | services/inbound/parse.go:137-142 | for every odd length some input reaches that bound |
| Text.CleanTextOfCut | services/inbound/parse.go:111-114 | cutting well-formed text at n bytes and cleaning it keeps all whole characters that fit, at least n - 3 bytes of them, and adds one U+FFFD exactly when a character was cut |
| Utf8.WidthIff | services/inbound/parse.go:137-142 | a character is recognised exactly where the encoding of a Unicode scalar value starts, with the width of that encoding, and the value is unique |
| Utf8.ValidIff | services/inbound/parse.go:137-142 | text is well-formed exactly when it is the concatenated encodings of some scalar values |
| Utf8.NamedCharacters | services/inbound/parse.go:137-142 | the replacement is the encoding of U+FFFD, the byte removed that of U+0000 |
| Utf8.CharactersAreKept | services/inbound/parse.go:137-142 | cleaning leaves every character alone but NUL |
| Address.SpellInPlace | services/inbound/address.go:22-25 | the in-place loop replaces every random byte by its letter |
| Address.GenerateAddress | services/inbound/address.go:17-27 | the address for the random bytes and the lower-cased domain, or the failure of the random source |
| Address.SpellersAreAll | services/inbound/address.go:12-26 | the set counted below contains precisely the buffers that spell the word |
| Address.GenerationIsUnbiased | services/inbound/address.go:12-26 | a word of n letters that some buffer spells is spelled by exactly 8^n of the 256^n buffers, for every n |
| Address.WordsAreEquallyLikely | services/inbound/address.go:12-26 | every word of n letters of the alphabet is spelled by exactly 8^n buffers, and any other word by none |
| Address.AddressesAreEquallyLikely | services/inbound/address.go:17-27 | each address with a word over the alphabet as local part is generated from exactly 8^n buffers, and no other address |
| Address.NormalizeExactly | services/inbound/address.go:31-36 | of any string, white space goes first, then one bracket at each end, then capitals; nothing else |
| Address.IsSpaceIff | services/inbound/address.go:32 | what is trimmed are the encodings of Unicode's white space code points |
| Address.BlankIff | server/requests/project_request.go:22-24 | nothing is left of a string exactly when it is white space throughout |
| Address.LowerByteIs | services/inbound/address.go:35 | each capital becomes the small letter of its place, no other byte changes |
| Address.AddressDomainIff | services/inbound/address.go:39-45 | the domain is what follows the last @, and empty without one |
| Address.NormalizeOnlyLowers | services/inbound/address.go:29-36 | normalising an ASCII string changes nothing but letter case exactly when it has no white space or bracket at its ends |
| Address.TrimSpaceSkips | services/inbound/address.go:32 | trimming removes white space of any Unicode kind around a string that has none at its ends, and nothing else |
| Address.GeneratedRoundTrip | services/inbound/address.go:17-45 | under a good ASCII domain a generated address in any letter case, with white space around it and either bracket optional, normalises to itself and has the store's domain |
| Address.OwnAddressRecognised | services/inbound/address.go:17-45 | under an ASCII domain, a generated address is its own normal form under the store's domain if and only if the domain is a good one |
| Address.GoodDomainIff | services/inbound/address.go:17-45 | an ASCII domain is good if and only if it holds no @, has no white space at its ends, and neither starts with < nor ends with > |
| Address.GoodAndBadDomains | services/inbound/address.go:17-45 | the default domain is good; a domain holding an @, or ending in a space, is not |
| Address.GeneratedIsStorable | services/inbound/address.go:17-27 | under an ASCII domain a generated address can be stored |
| Parse.ReadHeaders | services/inbound/parse.go:48-71 | header columns with the raw header as fallback where decoding fails |
| Parse.ReadPart | services/inbound/parse.go:85-105 | one pass of the part loop extends the declarative reading of the parts so far by one part |
| Parse.ReadBody | services/inbound/parse.go:111-114 | the longest prefix of the body within the byte limit |
| Parse.Clean | services/inbound/parse.go:121-135 | every text column and both texts of every attachment are cleaned, sizes and dates kept |
| Parse.ParseMessage | services/inbound/parse.go:36-109 | for any outcome of the library the loop yields the declarative reading: first non-empty body of each kind, attachments in order, unknown parts skipped, prefix kept on a fatal error, error reported exactly then |
| Parse.FirstBodyFound | services/inbound/parse.go:85-96 | the stored body is that of the first part of its kind that is not empty, and empty only if there is none |
| Parse.AttachmentsInOrder | services/inbound/parse.go:97-104 | one entry for each attachment part and for no other; the entry of a part stands behind exactly those of the attachment parts before it |
| Columns.BodyColumns | services/inbound/parse.go:85-96 | the text column holds the cleaned longest start within the limit of the first non-empty inline part of type text/plain or none, the HTML column that of the first of type text/html, and nothing where there is none |
| Columns.AttachmentColumn | services/inbound/parse.go:97-104 | the entry of each attachment holds its name, type and whole size and stands behind those of earlier ones; there are no others |
| Columns.HeaderColumns | services/inbound/parse.go:47-71 | message id, subject, addresses and date come from the decoded headers, and from the raw ones where those do not parse |
| Columns.JoinOfMore | services/inbound/parse.go:61-66 | To addresses are joined with a comma and a space, in order |
| Parse.FailureKeepsPrefix | services/inbound/parse.go:73-83 | what follows a fatal part error has no influence |
| Parse.ParsedIsStorable | services/inbound/parse.go:39-109 | all text on every exit of Parse is storable, the exit that skips the cleaning included |
| Parse.StoredBodySize | services/inbound/parse.go:17-20 | a stored body never exceeds twice the cap plus one byte |
| Parse.CappedBodyOfValidText | services/inbound/parse.go:111-114 | a well-formed body loses at most three bytes of the kept five mebibytes and ends in at most one U+FFFD |
| Database.OwnerIsUnique | database/migrations/sql/20261106184029_create_emails.up.sql:1-3 | with unique addresses the lookup has exactly one possible answer |
| Database.InsertProjectSafe | database/migrations/sql/20261106184029_create_emails.up.sql:1-7 | an insert that succeeds keeps addresses unique over deleted rows too, and changes no other row |
| Database.UpdateProjectSafe | server/handlers/project_handlers.go/project_handler.go:171-176 | an update keeps owner, address and every deleted row |
| Database.UpdateWrites | server/handlers/project_handlers.go/project_handler.go:171-176 | exactly four columns of an active row of the user are written, and nothing otherwise |
| Database.SoftDeleteSafe | server/handlers/project_handlers.go/project_handler.go:206-212 | a delete keeps owner, address and every row already deleted |
| Database.InsertEmailsSafe | services/inbound/store.go:94-96 | rows are appended all at once, behind existing ones, each with an existing project and an id of its own |
| Database.Connection.SelectPage | server/handlers/project_handlers.go/project_email_handler.go:55-62 | an answer is sorted by date, at most a hundred rows, and nothing left out is newer |
| InboundStore.Store.constructor | services/inbound/store.go:22-24 | the store compares against the normalised domain |
| InboundStore.Store.FindProjectID | services/inbound/store.go:26-48 | local addresses lead to the active owner of their normal form; others are refused without a query |
| InboundStore.Store.Deliver | services/inbound/store.go:56-98 | one insert holding one row per distinct project, or no effect at all |
| InboundStore.DistinctKeepsFirsts | services/inbound/store.go:67-89 | the dedupe loop keeps, for each project named, exactly its first recipient, in order of first occurrence |
| MailServer.Session.Mail | mailserver/mailserver.go:57-60 | the sender is replaced and nothing else |
| MailServer.Session.Rcpt | mailserver/mailserver.go:62-85 | 451 on a failed lookup, 550 on an unknown address, otherwise 250 and one recipient more; a refused recipient leaves no trace |
| MailServer.Session.Data | mailserver/mailserver.go:87-107 | 250 exactly when everything was stored; otherwise the database is untouched |
| MailServer.Session.Reset | mailserver/mailserver.go:109-112 | sender and recipients are forgotten |
| Projects.ProjectHandler.TryOnce | server/handlers/project_handlers.go/project_handler.go:102-126 | one pass of the create loop: retry only on a uniqueness violation |
| Projects.ProjectHandler.Create | server/handlers/project_handlers.go/project_handler.go:86-131 | with anything happening between attempts, the loop is a run of at most five attempts ending at the first that is not told the address is taken |
| Projects.CreateSucceedsIffFree | server/handlers/project_handlers.go/project_handler.go:99-130 | absent other errors creation succeeds exactly when an attempted address is free, uses the first such, and fails only after five taken ones |
| Projects.CreateAddsOneRowOrNone | server/handlers/project_handlers.go/project_handler.go:99-130 | with or without errors, one new row if the answer is 201, none otherwise |
| Projects.ProjectHandler.Update | server/handlers/project_handlers.go/project_handler.go:133-183 | the write carries the three form fields and meets whatever the table has become since the read |
| Projects.ProjectHandler.Delete | server/handlers/project_handlers.go/project_handler.go:185-219 | the delete meets whatever the table has become since the read |
| Projects.ProjectHandler.Get | server/handlers/project_handlers.go/project_handler.go:62-84 | the row only for its owner and only while not deleted |
| Projects.ProjectHandler.ListEmails | server/handlers/project_handlers.go/project_email_handler.go:27-68 | a page of the project's mailbox, without raw messages, only for its owner |
| MailSystem.AcceptedIsRouted | mailserver/mailserver.go:62-85 | a recipient answered with 250 is recorded with the project that owns its normalised address |
| MailSystem.DeliveredIsRouted | services/inbound/store.go:59-98 | delivery to such recipients writes only rows whose project owns the envelope address |
| MailSystem.StepKeepsInv | mailserver/mailserver.go:51-112 | every step of every session and request keeps the routing invariant and only moves the database forward |
| MailSystem.AlwaysRouted | database/migrations/sql/20261106184029_create_emails.up.sql:1-12 | in every reachable state each email belongs to the project owning the address it was sent to, addresses are unique, and requests hold rows of their own user |
| MailSystem.RunEvolves | database/models/project.go:25-38 | between any two moments of a run owners and addresses stay, deleted rows are frozen, stored emails stay |
| Delivery.SessionIsolation | mailserver/mailserver.go:45-112 | whatever other sessions do, a session holds exactly the recipients it was told 250 for since its last restart, in order, and its latest sender since then |
| Delivery.OneRowPerProject | services/inbound/store.go:67-89 | the rows of one delivery hold the message once for each project named and not at all for others |
| Delivery.NamesProject | services/inbound/store.go:26-54 | accepted recipients name a project exactly when one of them normalises to its address |
| Delivery.MailboxIsLedger | services/inbound/store.go:56-98 | a mailbox is exactly the sequence of messages acknowledged with 250 for its address, each once, in order, through deletions, failures and interleavings |
| Delivery.NoLedgerBeforeProject | mailserver/mailserver.go:62-85 | nothing is ever acknowledged for an address no project owns |
| Delivery.ProjectAppears | server/handlers/project_handlers.go/project_handler.go:108-127 | a row appears only by a create that found its address free, and is the row announced |
| Answers.SessionExistsIff | mailserver/mailserver.go:44-47 | a session exists exactly from its connection on |
| Answers.MailAnswer | mailserver/mailserver.go:57-60 | MAIL is accepted in every session |
| Answers.RcptAnswer | mailserver/mailserver.go:62-85 | 451 if and only if the lookup of a local address fails, 550 if and only if the address is foreign or no undeleted project owns it, 250 otherwise |
| Answers.DataAnswer | mailserver/mailserver.go:87-107 | an error when the message breaks off, 451 exactly for a failing statement, missing ids or an early date with somebody to receive it, 250 otherwise |
| Answers.StartAnswer | server/handlers/project_handlers.go/project_handler.go:133-164 | which requests are refused with 400, 500 and 404 before they write, and what the others go on with |
| Answers.RequestOrigin | server/handlers/project_handlers.go/project_handler.go:86-219 | a pending request was started by an action with just its user, project and form, and has not been answered since |
| Answers.PendingUntilAnswered | server/handlers/project_handlers.go/project_handler.go:86-219 | and it stays pending, for the same, until it is answered |
| Answers.TryAnswer | server/handlers/project_handlers.go/project_handler.go:99-130 | one try of a create: 500 on an error or the fifth clash, another try on an earlier clash, otherwise the row described by the request |
| Answers.CreatedAsAsked | server/handlers/project_handlers.go/project_handler.go:108-127 | a project announced as created has the user, name, description and status of its request |
| Answers.WriteAnswer | server/handlers/project_handlers.go/project_handler.go:166-182 | the write of an update answers 500 exactly when it fails or its text cannot be stored |
| Answers.UpdatedAsAsked | server/handlers/project_handlers.go/project_handler.go:151-182 | a row announced as updated has title, description and status of its request, in this order |
| Answers.DeleteAnswer | server/handlers/project_handlers.go/project_handler.go:206-218 | the write of a delete answers 500 exactly when it fails |
| Answers.ActiveIff | database/models/project.go:35-38 | a project is undeleted if and only if its creation was acknowledged and no deletion was |
| Answers.GetAnswer | server/handlers/project_handlers.go/project_handler.go:62-84 | GET shows the owner the last acknowledged write until a deletion is acknowledged, and 404 to anybody else |
| Answers.ListingAnswer | server/handlers/project_handlers.go/project_email_handler.go:40-67 | a list shows the newest hundred of the messages acknowledged for the project, newest first, each once, without raw bytes |
| Guarantees.AddressNeverReassigned | database/migrations/sql/20261106184029_create_emails.up.sql:1-3 | an address that ever belonged to a project never belongs to another one, nor to another user |
| Guarantees.DedupeByAddress | services/inbound/store.go:67-73 | for accepted recipients, one per project and one per normalised address are the same choice |
| Guarantees.RowsInsertable | services/inbound/store.go:74-88 | rows for routed recipients pass every check of the table exactly when their ids are fresh and the message is not dated before year 1, whatever its text |
| Guarantees.StoredDate | services/inbound/parse.go:69-71 | the date column is in range exactly when the Date header is not before year 1; nothing in Parse tests it |
| Guarantees.DeferredIff | mailserver/mailserver.go:96-106 | in every reachable state a message that arrived is answered with 451 if and only if the statement fails, no fresh ids exist, or its date lies before year 1 |
| Guarantees.EarlyDateDeferredForEver | services/inbound/parse.go:69-71 | a message dated before year 1 is answered with 451 in every state of every run that has a recipient for it, and never stored |
| Guarantees.UndisturbedDeliveryCanBeDeferred | mailserver/mailserver.go:87-107 | a run from creating a project to such a message, nothing failing, that ends in 451 |
| Guarantees.RetriesLeaveOneCopy | services/inbound/store.go:56-58 | any number of deferred attempts and one acknowledged one leave one copy more |
| Guarantees.RowStep | server/handlers/project_handlers.go/project_handler.go:101-216 | by its answer, a step adds the announced row, rewrites the contents of the announced row if that is active, or changes no contents |
| Guarantees.TableIsLastWrites | server/handlers/project_handlers.go/project_handler.go:101-180 | the table holds exactly the acknowledged creations; title, description and status come whole from the last acknowledged write that met the row undeleted |
| Guarantees.OnlyOwnRowsChange | server/handlers/project_handlers.go/project_handler.go:151-216 | a row changes only by its owner's pending update or delete of that project |
| Guarantees.UpdateTookEffectIff | server/handlers/project_handlers.go/project_handler.go:153-182 | after an update answered with 200 the owner is shown what was announced if and only if the project was not deleted since it was read; otherwise nothing changed |
| Guarantees.AcknowledgedUpdateCanBeLost | server/handlers/project_handlers.go/project_handler.go:153-182 | a run in which an acknowledged update changes nothing |
| Guarantees.DeleteTookEffect | server/handlers/project_handlers.go/project_handler.go:193-218 | after a 204 the project is deleted, whoever deleted it first |
| Guarantees.DeletedForEver | database/models/project.go:35-38 | a deleted project stays as it is, is found by no request of any user, and its address is refused from then on |
| Guarantees.AddressesGenerated | server/handlers/project_handlers.go/project_handler.go:102-114 | every address in the table was generated under the configured domain |
| Guarantees.DecoratedAddressAccepted | services/inbound/store.go:26-48 | under a good ASCII domain any spelling of a project's address finds it exactly while it is not deleted |
| Guarantees.OwnAddressWorksIff | services/inbound/store.go:22-48 | under an ASCII domain, an active project gets mail for its own address if and only if the domain is good |
| Guarantees.ListedEmailsProvenance | server/handlers/project_handlers.go/project_email_handler.go:40-67 | every email shown to a user was acknowledged for an address minted by one of that user's own creates, and the project was looked up undeleted for that user |
| Guarantees.PageIsComplete | server/handlers/project_handlers.go/project_email_handler.go:55-62 | up to a hundred messages all are listed; beyond that none left out is newer than one shown |
| Jwt.NobodySignsNothing | config/jwt.go:54-57 | a token is signed exactly for a user id that is not empty |
| Jwt.SignedTokenVerifies | config/jwt.go:46-99 | a token verifies for its own kind and user until its expiry in whole seconds, never beyond its lifetime, never as the other kind; it is dated by the second of its signing |
| Cookies.TokenService.SetAccessCookie | services/tokenService/token_service.go:24-34 | from now on the browser sends this access token for the whole seconds of its lifetime and none afterwards (for good if it is below one second); what it sends as refresh token is untouched |
| Cookies.TokenService.SetRefreshCookie | services/tokenService/token_service.go:36-46 | likewise for the refresh token; what it sends as access token is untouched |
| Cookies.TokenService.ClearAuthCookies | services/tokenService/token_service.go:48-64 | both cookies are gone |
| Cookies.CookieOutlivesTokenIff | config/jwt.go:101-107 | a cookie is never dropped before its token expires, if and only if the lifetime is a whole number of seconds or below one second |
| Cookies.CutShort | config/jwt.go:101-107 | for every longer lifetime that is not whole seconds, a signing time whose cookie goes while the token still verifies |
| Cookies.DefaultCookiesOutliveTokens | config/jwt.go:11-17 | so both configured lifetimes are safe |
| AuthHandlers.MatchesIff | server/handlers/auth_handler.go:80-82 | for any two passwords: the second is accepted for the first if and only if, with its NUL, it reads like the key of the first and that key repeats itself after it |
| AuthHandlers.NulFreeMatchesIff | server/handlers/auth_handler.go:80-82 | for an account whose password holds no NUL, reading like the key is enough, whatever is given |
| AuthHandlers.BothNulFreeMatchIff | server/handlers/auth_handler.go:80-82 | when neither holds a NUL, different passwords match if and only if both have 72 bytes or more and agree on the first 72 |
| AuthHandlers.AnotherPasswordMatches | server/handlers/auth_handler.go:80-82 | every password is matched by a different one |
| AuthHandlers.AuthHandler.SignUp | server/handlers/auth_handler.go:29-61 | an account is added, behind whatever was added since, only for a complete request, an email not found in use and a password that can be hashed |
| AuthHandlers.AuthHandler.Login | server/handlers/auth_handler.go:63-100 | matching credentials sign one token of each kind, one after the other, and set both cookies; otherwise neither table nor jar changes |
| AuthHandlers.AuthHandler.RefreshAccess | server/handlers/auth_handler.go:102-132 | a verified refresh token yields a new access token only, signed after the latency, never a new refresh token |
| AuthHandlers.AuthHandler.Logout | server/handlers/auth_handler.go:134-138 | the jar loses both cookies |
| AuthHandlers.AuthHandler.RequireAuth | server/middleware/middleware.go:12-37 | the request proceeds exactly when the access cookie verifies for an existing user, who is then in the context |
| AuthSystem.SessionBound | config/jwt.go:46-99 | whoever is let in logged in less than both lifetimes plus the refresh latency ago, from any client and after any number of refreshes |
| AuthSystem.SessionBoundNearlyAttained | config/jwt.go:46-99 | for all whole-second lifetimes a run comes within two nanoseconds of that bound |
| AuthSystem.RequestAllowedIff | server/middleware/middleware.go:16-35 | an honest browser's request is let in, as the user of its last login or refresh, if and only if the token signed there has not expired and it has not logged out since |
| AuthSystem.RefreshStartsIff | server/handlers/auth_handler.go:102-111 | it can begin a refresh if and only if the refresh token of its last login has not expired and it has not logged out since |
| AuthSystem.RefreshEnds | server/handlers/auth_handler.go:113-131 | a refresh that has begun succeeds unless a statement fails |
| Accounts.FindByEmailIff | server/handlers/auth_handler.go:75-79 | the lookup finds the first account of an email, and none only if there is none |
| Accounts.LoginAnswer | server/handlers/auth_handler.go:63-99 | a login is answered by whether its password matches the oldest account of its email, and by nothing else |
| Accounts.SignUpStartAnswer | server/handlers/auth_handler.go:34-50 | a sign-up is refused exactly for an incomplete request, an email its select finds in use, or a password too long to hash |
| Accounts.SignUpEndAnswer | server/handlers/auth_handler.go:52-60 | it ends with one account more unless the insert fails |
| Accounts.EmailsUniqueIff | server/handlers/auth_handler.go:41-58 | no two accounts share an email if and only if no acknowledged sign-up had a failing select or ran it before another account of its email was there |
| Accounts.SignUpsCanRace | server/handlers/auth_handler.go:41-58 | two sign-ups that both look before either inserts leave two accounts of one email |
| Accounts.SignedUpLogsIn | server/handlers/auth_handler.go:63-99 | in a run without such races every password signed up with logs its own account in |
| Accounts.OtherAnswers | server/handlers/auth_handler.go:113-138 | logout is always answered and nothing is sent after it; failing lookups turn requests away and make refreshes fail |
| Accounts.LoginGoesBackToSignUp | server/handlers/auth_handler.go:63-85 | whoever logs in gave the email an earlier sign-up created that account with, and a password that matches the one given then |
| Accounts.AnotherPasswordLogsIn | server/handlers/auth_handler.go:63-99 | every login that succeeds would have succeeded with some different password |
| AuthSystem.JarAlwaysOk | services/tokenService/token_service.go:24-64 | an honest browser's cookies hold signed tokens of their own kind, and both name one user |
| AuthSystem.LogoutHolds | server/handlers/auth_handler.go:134-138 | after a logout nothing that browser sends is let in or refreshed until it logs in again |
| AuthSystem.OneUserPerBrowser | server/middleware/middleware.go:16-35 | an honest browser is let in as the user of its refresh cookie |
| JsonSubset.MatchJSONSubset | tests/main_test.go:190-227 | in whatever order keys are visited, no error exactly on the subset relation, and a reported path leads to a real mismatch |
| JsonSubset.ContainsJSONSubset | tests/main_test.go:155-176 | true exactly when the value is a subset of some part, at any depth |
| JsonSubset.RefutesIsMismatch | tests/main_test.go:190-227 | a reported path refutes the subset relation |
| JsonSubset.SubsetIffEveryPath | tests/main_test.go:190-227 | a subset is what has, at every path, a counterpart of the same kind, array length or value |
| JsonSubset.PartsOccur | tests/main_test.go:155-176 | every field of an object and every item of an array occurs in it |
| JsonSubset.SubsetReflexive | tests/main_test.go:190-227 | every value is a subset of itself |
| JsonSubset.SubsetTransitive | tests/main_test.go:190-227 | subset is transitive |
| JsonSubset.SubsetAntisymmetric | tests/main_test.go:190-227 | values that are subsets of each other are equal |
| JsonSubset.PartsCorrespond | tests/main_test.go:190-227 | each part of the smaller value is a subset of the part at the same path of the larger |
| JsonSubset.SubsetIsShallower | tests/main_test.go:190-227 | a subset is never nested deeper |
| JsonSubset.OccursReflexive | tests/main_test.go:155-176 | every value occurs in itself |
| JsonSubset.OccursTransitive | tests/main_test.go:155-176 | occurring somewhere inside is transitive |
| JsonSubset.OccursAntisymmetric | tests/main_test.go:155-176 | values that occur in each other are equal |
| JsonSubset.OccursMonotone | tests/main_test.go:155-176 | enlarging the response or shrinking the unexpected value only adds occurrences |

## Left out

- Address.ToLower: only ASCII letters are lowered. What is claimed of generated addresses is therefore claimed for ASCII domains, and an address in RCPT holding other letters is compared as it stands.
- InboundStore.Store.FindProjectID: an address whose letters outside ASCII have lower-case forms is looked up as it stands, for the same reason.
- Parse.ReadHeaders: lower-casing of the sender's address is ASCII only, for the same reason.
- Database.InsertProject: how the ORM quotes a NUL or an ill-formed byte in a string is not part of this model. Strings are taken to reach PostgreSQL byte for byte, which refuses those.
- Database.OwnerOf: likewise for an address in a lookup; one holding a NUL owns nothing here.
- Guarantees.DedupeByAddress: rests on that. If quoting dropped NULs, two spellings that differ by a NUL would lead to one project and still be two addresses.
- Guarantees.DeferredIff: the longest SQL statement the server takes is not modelled, so a large message to many projects that exceeds it counts as a statement that fails from outside.
- MailServer.Session.Data: the size and recipient limits and the order of callbacks belong to the protocol library; every order is allowed here.
- MIME, header, charset and address-list decoding: messages arrive as decoded values and a stream of part events.
- PostgreSQL beyond the statements' effects: column and statement lengths, timeouts and lost connections appear only as a statement that fails without effect. A statement that commits while its answer is lost is not modelled.
- The shape test on project ids in the URL: an id that is not a UUID names no row, so the answer is 404 either way.
- Binding of request bodies: a body that cannot be decoded is answered with 400 before any modelled step.
- HMAC, bcrypt, JWT encoding and UUID generation: a token verifies only if it was signed, a password matches exactly those that make the same bcrypt key, and ids are supplied and checked by the primary keys. The overflow of Go durations is not modelled.
- Accounts.LoginAnswer: which of several accounts sharing an email the database returns is not specified; the oldest is taken here.
- Timestamps are kept in full; a TIMESTAMPTZ column keeps microseconds.
- Listing of projects with pagination: the query has no order and the page size is unchecked.
- A browser that sends several requests at once: each client waits for its own refresh; different clients interleave freely.
- What other clients do between the two signatures of one login: any time may pass there, but nothing else happens in it.
- Logging, configuration, migrations, the profile handler and the frontend.
