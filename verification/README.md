# Shovel admin controllers: queues, audit log, webhooks

This project models the three admin controllers of the Shovel support desk in Dafny and proves properties about them. The controllers are:

- **Queues** (`queues.dfy`): the queue catalog. `index` searches by name or slug and orders by name; `all` lists every queue by name. `store`, `update` and `destroy` maintain a table in which at most one queue is the default, and the default queue cannot be deleted.
- **Audit log** (`audit_log.dfy`): the read-only audit query. It validates the request, conjoins filters on conversation, event type, a whole-day date window and an actor search, and orders the events newest first with the id breaking ties.
- **Webhooks** (`webhooks.dfy`): the webhook registry. `index` filters by search, active flag and event, and orders by creation time. `store` and `update` take a validated request, refuse an empty event list, and hand out a `whsk_` secret once, at creation and on rotation. `destroy` deletes a row.

Shared pieces:

- `common.dfy`: request inputs as the validator sees them (missing, null or given), PHP `trim`, `empty` and blank strings.
- `sql_like.dfy`: the SQL `LIKE` operator as a token matcher, with MySQL's default escape character `\`.
- `sorting.dfy`: the `where` (a filter) and `orderBy` (a sort by a total preorder) that every listing ends with.

Each controller that changes a table is a class (`QueueCatalog`, `WebhookRegistry`) holding the rows and the next key. Its methods are specified by pure functions of the old table (`StoredRows`, `UpdatedRows`, `Removed`, `Requested`, `Fill`). Lemmas about those functions state the promises: a single default, only provided fields change, keys stay unique, and the listings are exactly the matching rows in order.

Library calls are parameters:

- the framework's slug helper is `slugify`;
- `Str::random(48)` is a `RandomToken`, any 48 alphanumeric characters;
- encryption is the wrapper `Sealed`;
- the clock is `now`;
- each `exists:` rule is a set of known keys.

## Model

| member | source | states |
|---|---|---|
| Common.Trim | Shovel/app/Http/Controllers/Admin/WebhookController.php:23-25 | `trim` yields a slice of the input; every character stripped before or after it is trimmable, and the slice neither starts nor ends with one |
| Common.TrimStart | Shovel/app/Http/Controllers/Admin/WebhookController.php:23 | the left trim drops exactly a prefix of trimmable characters |
| Common.TrimEnd | Shovel/app/Http/Controllers/Admin/WebhookController.php:23 | the right trim drops exactly a suffix of trimmable characters |
| Common.BlankIffAllTrimmable | Shovel/app/Http/Controllers/Admin/QueueController.php:66 | a value fails `required` as blank exactly when every character is whitespace or NUL |
| Common.FindKey | Shovel/app/Http/Controllers/Admin/QueueController.php:110 | route-model binding finds the row with the given key, or reports that no row has it (queues and webhooks alike) |
| SqlLike.Wrapped | Shovel/app/Http/Controllers/Admin/QueueController.php:25-26 | the `%term%` pattern is the term with one `%` on each side |
| SqlLike.ExactSubstring | Shovel/app/Http/Controllers/Admin/AuditLogController.php:66-72 | `%`, then literal tokens, then `%` matches exactly the strings that contain those characters |
| SqlLike.RawSearchFindsContaining | Shovel/app/Http/Controllers/Admin/QueueController.php:23-28 | an unescaped search term without `\` finds every string that contains it |
| SqlLike.RawPlainSearchIsSubstring | Shovel/app/Http/Controllers/Admin/QueueController.php:23-28 | a search term without `%`, `_` or `\` finds exactly the strings that contain it (both directions) |
| SqlLike.RawSearchUnderscoreIsWildcard | Shovel/app/Http/Controllers/Admin/WebhookController.php:30-35 | an unescaped `_` in a search stays a wildcard: "a_c" finds "abc" although "abc" does not contain "a_c" |
| Sorting.Filter | Shovel/app/Http/Controllers/Admin/QueueController.php:23-28 | `where` keeps exactly the rows meeting the condition, each with its multiplicity |
| Sorting.SortBy | Shovel/app/Http/Controllers/Admin/QueueController.php:30 | `orderBy` returns a permutation of its rows, sorted by the key |
| Sorting.SortedIsUnique | Shovel/app/Http/Controllers/Admin/AuditLogController.php:42-45 | when the order tells every two rows apart, there is exactly one sorted arrangement |
| Queues.StoreErrors | Shovel/app/Http/Controllers/Admin/QueueController.php:65-80 | a store request that passes validation has a non-blank name |
| Queues.ClearDefaults | Shovel/app/Http/Controllers/Admin/QueueController.php:131-136 | the bulk update leaves no default except the kept queue, changes nothing but the flag, and leaves the kept queue untouched |
| Queues.QueueCatalog.Store | Shovel/app/Http/Controllers/Admin/QueueController.php:63-101 | store refuses an invalid request with its failing fields and no write. Otherwise it clears the defaults when asked, creates the queue under the next key and keeps the table valid |
| Queues.QueueCatalog.Update | Shovel/app/Http/Controllers/Admin/QueueController.php:110-167 | update gives not-found for an unknown key and refuses an invalid request with no write. Otherwise it clears the other defaults when asked and sets each field whose input is set |
| Queues.QueueCatalog.Destroy | Shovel/app/Http/Controllers/Admin/QueueController.php:169-183 | destroy refuses the default queue, deletes any other and reports an unknown key |
| Queues.StorePreservesAtMostOneDefault | Shovel/app/Http/Controllers/Admin/QueueController.php:84-96 | after a store at most one queue is the default |
| Queues.StoreKeepsIds | Shovel/app/Http/Controllers/Admin/QueueController.php:89-96 | store appends one row under the new key and keeps every existing key |
| Queues.StoreKeepsTableValid | Shovel/app/Http/Controllers/Admin/QueueController.php:84-96 | store keeps keys unique and below the next key, with at most one default |
| Queues.StoreDefaultIsSoleDefault | Shovel/app/Http/Controllers/Admin/QueueController.php:84-93 | a new default queue is the only default; every older queue keeps its fields and loses the flag |
| Queues.StoreDefaultsAndDerivedSlug | Shovel/app/Http/Controllers/Admin/QueueController.php:89-96 | without `is_default` no existing queue changes and the new queue is not the default. Without a slug, the slug comes from the name |
| Queues.StoreRejectsMissingNameOrTakenSlug | Shovel/app/Http/Controllers/Admin/QueueController.php:65-80 | a missing name and a slug already in use are each refused on their field |
| Queues.DerivedSlugMayDuplicate | Shovel/app/Http/Controllers/Admin/QueueController.php:65-96 | the controller does not check the derived slug; the model, which has no database constraint, stores a second queue with that slug |
| Queues.UpdatePreservesAtMostOneDefault | Shovel/app/Http/Controllers/Admin/QueueController.php:131-162 | after an update at most one queue is the default |
| Queues.UpdateKeepsIds | Shovel/app/Http/Controllers/Admin/QueueController.php:131-162 | update keeps the number of rows and every key |
| Queues.UpdateToDefaultIsSoleDefault | Shovel/app/Http/Controllers/Admin/QueueController.php:131-152 | making a queue the default leaves it the only default |
| Queues.UpdateChangesOnlySetFields | Shovel/app/Http/Controllers/Admin/QueueController.php:131-162 | each field whose input is set takes that input and every other field keeps its value. Other queues are untouched, except that they lose the flag when the target becomes the default |
| Queues.UpdateMayLeaveNoDefault | Shovel/app/Http/Controllers/Admin/QueueController.php:131-152 | turning off the only default is accepted and leaves no default |
| Queues.TurningOffSoleDefaultLeavesNone | Shovel/app/Http/Controllers/Admin/QueueController.php:131-152 | in any table, turning off the only default queue leaves no default |
| Queues.UpdateSlugRules | Shovel/app/Http/Controllers/Admin/QueueController.php:112-127 | a queue may keep its own unique slug; a slug used by another queue is refused |
| Queues.DestroyRemovesExactlyOne | Shovel/app/Http/Controllers/Admin/QueueController.php:169-183 | a deletion removes exactly the queue with that key, keeps every other queue and keeps the invariants |
| Queues.NameLeTotal | Shovel/app/Http/Controllers/Admin/QueueController.php:30 | the name order compares any two names |
| Queues.NameLeTransitive | Shovel/app/Http/Controllers/Admin/QueueController.php:30 | the name order is transitive |
| Queues.ByNameIsTotalPreorder | Shovel/app/Http/Controllers/Admin/QueueController.php:30 | ordering queues by name is a total preorder |
| Queues.Index | Shovel/app/Http/Controllers/Admin/QueueController.php:16-50 | the listing is sorted by name and holds exactly the queues whose name or slug is LIKE `%search%`, or every queue when the search is falsy |
| Queues.All | Shovel/app/Http/Controllers/Admin/QueueController.php:52-61 | every queue, each once, sorted by name |
| Queues.IndexPlainSearch | Shovel/app/Http/Controllers/Admin/QueueController.php:23-28 | a plain search term lists exactly the queues whose name or slug contains it |
| Queues.IndexWithoutSearch | Shovel/app/Http/Controllers/Admin/QueueController.php:23-30 | a missing, empty or "0" search lists every queue |
| AuditLog.StartOfDay | Shovel/app/Http/Controllers/Admin/AuditLogController.php:55-57 | the start of the day is a day boundary at or before the instant, less than a day earlier |
| AuditLog.EndOfDay | Shovel/app/Http/Controllers/Admin/AuditLogController.php:59-61 | the end of the day is the last second before a day boundary, at or after the instant |
| AuditLog.DayWindow | Shovel/app/Http/Controllers/Admin/AuditLogController.php:55-61 | the date bounds compare whole days, in both directions |
| AuditLog.EscapeLike | Shovel/app/Http/Controllers/Admin/AuditLogController.php:63-66 | the escaped term is the term with one backslash added per `%` or `_` (its length; the positions and the read-back are the two lemmas below) |
| AuditLog.EscapedWildcardsArePreceded | Shovel/app/Http/Controllers/Admin/AuditLogController.php:65 | every `%` and `_` of the escaped term comes right after a backslash |
| AuditLog.EscapeLikeKeepsCharacters | Shovel/app/Http/Controllers/Admin/AuditLogController.php:65 | removing the inserted backslashes gives the term back |
| AuditLog.EscapeLikeStrict | Shovel/app/Http/Controllers/Admin/AuditLogController.php:63-66 | the corrected escape never shortens the term |
| AuditLog.StrictEscapeRoundTrip | Shovel/app/Http/Controllers/Admin/AuditLogController.php:65 | reading the corrected escape back (a backslash stands for the next character) gives the term, whatever it holds |
| AuditLog.StrictEscapeTokens | Shovel/app/Http/Controllers/Admin/AuditLogController.php:65-66 | read as a pattern, the strictly escaped term is exactly its own characters as literals |
| AuditLog.IntendedActorPatternIsSubstringSearch | Shovel/app/Http/Controllers/Admin/AuditLogController.php:63-86 | the corrected actor pattern finds exactly the strings that contain the actor term, whatever characters the term holds |
| AuditLog.EscapesAgreeWithoutBackslash | Shovel/app/Http/Controllers/Admin/AuditLogController.php:65 | without a backslash in the term, the written escape and the corrected escape agree |
| AuditLog.ActorPatternWithoutBackslash | Shovel/app/Http/Controllers/Admin/AuditLogController.php:63-72 | for a term without a backslash, the pattern as written finds exactly the strings that contain the term, `%` and `_` included |
| AuditLog.BackslashActorMatchesTrailingPercent | Shovel/app/Http/Controllers/Admin/AuditLogController.php:63-66 | as written, the term `\` gives the pattern `%\%`, which finds exactly the strings ending with `%` |
| AuditLog.BackslashActorIsMisread | Shovel/app/Http/Controllers/Admin/AuditLogController.php:63-66 | as written, the term `\` misses the string "\" and finds "x%" and "%", which do not contain it; it does not find "%a" |
| AuditLog.NewerFirstIsTotalPreorder | Shovel/app/Http/Controllers/Admin/AuditLogController.php:42-45 | ordering by occurrence time descending, then by id descending, is a total preorder |
| AuditLog.NewerFirstSeparatesEvents | Shovel/app/Http/Controllers/Admin/AuditLogController.php:42-45 | with unique ids, no two distinct events tie in that order |
| AuditLog.Index | Shovel/app/Http/Controllers/Admin/AuditLogController.php:16-110 | the query fails exactly when validation finds errors, and then reports them. Otherwise per_page is the given value or 50, and the events are exactly those meeting the filters (the actor pattern built as written), newest first |
| AuditLog.InvalidParametersRejected | Shovel/app/Http/Controllers/Admin/AuditLogController.php:18-25 | a null or out-of-range per_page, an unknown conversation id and a non-blank actor over 255 characters are each refused on their field (a blank actor skips the length rule) |
| AuditLog.ReversedDatesRejected | Shovel/app/Http/Controllers/Admin/AuditLogController.php:27-36 | a start date later than the end date is refused on `occurred_from` |
| AuditLog.ListedEventsMatch | Shovel/app/Http/Controllers/Admin/AuditLogController.php:47-86 | every listed event meets each switched-on filter: the conversation, the type, the days, and an actor string the pattern matches, which contains the term when the term has no backslash |
| AuditLog.ListingOrderIsDeterministic | Shovel/app/Http/Controllers/Admin/AuditLogController.php:42-45 | with unique ids the listing is the only newest-first arrangement of the selected events |
| AuditLog.EchoedFiltersShape | Shovel/app/Http/Controllers/Admin/AuditLogController.php:94-100 | the echoed conversation id is the given one (0 included) or null; the echoed actor is the given one or "" |
| Webhooks.GenerateSecret | Shovel/app/Http/Controllers/Admin/WebhookController.php:172-175 | a secret is `whsk_` followed by the 48 random alphanumerics, 53 characters in all |
| Webhooks.GenerateSecretInjective | Shovel/app/Http/Controllers/Admin/WebhookController.php:172-175 | distinct random draws give distinct secrets |
| Webhooks.PageSize | Shovel/app/Http/Controllers/Admin/WebhookController.php:22 | per_page is clamped into 1 to 100, defaults to 50, and an in-range value is kept |
| Webhooks.NewestFirstIsTotalPreorder | Shovel/app/Http/Controllers/Admin/WebhookController.php:27-28 | ordering by creation time descending is a total preorder |
| Webhooks.Index | Shovel/app/Http/Controllers/Admin/WebhookController.php:20-66 | the listing is newest first and holds exactly the rows meeting the trimmed search, active and event filters. The page size is the clamped per_page, and the trimmed search and event are echoed exactly when non-blank |
| Webhooks.IndexMembership | Shovel/app/Http/Controllers/Admin/WebhookController.php:30-43 | a webhook is listed exactly when it is in the table and meets every filter |
| Webhooks.PlainSearchIsSubstring | Shovel/app/Http/Controllers/Admin/WebhookController.php:30-35 | a plain search term keeps exactly the webhooks whose name or url contains it |
| Webhooks.UpdateChangesOnlyProvided | Shovel/app/Http/Controllers/Admin/WebhookController.php:107-141 | an update sets exactly the provided attributes and keeps the key and creation time. The secret changes exactly on rotation, and then to a well-formed one |
| Webhooks.NothingProvidedNothingWritten | Shovel/app/Http/Controllers/Admin/WebhookController.php:139-141 | the attribute set is empty exactly when nothing is provided and no rotation is asked; filling nothing changes nothing |
| Webhooks.WebhookRegistry.EnsureValidEvents | Shovel/app/Http/Controllers/Admin/WebhookController.php:163-170 | an empty event list, and only that, is refused |
| Webhooks.WebhookRegistry.Store | Shovel/app/Http/Controllers/Admin/WebhookController.php:68-96 | store refuses no events with no write. Otherwise it appends the webhook under the next key with the sealed secret and timestamp, and returns the well-formed plaintext secret |
| Webhooks.WebhookRegistry.Update | Shovel/app/Http/Controllers/Admin/WebhookController.php:105-149 | update gives not-found for an unknown key and refuses an empty event list with no write. Otherwise it writes the requested attributes only when there are some, and returns the plaintext secret exactly on rotation |
| Webhooks.WebhookRegistry.Destroy | Shovel/app/Http/Controllers/Admin/WebhookController.php:151-158 | destroy removes the webhook with that key and keeps the rest in order |
| Webhooks.AppendKeepsTableValid | Shovel/app/Http/Controllers/Admin/WebhookController.php:86-88 | creating a row under the next key keeps keys unique, and that key was unused |
| Webhooks.FillKeepsTableValid | Shovel/app/Http/Controllers/Admin/WebhookController.php:139-141 | filling attributes keeps every key, so the table stays valid |
| Webhooks.RemovalKeepsTableValid | Shovel/app/Http/Controllers/Admin/WebhookController.php:151-153 | deleting a row keeps the table valid and no remaining row has the deleted key |

## Left out

- Pagination is left out: each listing returns every matching row in order, with the page size it would use. Queue `index` passes `per_page` through to the paginator unchecked, and that is not modelled.
- `show` in the queue and webhook controllers is a plain read and is not modelled.
- Character comparison is exact. The database's case-insensitive collations are not modelled for `LIKE` or for `orderBy('name')`.
- SQLite's `LIKE` has no default escape character. The model reads patterns the MySQL way, where `\` escapes.
- Type-shape rules (`string`, `integer`, `boolean`, `array`, `date`) are not modelled. Inputs are typed values.
- Date parsing is not modelled: dates are instants in UTC seconds.
- Laravel's request middleware that trims strings and turns "" into null is not modelled.
- The webhook form-request classes (their rules, `sanitizedEvents`, `shouldActivate`, `metadata`, `providesEvents`, `hasActiveFlag`, `wantsSecretRotation`) are not part of this model. Store and update take their results as already-validated inputs.
- Webhooks.PageSize: takes `per_page` already cast to an integer. PHP's `(int)` cast of a non-numeric string is not modelled.
- Webhooks.Index: takes the `active` flag already read as a boolean. The accepted spellings of `boolean()` are not modelled.
- AuditLog.ListedEventsMatch: promises substring containment of the actor term only for terms without `\`. The query builds its pattern as written, and a term with `\` is misread (see "## Findings").
- AuditLog.Index: the actor search compares against `actorStrings`, the user's name, email and username and the payload's actor fields. Loading the relation and extracting the JSON is not modelled.
- The secret's encryption is the wrapper `Sealed`. Cipher text, key handling and decryption are not modelled.
- Transactions, concurrent requests and any database constraint on queue slugs (the schema is not among the modelled files) are not modelled. Each operation is one atomic step on the table.
- Timestamps other than the webhook's creation time are left out.
- The HTTP responses are not modelled. Their status codes, JSON resources and messages are represented by `Result` values.
- The API conversation-message controller, the resource classes and the admin pages are not part of this model.

## Findings

| source | as written | input that shows it | evidently intended | confidence | as-written member | corrected member |
|---|---|---|---|---|---|---|
| Shovel/app/Http/Controllers/Admin/AuditLogController.php:65 | `addcslashes($actor, '%_')` escapes `%` and `_` but not the escape character `\` | actor `\` gives the pattern `%\%`, which misses an actor named `\` and finds every actor string ending with `%`, such as `x%` | escape `\` too, so the actor search is a plain substring search | medium, not executed | AuditLog.BackslashActorIsMisread | AuditLog.IntendedActorPatternIsSubstringSearch |
