# Penzi SMS command engine in Dafny

This project models the SMS matchmaking service's command engine in Dafny.
One inbound message (`from`, `text`) is one step of the store. The text is
trimmed and lower-cased, then classified as one of these commands:

- `start#`, `details#`, `myself`, `match#`, `next`
- a ten-digit phone number
- `describe `, `yes`

The engine then runs the command's handler against the in-memory store.
That store is five tables: users, user details, match requests, profile
matches and messages. The handler returns the new store and a reply. The
match-request cursor pages through a request's matches three at a time, and
NEXT moves it.

Modules, in dependency order:

- `Text`: the Python string operations the handlers rely on: `strip`,
  `lower`, `upper`, `title`, `split('#')`, `split()` and `int()`. They are
  modelled on ASCII text.
- `Models`: the records and enumerations of the tables, the column
  defaults of a match request, and `has_more_matches` /
  `advance_pagination`.
- `Pagination`: the NEXT page query and the cursor walk from a fresh
  request.
- `Storage`: the store, its lookups, and the invariant `Valid`.
- `Outcomes`: one constructor per reply template, carrying the
  interpolated values.
- `Commands`: normalisation and the classification chain.
- `Handlers`: one pure function per handler, plus `find_matches` and the
  record part of `notify_interest`.
- `Engine`: `SMSProcessor.post`, including its status codes
  (`Engine.PostStatus`).
- `Invariants`: every message keeps `Valid`, and no message removes a row
  or moves a cursor back.
- `Scenarios`: multi-message behaviour, including runs of consecutive NEXTs
  through the handler.

The database becomes the value `Store`. Each `commit` is part of the same
step. Ids are assigned as count + 1, because nothing is ever deleted.

## Behaviours of the code worth knowing

- **The first NEXT after `match#` repeats the first page.** The `match#`
  reply already shows matches 0..2 (server/app.py:248-250). The new request
  is created without an offset (server/app.py:219-225), so its cursor takes
  the column default 0 (server/models.py:60). The first NEXT therefore sends
  the same three matches again (`Scenarios.FirstNextRepeatsMatchPage`).
  Seven matches take three NEXTs to deliver completely, and the third NEXT
  sends only match 6 (`Scenarios.SevenMatchSchedule`).
- **`details#` can move a user's stage back.** The handler sets the level to
  `details` whatever it was before (server/app.py:165), so a `completed` user
  moves back to `details` (`Scenarios.DetailsRegressCompleted`).
- **The cursor can pass the match count.** NEXT advances the cursor by a
  full page even after a short final page (server/models.py:71-72,
  server/app.py:307), so the offset can exceed `total_matches`. The invariant
  kept is `0 <= offset < total + 3` with the offset a multiple of 3
  (`Pagination.CursorInvariant`).
- **The interest notification is stored with sender 0.** The record names
  sender id 0 and the requested user's id and phone (server/app.py:389-394);
  the requester appears only in its text, which is not modelled.

## Model

| member | source | states |
|---|---|---|
| Text.Strip | server/app.py:22 | the result is the input without its leading and trailing whitespace, and no whitespace is left at either end |
| Text.StripUnpadded | server/app.py:22 | a text with no whitespace at either end is unchanged by strip |
| Text.Lower | server/app.py:22 | same length, no upper-case letter is left, characters that are not upper-case letters are unchanged, and each character keeps its upper-case form, so only the case of letters changes |
| Text.LowerIsLowered | server/app.py:22 | lower-casing leaves no upper-case letter, and doing it twice is the same as once |
| Text.UpperPrefixOnLowered | server/app.py:84 | on lower-cased text, `upper().startswith("YES")` holds exactly when the text starts with "yes" |
| Text.Title | server/app.py:122-127 | same length, the same letters up to case, and a letter is upper-case exactly when it starts a run of letters |
| Text.TitleInjectiveOnLowered | server/app.py:122-127 | two lower-cased names give the same title-cased name only when they are equal |
| Text.Split | server/app.py:102 | one more part than separators, no part holds the separator, and the parts joined with the separator are the input |
| Text.SplitJoin | server/app.py:102 | splitting separator-free parts joined by the separator gives the parts back |
| Text.SplitSpaces | server/app.py:350 | the whitespace-free pieces between the whitespace characters: interleaving them with those characters gives the input back |
| Text.Words | server/app.py:350 | every word is non-empty and free of whitespace, and a text starting with a non-space starts its first word |
| Text.WordsSplit | server/app.py:350 | the words are exactly the non-empty pieces between whitespace characters, in order, so no character other than whitespace is dropped |
| Text.WordsOfTwo | server/app.py:350 | "a b" with a and b non-empty and space-free splits into exactly [a, b] |
| Text.ParseInt | server/app.py:109 | an integer exactly when the text, without space and \t \n \v \f \r at either end, is an optional sign and digits with single underscores between digits; the value is that of the digits, negated for '-' |
| Text.ParseDigits | server/app.py:109 | a plain digit string parses to its decimal value |
| Text.ParseShowNat | server/app.py:209 | `int(str(n)) == n` for every natural n, and its text has no '-' |
| Text.ParseShowInt | server/app.py:109 | `int(str(n)) == n` for every integer n |
| Models.ParseGender | server/app.py:113 | accepted exactly when the lower-cased text is "male" or "female", and the result is the gender of that name |
| Models.ParseMarital | server/app.py:151 | accepted exactly when the lower-cased text is single, married or divorced, and the result is the status of that name |
| Models.EnumNamesRoundTrip | server/models.py:13-39 | every gender and marital status parses back from its stored name |
| Models.AdvancePagination | server/models.py:71-72 | the cursor grows by exactly the page size and no other column changes |
| Pagination.PageOf | server/app.py:295-297 | at most 3 rows, non-empty exactly when the offset is below the row count; from a non-negative offset they are the rows from the offset on, in order, and a negative offset reads as 0, as in SQLite |
| Pagination.CursorAfterShift | server/models.py:68-72 | n NEXTs are one NEXT followed by the other n - 1 |
| Pagination.NextCursorKeeps | server/models.py:68-72 | one NEXT keeps the page size 3, the offset a multiple of 3 and below total + 3, and changes only the offset |
| Pagination.CursorSchedule | server/models.py:68-72 | after k NEXTs from a fresh request the offset is 3 * min(k, ceil(total / 3)), and matches remain exactly while k < ceil(total / 3) |
| Pagination.FreshRequestCursor | server/models.py:59-62 | a new request given n matches (default cursor 0, page size 3) satisfies the cursor invariant, has matches left exactly when n > 0, and after k NEXTs sits at 3 * min(k, ceil(n / 3)) |
| Pagination.CursorAfterKeeps | server/models.py:68-72 | any number of NEXTs keeps the cursor invariant and changes only the offset |
| Pagination.PagesFromSnoc | server/app.py:291-307 | the pages of k NEXTs are those of the first k - 1 followed by the page at the cursor those left |
| Pagination.PagesFromSlice | server/app.py:291-307 | k NEXTs from offset o deliver exactly the rows o .. o + 3k, cut at the end: in order, with no gap and no repeat |
| Pagination.PagesCoverAllRows | server/app.py:291-307 | the NEXTs that return a page deliver, from a fresh request, the whole match list in position order |
| Storage.FindUserByPhone | server/app.py:31 | a user is found exactly when some user has the phone, and it is the first such user |
| Storage.FindUserById | server/models.py:89 | a user is found exactly when some user has that id, and it carries that id |
| Storage.LatestActiveRequest | server/app.py:283-286 | the last created request owned by the user that is active, or none when the user has no active request |
| Storage.RowsOf | server/app.py:295-296 | only rows of the given request, taken from the table; none when the table holds none |
| Storage.RowsOfSelects | server/app.py:295-296 | a row of the table is selected exactly when it belongs to the request, and a one-row table gives that row or nothing |
| Storage.RowsOfAppend | server/app.py:295-296 | selecting a request's rows distributes over appending rows; with RowsOfSelects this fixes the result as the request's rows in table order |
| Storage.RowsOfUniform | server/app.py:295-296 | a table whose rows all belong to the request is selected whole |
| Storage.EmptyStoreValid | server/models.py:11-17 | the empty store satisfies the invariant |
| Storage.FindUserByIdWellFormed | server/models.py:9 | in a well-formed user table, id i + 1 finds the user at index i and an id outside 1..n finds nobody |
| Storage.FindUserByPhoneUnique | server/models.py:11 | with unique phones, looking up a user's phone finds that user |
| Commands.Normalize | server/app.py:22 | the stripped text with each character lower-cased; it has no upper-case letter and normalising it again changes nothing |
| Commands.Classify | server/app.py:24-97 | each command is chosen exactly when its own test holds; unsupported exactly when no test holds |
| Commands.PrefixesExclusive | server/app.py:24-92 | no two tests of the chain can both hold, so their order never decides the command |
| Commands.YesOnNormalized | server/app.py:84 | on a normalised text the `yes` test is a plain "yes" prefix test |
| Handlers.DropPrefix | server/app.py:178 | `s[n:]`: empty when s is too short, otherwise what follows the first n characters |
| Handlers.ParseRegistration | server/app.py:102-114 | each error is reported exactly when its check is the first to fail (field count, integer age, range 18..80, gender); parsed exactly when all four pass, with the fields of the six parts |
| Handlers.Register | server/app.py:99-137 | errors pass through unchanged; an existing phone is refused with the holder's name and no change; otherwise exactly one basic user with the next id and title-cased names is added |
| Handlers.SetLevel | server/app.py:165 | only the level of the user with that id changes, to the given level |
| Handlers.ParseDetails | server/app.py:144-152 | format error exactly when there are not six parts; marital error exactly when the fourth is not a status; parsed exactly otherwise, with the fields |
| Handlers.SaveDetails | server/app.py:141-170 | upserts the user's one detail row with the four title-cased fields and the lower-cased marital status, keeps its description and every other row, and sets the level to details |
| Handlers.SelfDescribe | server/app.py:175-194 | a description under 10 characters changes nothing; otherwise it is stored as given and the level becomes completed, with nothing else changed |
| Handlers.DescriptionRoundTrip | server/app.py:178 | the description after "myself " comes back exactly |
| Handlers.ParseAgeSpec | server/app.py:208-211 | without '-' an age a gives [a, a]; with '-' exactly two integers give the range; anything else is an age-format error |
| Handlers.AgeSpecRoundTrip | server/app.py:208-211 | the texts "a" and "a-b" parse back to [a, a] and [a, b] |
| Handlers.FindMatches | server/app.py:266-278 | exactly the users of opposite gender, in the age range, in the town and not the requester, kept in id order |
| Handlers.IdOrderedUnique | server/app.py:270-276 | two id-ordered lists with the same members are equal, so the match list is determined by its members |
| Handlers.MatchRows | server/app.py:231-237 | one unsent row per matched user at positions 0..n-1; selecting the new request's rows from them gives them all back, and no other request has any |
| Handlers.RequestMatches | server/app.py:199-264 | format and age errors change nothing; the query fails exactly when the criteria parse but an age lies outside SQLite's 64-bit integer range; no results exactly when a bindable query finds nobody, naming the title-cased town; a match exactly when it finds someone, adding one request with total n and cursor 0 and n positioned rows, and replying with the first min(3, n) and a prompt exactly when n > 3 |
| Handlers.CardsOfRows | server/app.py:303-304 | cards exactly when every row's user exists, one per row in order |
| Handlers.NextMatches | server/app.py:279-317 | no active request or no more matches changes nothing; a page is the 3 rows at the latest active request's cursor, the cursor then advances by 3 and nothing else changes |
| Handlers.RequestProfile | server/app.py:322-342 | an unknown number changes nothing; a known one is shown with its detail line when it has details, and gets exactly one notification from sender 0 |
| Handlers.RequestDescription | server/app.py:347-367 | never changes the store; format error exactly without two words, not found exactly for an unknown phone, and otherwise no-description or the stored description, exactly as the description is missing or not |
| Engine.Dispatch | server/app.py:30-91 | each command reaches its own handler with the sender and the message text, and replies with that handler's outcome; `yes` crashes and only `yes` does; `yes` and `describe` never change the store |
| Engine.Post | server/app.py:14-97 | a missing field is refused; an unsupported text is refused; `start#` registers; every other command from an unknown phone is refused; otherwise the handler runs for the sender; only a reply changes the store |
| Engine.PostStatus | server/app.py:14-97 | status 400 exactly for a missing field, an unsupported text or an unregistered sender of a command other than `start#`; 500 exactly for `yes` from a registered sender; 200 exactly for a reply |
| Invariants.RegisterKeepsValid | server/app.py:116-132 | registration keeps the store invariant |
| Invariants.SaveDetailsKeepsValid | server/app.py:155-168 | details submission keeps the store invariant |
| Invariants.SelfDescribeKeepsValid | server/app.py:180-192 | self-description keeps the store invariant |
| Invariants.NewRequestKeepsValid | server/app.py:219-239 | adding a well-formed request with exactly its positioned rows keeps the invariant |
| Invariants.RequestMatchesKeepsValid | server/app.py:213-239 | a match request keeps the store invariant |
| Invariants.NextMatchesKeepsValid | server/app.py:291-307 | NEXT keeps the store invariant |
| Invariants.RequestProfileKeepsValid | server/app.py:389-397 | a profile lookup keeps the store invariant |
| Invariants.PostKeepsValid | server/app.py:14-97 | every inbound message keeps the store invariant |
| Invariants.RunKeepsValid | server/app.py:14-97 | any sequence of messages keeps the store invariant |
| Invariants.ReachableIsValid | server/app.py:14-97 | every store reachable from the empty store satisfies the invariant |
| Invariants.RegisterEvolves | server/app.py:116-132 | registration removes no row, changes no user beyond its level and moves no cursor back |
| Invariants.PostEvolves | server/app.py:14-97 | on a valid store no message removes a row, changes a user beyond its level, changes a request beyond its cursor, or moves a cursor back |
| Invariants.NextServesWhileMore | server/app.py:291-304 | on a valid store NEXT never fails, and it serves a page whenever the latest active request has matches left |
| Invariants.DescribeCompleted | server/app.py:355-367 | on a valid store, describing a completed user returns that user's stored self-description |
| Invariants.BasicHasNoDetails | server/app.py:331-363 | on a valid store a basic user has no detail line and no description |
| Scenarios.RegistrationTextParses | server/app.py:102-114 | a start text built from '#'-free fields with an age in range parses back to those fields |
| Scenarios.RegisterFromFields | server/app.py:102-134 | such a text from a new phone adds exactly that user, with title-cased name, county and town |
| Scenarios.NewRequestIsLatest | server/app.py:219-228 | the request a successful match adds is the requester's latest active request |
| Scenarios.FreshRowsOf | server/app.py:231-239 | rows added under an id no earlier row carries are exactly that id's rows |
| Scenarios.NewRequestRows | server/app.py:219-239 | on a valid store the rows of the request a match adds are exactly its positioned match rows |
| Scenarios.FirstNextRepeatsMatchPage | server/app.py:248-316 | the first NEXT after a successful match returns the same cards and prompt as the match reply |
| Scenarios.DetailsRegressCompleted | server/app.py:165 | re-submitting details moves a completed user back to details and keeps the stored description |
| Scenarios.SevenMatchSchedule | server/models.py:68-72 | with seven matches NEXT moves the cursor to 3, 6 and 9; the third page is the last match alone and the fourth NEXT finds none |
| Scenarios.NextMatchesFollowsCursor | server/app.py:279-317 | on a valid store NEXT moves exactly the cursor of the latest active request as one cursor step, keeps that request latest and the store valid, and serves the cards of the page at the old cursor |
| Scenarios.RunStore | server/app.py:279-317 | n steps that each move one request's cursor once leave that cursor n NEXTs on and nothing else changed |
| Scenarios.RunCards | server/app.py:279-317 | such n steps serve, in order, the cards of the pages the cursor walks over |
| Scenarios.NextRunFollowsCursor | server/app.py:279-317 | on a valid store n consecutive NEXTs move only the latest active request's cursor, to where n cursor steps take it, and serve the cards of those n pages |
| Scenarios.AllRowsCards | server/app.py:248-250 | the cards of all the rows of a new request are the matched users' cards in result order |
| Scenarios.MatchThenNexts | server/app.py:199-317 | after a successful match, ceil(n / 3) or more consecutive NEXTs serve every matched user exactly once in result order, and the following NEXT finds no more matches |

## Left out

- Reply wording: the texts of the reply templates, the notification content and their `format` calls are not modelled. A reply is the `Outcome` constructor together with the values it interpolates.
- Database failures: the one failure the inputs can cause is modelled: an age outside SQLite's 64-bit integer range makes the `find_matches` query raise OverflowError, which server/app.py:263-264 turns into MATCH_FAILED (`Handlers.Bindable`). The other `except Exception` branches (the `..._FAILED` replies) are left out, because the store has no failure mode of its own.
- Request parsing: `request.get_json()` is not modelled. The inputs are the `from` and `text` fields as optional strings. A body that is not a JSON object, and non-string field values, are left out.
- Timestamps: `created_at` and `updated_at` are not stored. The newest active request is taken to be the last one created.
- Ordering: neither the `find_matches` query (server/app.py:270-276) nor the NEXT query (server/app.py:295-297) has an `ORDER BY`. `find_matches` is modelled as returning users in id order and the NEXT query as returning rows in insertion order; under `Valid`, insertion order is position order.
- Column widths: `String(15)` and `String(50)` are not enforced, as SQLite does not enforce them.
- Unused columns: `sent` is never set and `is_active` is never cleared.
- Concurrency: concurrent messages are out of scope. Each message is one atomic step.
- `handle_interest_confirmation`: it is not defined on the processor, so a `yes` from a registered user is modelled as a crash with status 500.
- Text.Strip, Text.Lower, Text.Title, Text.ParseInt: these cover ASCII only. Unicode whitespace, case mapping and digits are not modelled.
- Text.ParseInt: CPython's limit on the length of a decimal literal (4300 digits by default, configurable) is not modelled; a longer age is parsed here where `int()` raises ValueError.
- Commands.Classify: `\d{10}` is modelled on ASCII digits only.
