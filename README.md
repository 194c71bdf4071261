# PovoRefBot allocation engine in Dafny

This project models the core of PovoRefBot, a Telegram bot that hands out
single-use referral codes. Users submit codes with `/povo_add`, ask for one
with `/povo`, remove one with `/povo_del` and list them with `/list`. A
delivered code carries a "mark as used" button that leads to a Yes/No
confirmation.

The store of `database.py` is two in-memory tables:

- `codes`: rows `(id, code, usage)`, kept in fetch order, which is ascending
  id for an SQLite rowid table. A new row gets the largest id plus one, or 1
  in an empty table, as SQLite does for an `INTEGER PRIMARY KEY` without
  AUTOINCREMENT.
- `user_activity`: an append-only ledger of `(user, Add|Get, code, ts)`
  records.

Time is a whole number of seconds passed in as `now`. The source stores
Tokyo wall time as `'YYYY-MM-DD HH:MM:SS'` text and compares the strings. For
four-digit years that order is the order of the seconds, and Tokyo has no
daylight saving, so integer comparison is the same test.

Every function in `database.py` catches `sqlite3.Error` and carries on. Here
each store operation takes a `fault` flag. A failing query gives its
fail-closed answer: `can_add_code` and `can_get_code` answer False,
`get_codes` answers `[]` and `code_exists` answers False. A failing mutation
commits nothing. Each handler takes one `down` flag that says whether every
statement it sends to the store fails.

Modules, one per source component:

- `CodeTable` (code_table.dfy): the statements on `codes` as pure functions
  over `seq<CodeRow>`, with their lemmas.
- `Ledger` (ledger.dfy): `user_activity`, `can_add_code` and `can_get_code`.
- `Database` (database.py → database.dfy): class `Store` with fields `codes`
  and `ledger`. Its methods `AddCode`, `DeleteCode`, `IncrementCodeUsage` and
  `LogUserActivity` reassign those fields.
- `Text`: Python's `str(int)`, `int(str)` and `str.split`, each with its
  inverse.
- `Confirm`: the button payloads `confirmUsage_{codeId}_{userId}`,
  `confirmYes_{codeId}` and `confirmNo_{codeId}`, their parsing, and the
  callback handlers as a transition function on the message that holds the
  button.
- `Engine`: each command handler of `bot.py` as a function from the store
  contents to a reply tag and the new contents, plus the lemmas about them.
- `Bot`: the handlers as methods that drive a `Store` statement by statement.
  Each method is proved to end in exactly the reply and state its `Engine`
  function gives. The recursive retry of `/povo` becomes a `while` loop whose
  table shrinks on every turn.

`random.choice` becomes a sequence `draws` supplied by the caller. Attempt
`k` picks row `draws[k] % |codes|`, so every possible choice sequence is
covered. `Engine.ServeDrawsBounded` shows that no more than `|codes|` draws
are ever read.

In these points the model follows the code:

- A malformed code and a repeat add by the same user get the same reply,
  `INVALID_OR_DUPLICATE_CODE`.
- The code check uses Python's `$`, so a code followed by one final newline
  passes.
- A retry of `/povo` runs the eligibility check again, because the handler
  calls itself.
- An unparseable button payload makes the handler raise. Nothing changes,
  and the presser gets no answer.
- "No" on the confirmation only answers with a short notice (not an alert)
  and leaves the prompt in place.

## Model

| member | source | states |
|---|---|---|
| CodeTable.NextId | database.py:35-39 | the new id exceeds every id in use; it is 1 for an empty table and otherwise one more than an id in use (the largest) |
| CodeTable.Insert | database.py:81 | `add_code` appends exactly one row with the given code, usage 0 and an id no row has; earlier rows are unchanged and ascending ids stay ascending |
| CodeTable.DeleteId | database.py:113 | `delete_code` keeps exactly the rows whose id differs; it is a no-op when the id is absent and shrinks the table when present |
| CodeTable.DeleteIdWellFormed | database.py:113 | deleting rows keeps the remaining ids ascending (fetch order is kept) |
| CodeTable.DeleteIdDistinct | database.py:113 | deleting rows keeps code values distinct |
| CodeTable.IncrementId | database.py:128 | `increment_code_usage` keeps every row's position, id and code; only rows with that id gain exactly one use; an absent id changes nothing |
| CodeTable.IncrementIdKeepsInvariants | database.py:128 | incrementing keeps ids ascending, codes distinct and `code_exists` answers unchanged |
| CodeTable.CodeExists | database.py:135-152 | true iff the store answers and some row holds that code; False on a store error |
| CodeTable.Values | bot.py:131 | the fetched code column, position by position |
| CodeTable.IndexOf | bot.py:135 | `list.index`: a position holding the value with no earlier occurrence |
| Ledger.CanAddCode | database.py:179-198 | true iff the store answers and no add record pairs this user with this code |
| Ledger.CanGetCode | database.py:201-220 | true iff the store answers and no get record of this user has a timestamp strictly after `now - 3600` |
| Ledger.CanAddIgnoresOtherRecords | database.py:191-195 | records of other users and all get records never change `can_add_code` |
| Ledger.AddRefusalIsPermanent | database.py:191-195 | once refused, a (user, code) add stays refused however the ledger grows |
| Ledger.CanGetIgnoresOtherRecords | database.py:213-217 | records of other users and all add records never change `can_get_code` |
| Ledger.CanGetStaysTrue | database.py:211-217 | without new gets, eligibility persists as time moves forward |
| Ledger.GetWindowIsStrict | database.py:211-217 | a get at `t` blocks its user at every instant before `t + 3600`; at `t + 3600` and later it no longer counts |
| Database.Store.constructor | database.py:33-60 | both tables start empty |
| Database.Store.AddCode | database.py:73-85 | the codes table becomes `Insert` of the old one (unchanged on a store error); the ledger is untouched |
| Database.Store.DeleteCode | database.py:105-117 | the codes table becomes `DeleteId` of the old one (unchanged on a store error); the ledger is untouched |
| Database.Store.IncrementCodeUsage | database.py:120-132 | the codes table becomes `IncrementId` of the old one (unchanged on a store error); the ledger is untouched |
| Database.Store.LogUserActivity | database.py:155-176 | exactly one record `(user, action, code, now)` is appended and nothing earlier changes; nothing happens on a store error |
| Text.Split | bot.py:221 | `str.split`: at least one piece, no piece holds the separator, and joining the pieces with it gives the input back |
| Text.SplitJoin | bot.py:221 | splitting undoes joining separator-free pieces |
| Text.ParseIntRoundTrip | bot.py:222 | `int(str(n)) == n` for every integer |
| Text.DigitsRoundTrip | bot.py:182 | the decimal digits written for a natural number read back as that number |
| Confirm.UsagePayloadRoundTrip | bot.py:221-222 | parsing `confirmUsage_{codeId}_{userId}` gives back the code id (as text that reads back as the id) and the user id |
| Confirm.YesPayloadRoundTrip | bot.py:257 | parsing `confirmYes_{codeId}` gives back the code id |
| Confirm.PayloadPrefixes | bot.py:210-269 | each payload is routed to its own handler: no payload starts with another kind's prefix (usage avoids Yes and No, Yes avoids usage, No avoids usage and Yes) |
| Confirm.PromptIffRequester | bot.py:228-243 | pressing the offer's button yields the Yes/No prompt iff the presser is the encoded user; anyone else gets the not-authorized notice and the offer is unchanged |
| Confirm.ConfirmYesDeletes | bot.py:246-266 | "Yes" deletes the prompt message whoever presses it |
| Confirm.ConfirmNoKeepsMessage | bot.py:269-284 | "No" only answers "cancelled" and leaves any message as it is, whoever presses it |
| Confirm.CallbackTransitions | bot.py:210-284 | a press either changes nothing, or prompts for a parsed usage payload naming the presser, or deletes for a parsed Yes payload; a payload that fails to parse changes nothing |
| Engine.AlnumRun | bot.py:26 | the greedy `[a-zA-Z0-9]+`: the longest prefix of ASCII letters and digits |
| Engine.CodeRegexMeaning | bot.py:81 | a code passes iff it is a non-empty ASCII alphanumeric word, optionally followed by a single final newline |
| Engine.CodeRegexExamples | bot.py:26 | "abc123" and "abc\n" pass; "ab-12" and "" fail |
| Engine.SubmitCheckOrder | bot.py:81-112 | the format check comes first and wins whatever the store holds; eligibility comes before existence; a bad format and a repeat add give the same reply; every refusal leaves both tables unchanged; a failing store refuses |
| Engine.SubmitAccepted | bot.py:89-101 | an add is accepted iff the format is valid, the store answers, the user never added this code and no live row holds it; then exactly one fresh row (usage 0) is inserted and one add record is logged, after which the code exists and the same user may not add it again |
| Engine.RepeatAddRefused | bot.py:85-98 | after an accepted add, the same user's repeat add is refused and changes nothing, even if the code was deleted since |
| Engine.SubmitKeepsTableInvariants | bot.py:89-98 | `/povo_add` keeps ids ascending and code values distinct, and only appends to the ledger |
| Engine.Pick | bot.py:175 | the picked row is a live row |
| Engine.RetryStep | bot.py:196-199 | an exhausted pick is deleted, the table strictly shrinks, and the result is that of the handler on the smaller table |
| Engine.ServeNoChangeWhenLimitedOrEmpty | bot.py:166-207 | a rate-limited user or an empty table gets a reply and changes nothing; a failing store answers rate-limited |
| Engine.ServeLedger | bot.py:175-199 | the reply is rate-limited iff the first check fails; a delivery logs exactly one get record for the user and carries the `confirmUsage` button for that code and user; any other outcome logs nothing |
| Engine.ServeDelivered | bot.py:178-191 | a delivered code was live with usage below 10 and its row afterwards holds exactly one more use |
| Engine.ServeRetiresOnlyExhausted | bot.py:195-199 | every row `/povo` removes had usage of at least 10, apart from the delivered row, whose old version gives way to its incremented copy |
| Engine.ServeAddsNoRows | bot.py:171-199 | every row afterwards was there before, or is the delivered row with one more use |
| Engine.ServeKeepsTableInvariants | bot.py:171-199 | `/povo` keeps ids ascending and code values distinct, and only appends to the ledger |
| Engine.ServeEmptyTable | bot.py:200-203 | a "no codes" reply leaves the table empty |
| Engine.ServeEmptyOnlyWhenExhausted | bot.py:171-203 | "no codes" means every live code had reached 10 uses; while a code below 10 is live, an eligible user is served |
| Engine.ServeDrawsBounded | bot.py:196-199 | the retry recursion reads at most one draw per live row, so it is at most `|codes|` deep |
| Engine.SecondRequestWithinHourLimited | bot.py:166-207 | after a delivery at `now`, the same user's request before `now + 3600` is rate-limited and changes nothing |
| Engine.RemoveAsWrittenDenseIds | bot.py:131-139 | when the ids are exactly 1..n in fetch order, the positional delete is the correct delete |
| Engine.RemoveAsWrittenUnknownNoOp | bot.py:144-148 | an unknown code, or a failing store, gives "not found" and changes nothing |
| Engine.RemoveAsWrittenGapCounterexample | bot.py:135-139 | with ids 2 and 3, deleting "c" removes "b"; with a lone id 2, deleting "b" removes nothing; both report success |
| Engine.GapReachableByHandlers | bot.py:131-139 | the bot's own handlers reach that state: adding a, b and c and then deleting a leaves ids 2 and 3, and deleting c then removes b |
| Engine.RemoveCodeDeletesTheMatch | bot.py:131-148 | the corrected delete reports success iff the code is live, removes exactly the rows holding it and keeps every other row and the ledger |
| Engine.ListingReadsBack | bot.py:330-339 | when no code holds a newline, the listing, split at newlines, is the header, then one `ID: …, Code: …, Usage count: …` line per row in fetch order, then the empty piece after the final newline |
| Engine.NewlineCodeAccepted | bot.py:81-101 | a code ending in a newline, such as "abc\n", passes the format check and is stored |
| Engine.NewlineCodeSplitsItsLine | bot.py:335-336 | a stored code holding a newline breaks its listing line: that row's line is never one of the lines the listing splits into |
| Engine.ListingFailsClosed | bot.py:329-344 | an empty table or a failing store gives the fixed "No referral codes" text; a non-empty table read without error never does |
| Bot.AddReferralCode | bot.py:64-112 | the handler's reply and the new store contents are those of `Engine.Submit` |
| Bot.DeleteReferralCode | bot.py:115-148 | the handler's reply and the new store contents are those of `Engine.RemoveAsWritten` |
| Bot.SendReferralCode | bot.py:151-207 | the retry loop terminates, and its reply and new store contents are those of `Engine.Serve` |
| Bot.AppendLines | bot.py:334-336 | the loop's accumulated text is one line per row in fetch order |
| Bot.ListCodes | bot.py:313-344 | the text sent is `Engine.Listing` of the table |
| CodeTable.GetCodes | database.py:88-102 | definition of `get_codes`: the table in fetch order, or `[]` on a store error; its properties are stated through `Engine.ListingFailsClosed`, `Engine.RemoveAsWrittenUnknownNoOp` and `Engine.ServeNoChangeWhenLimitedOrEmpty` |
| Text.IntToString | bot.py:182 | `str(n)`: every character is a digit or a leading '-'; its properties are `Text.ParseIntRoundTrip` and `Confirm.NoUnderscoreInInt` |
| Text.ParseInt | bot.py:222 | definition of `int(s)` on an optional sign and ASCII digits, `None` where Python raises; its property is `Text.ParseIntRoundTrip` |
| Text.Join | bot.py:182 | definition of the `_`-separated f-string payloads; its properties are `Text.SplitJoin` and `Text.JoinSnoc` |
| Confirm.UsagePayload | bot.py:182 | definition of `confirmUsage_{codeId}_{userId}`; its properties are `Confirm.UsagePayloadRoundTrip` and `Confirm.PayloadPrefixes` |
| Confirm.YesPayload | bot.py:231 | definition of `confirmYes_{code_id}`; its properties are `Confirm.YesPayloadRoundTrip` and `Confirm.PayloadPrefixes` |
| Confirm.NoPayload | bot.py:232 | definition of `confirmNo_{code_id}`; its properties are `Confirm.PayloadPrefixes` and `Confirm.ConfirmNoKeepsMessage` |
| Confirm.ParseUsage | bot.py:221-222 | definition of the three-way `split('_')` and `int()`, `None` where the handler raises; its property is `Confirm.UsagePayloadRoundTrip` |
| Confirm.ParseYes | bot.py:257 | definition of the two-way `split('_')`, `None` where the handler raises; its property is `Confirm.YesPayloadRoundTrip` |
| Confirm.OnCallback | bot.py:210-284 | definition of the three callback handlers, routed by `startswith` in registration order; its properties are `Confirm.PromptIffRequester`, `Confirm.ConfirmYesDeletes`, `Confirm.ConfirmNoKeepsMessage` and `Confirm.CallbackTransitions` |
| Engine.MatchesCodeRegex | bot.py:26 | definition of `re.match(CODE_REGEX, …)`; its properties are `Engine.CodeRegexMeaning` and `Engine.CodeRegexExamples` |
| Engine.Submit | bot.py:64-112 | definition of `add_referral_code_command`; its properties are `Engine.SubmitCheckOrder`, `Engine.SubmitAccepted`, `Engine.RepeatAddRefused` and `Engine.SubmitKeepsTableInvariants` |
| Engine.Serve | bot.py:151-207 | definition of `send_referral_code`, retry included; its properties are `Engine.ServeLedger`, `Engine.ServeDelivered`, `Engine.ServeRetiresOnlyExhausted`, `Engine.ServeAddsNoRows`, `Engine.ServeKeepsTableInvariants`, `Engine.ServeEmptyOnlyWhenExhausted`, `Engine.ServeDrawsBounded` and `Engine.SecondRequestWithinHourLimited` |
| Engine.RemoveAsWritten | bot.py:115-148 | definition of `delete_referral_code_command` as written (deletes id = position + 1); its properties are `Engine.RemoveAsWrittenDenseIds`, `Engine.RemoveAsWrittenUnknownNoOp` and `Engine.RemoveAsWrittenGapCounterexample` |
| Engine.RemoveCode | bot.py:131-143 | the corrected delete, by the found row's own id; its property is `Engine.RemoveCodeDeletesTheMatch` |
| Engine.RowLine | bot.py:336 | definition of one `/list` line without its newline; its properties are `Engine.ListingReadsBack` and `Engine.NewlineCodeSplitsItsLine` |
| Engine.Lines | bot.py:334-336 | definition of the text the `/list` loop appends; its property is `Engine.LinesAsJoin`, and `Bot.AppendLines` is proved to build it |
| Engine.Listing | bot.py:326-343 | definition of the text `/list` sends; its properties are `Engine.ListingReadsBack`, `Engine.ListingFailsClosed` and `Engine.NewlineCodeSplitsItsLine` |

## Left out

- The Telegram transport is not modelled: `Bot`, `Dispatcher`, `message.reply` and `answer`, `edit_message_text`, `answer_callback_query` and polling (bot.py:29-30, bot.py:347-364). Replies are result tags, and button presses act on a `ChatMessage` value.
- `/start` (bot.py:42-61) only sends a fixed welcome text.
- The deletion of the `/povo_add` command message in group chats (bot.py:104-106) is a transport side effect.
- `schedule_message_deletion` (bot.py:287-310) is an hour-long `asyncio.sleep` timer. Its one rule is that a message already gone is ignored.
- Logging (bot.py:33-39, database.py:12-18) is left out.
- The SQLite connection and the table creation (database.py:22-60) become in-memory sequences that start empty.
- The Tokyo clock and `strftime` (database.py:20, database.py:63-70) are replaced by integer seconds in `now`. One `now` serves a whole handler call, including its retries.
- config.py holds only environment loading and fixed texts.
- The check-then-insert race between concurrent `/povo_add` calls is not modelled. The model is single-threaded.
- A store failure that hits some statements of one handler call but not others is not modelled. `down` applies to all statements of a call. In the source, if `add_code` fails but `log_user_activity` succeeds, the user gets `CODE_ADDED_SUCCESS` and an add record for a code that is not in the table, and that record blocks the user from adding the code again. `Engine.SubmitAccepted` does not cover that mixed case.
- The queries of `can_add_code` and `can_get_code` (database.py:192, database.py:214) write `"add"` and `"get"` in double quotes. The model reads these as string literals, which relies on SQLite's legacy handling of double-quoted strings. On an SQLite build without it, both queries raise and always answer False, which is the model's `fault` case.
- How aiogram's `get_args` cuts the argument out of the command text is not modelled. Handlers receive the argument string.
- Telegram's 64-byte limit on button payloads is not modelled.
- Ids are unbounded integers. SQLite's 64-bit rowid limit is not modelled.
- Python's recursion limit is not modelled. `send_referral_code` awaits itself once per exhausted pick (bot.py:199). After about 1000 exhausted picks in one `/povo`, the source raises `RecursionError`, the deletions made so far stay committed, and no reply is sent. `Engine.Serve` and `Bot.SendReferralCode` always end in a delivery or "no codes".
- The fetch order is taken to be ascending id. The source does not guarantee it, because `SELECT * FROM codes` has no `ORDER BY`.
- Text.ParseInt: accepts only an optional sign followed by ASCII digits. Python's `int()` also strips surrounding whitespace and accepts non-ASCII digits, which the bot's own payloads never contain.

## Findings

| source | as written | input that shows it | evidently intended | confidence | as-written member | corrected member |
|---|---|---|---|---|---|---|
| bot.py:135 | `/povo_del` deletes the id "position of the code in the fetch + 1", assuming ids are 1..n | rows (2, "b") and (3, "c"), reachable by adding a, b, c and deleting a; `/povo_del c` deletes "b" and reports success | delete the row that holds the code, by its own id | not executed; proved on the model | Engine.RemoveAsWrittenGapCounterexample | Engine.RemoveCodeDeletesTheMatch |

`Engine.RemoveAsWritten` is the handler as written, and `Bot.DeleteReferralCode`
implements it. `Engine.RemoveCode` is the corrected definition.
`Engine.RemoveAsWrittenDenseIds` proves the two agree whenever the ids are
exactly 1..n. A delete of any row but the one with the largest id, including
`/povo` retiring an exhausted code, leaves a gap and breaks that condition.
