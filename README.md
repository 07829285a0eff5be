# GroupMsgSyncTools, modelled in Dafny

GroupMsgSyncTools is a Telegram bot that relays the messages of one group (the
source chat) into another (the target chat). It keeps an append-only SQLite
table of every relayed message and answers `/query` searches over the messages
whose relay was confirmed. This project models the bot's core and proves
properties of that model:

- `database.dfy` (module `Database`) models the `messages` table. The class
  `MessageStore` holds the rows in insertion order and the AUTOINCREMENT
  counter. Its methods `SaveMessage` (the INSERT) and `MarkAsSynced` (the
  UPDATE) are proved against the specification functions `NewRow` and
  `Marked`. The read-only statements are functions over the rows:
  `GetMessage`, `QueryMessages` (`WHERE text LIKE ? AND synced = 1 ORDER BY
  timestamp DESC LIMIT 20`) and `GetStats` (the COUNT/SUM/MAX aggregate).
  The sync invariant is also here: a row has a sync time exactly when it is
  synced, and a synced row never goes back.
- `sql_like.dfy` (module `SqlLike`) is SQLite's default `LIKE`: `%` and `_`
  are wildcards, and case is folded for ASCII letters only. It proves that
  the search pattern `%k%` is an ASCII-case-insensitive substring test when
  `k` holds no wildcard.
- `bot.dfy` (module `Bot`) holds the relay pipeline:
  - the ingest filter;
  - `getMessageType`;
  - the record `saveMessageToDb` builds;
  - the forward-or-fallback steps of `forwardMessage`, as the function
    `Relay` and the method `HandleMessage` acting on a `MessageStore`.

  How each step that can throw turns out (the insert, the forward, the
  marks, the fallback send) is an input (`Outcomes`). The transport calls
  made are an output (`Call`). A run of events (`RelayAll`) keeps the
  table's invariants.
- `query_command.dfy` (module `QueryCommand`) is the `/query` handler. It
  covers keyword extraction, the usage, error and not-found replies, and the
  listing. The method `RenderResults` builds the listing in a loop, as the
  handler does.
- `config.dfy` (module `AppConfig`) is the start-up configuration and its
  validation, with the environment given as a map.
- `js_string.dfy` (module `JsString`) holds the JavaScript built-ins the
  core relies on: `trim`, `startsWith`, `indexOf`, `replace` with a string
  pattern, `parseInt` with no radix, and the decimal rendering of numbers.
  `parseInt` is proved to read back every decimal rendering.
- `types.dfy` (module `Types`) holds `MessageRecord`, `SyncStats`, and
  JavaScript truthiness of optional strings and numbers.
- `wrappers.dfy` (module `Wrappers`) holds `Option` and `Result`.

Clock readings (`Date.now()`, the start of the local day) are parameters
(`now`, `todayTimestamp`). So is the local-time rendering of a timestamp in
the listing (`timeText`).

Three behaviours of the code worth knowing, each modelled as written:

- The keyword search uses SQLite's `LIKE`, so it ignores ASCII case. The
  keyword is not escaped, so `%` and `_` in a keyword act as wildcards
  (`SqlLike.UnderscoreKeywordMatchesNonEmpty`).
- When the mark after a successful forward throws, there is no separate
  fallback for it. That mark sits in the same `try` as the forward, so its
  throw is handled like a failed forward, and a text message is also sent as
  fallback text (`Bot.MarkFailureAfterForwardSendsBoth`).
- The storage path is optional: without `DB_PATH` the code uses
  `./data/messages.db`.

## Model

| member | source | states |
|---|---|---|
| Database.NullIfFalsyNumber | src/database.ts:87-94 | `value \|\| null` on a number: NULL exactly when the value is absent or 0, the value itself otherwise |
| Database.NullIfEmpty | src/database.ts:88-90 | `value \|\| null` on a string: NULL exactly when the value is absent or empty, the value itself otherwise |
| Database.NewRow | src/database.ts:84-95 | the inserted row has the given id, `synced` is 1 exactly when the record is synced and 0 otherwise, and no optional column holds 0 or the empty string |
| Database.ToRecordOfNewRow | src/database.ts:84-120 | storing a record and reading it back gives the same record under the new id, when no optional field is 0 or empty |
| Database.NewRowOfToRecord | src/database.ts:108-120 | a stored row read back as a record (`synced === 1`) and stored again gives the same row |
| Database.MessageStore.constructor | src/database.ts:27-40 | a new table is empty and numbering starts at 1 |
| Database.MessageStore.SaveMessage | src/database.ts:83-97 | appends exactly one row, built from the record with falsy optional fields stored as NULL; returns its id, which is larger than every id already in the table; no uniqueness check, so saving twice stores two rows |
| Database.MessageStore.MarkAsSynced | src/database.ts:100-102 | the new table is `Marked(old rows, id, now)`; the counter is unchanged |
| Database.Marked | src/database.ts:55-59 | the UPDATE sets `synced = 1` and the sync time on the row with the id, and leaves every other row exactly as it was |
| Database.MarkedUnknownId | src/database.ts:55-59 | an id no row carries changes nothing |
| Database.MarkedTwice | src/database.ts:57 | marking twice is the same as marking once with the later time: the flag stays 1, and the sync time is replaced rather than kept |
| Database.FindRow | src/database.ts:61-63 | `WHERE id = ?` finds the first row with that id, or reports that no row has it |
| Database.GetMessage | src/database.ts:105-121 | null exactly when no row has the id; otherwise a record with that id, read back from a row of the table |
| Database.GetMessageByPosition | src/database.ts:105-121 | in a well-formed table, `getMessage(id)` is the id-th row read back as a record, and null for any other id |
| Database.SaveThenGet | src/database.ts:83-121 | reading a just-saved record gives back every field, the new id, and `synced` as saved; a falsy optional field (0, "", absent) comes back absent |
| Database.MarkThenGet | src/database.ts:100-121 | reading a just-marked record gives it back synced, with the given sync time, and otherwise unchanged |
| Database.Matching | src/database.ts:65-67 | the WHERE clause keeps exactly the synced rows whose non-null text matches `%keyword%`: every kept row is such a row of the table, and every such row is kept |
| Database.InsertByTimestamp | src/database.ts:68 | inserting into a list sorted newest first keeps it sorted and is a permutation of the list plus the new row |
| Database.SortByTimestampDesc | src/database.ts:68 | the result is sorted by timestamp, newest first, and is a permutation of its input |
| Database.TopHits | src/database.ts:68-69 | the LIMIT keeps the number of hits, or 20 when there are more; the rows kept are sorted newest first, are all hits, and are a sub-multiset of the hits, so no hit is kept twice |
| Database.TopHitsDistinct | src/database.ts:68-69 | in a well-formed table no two kept rows share an id |
| Database.QueryMessages | src/database.ts:124-138 | at most 20 records, newest first; each is read back from a row of the table that is synced and whose text matches `%keyword%`; in a well-formed table no two records share an id; they are the kept rows in order |
| Database.QueryOrderAndLimit | src/database.ts:65-70 | at most 20 records, as many as there are hits up to 20, newest first |
| Database.QueryKeepsNewest | src/database.ts:68-69 | a hit newer than some returned record is itself returned: the LIMIT only drops the oldest hits |
| Database.QueryFindsAllFewHits | src/database.ts:65-70 | with at most 20 hits, every synced row whose text matches is returned |
| Database.QuerySubstring | src/database.ts:125 | for a keyword without `%` or `_`, the search returns synced records whose text contains the keyword, ASCII case ignored |
| Database.StatsQuery | src/database.ts:72-79 | the aggregate over the synced rows: a count of at least 0; the SUM is NULL exactly when no row is counted and otherwise lies between 0 and the count; the MAX is NULL when no row is counted |
| Database.GetStats | src/database.ts:142-152 | today's count lies between 0 and the total; the last sync time is never 0, and is present only when some row is synced |
| Database.StatsCounts | src/database.ts:72-79 | `totalMessages` is the number of synced rows and `todayMessages` the number of synced rows from today on, so `todayMessages <= totalMessages` |
| Database.StatsWithoutSyncedRows | src/database.ts:142-152 | without a synced row the statistics are 0, 0 and no last sync time |
| Database.MaxSyncIsMaximum | src/database.ts:76 | `MAX(sync_timestamp)` over synced rows is the sync time of one of them, and no synced row's sync time exceeds it |
| Database.LastSyncTimeIsMaximum | src/database.ts:149-151 | `lastSyncTime` is that maximum, except that a maximum of 0 reads as absent because of `\|\| undefined`; when it is absent, either no synced row has a sync time or one has the time 0 |
| Database.SaveKeepsSyncInvariant | src/database.ts:83-97 | saving an unsynced record without a sync time keeps the invariant, only appends, and stores the row unsynced |
| Database.SaveSyncedWithoutTimeBreaksInvariant | src/database.ts:93-94 | the store itself does not enforce the invariant: a record saved as synced without a sync time breaks it |
| Database.MarkKeepsSyncInvariant | src/database.ts:100-102 | marking keeps the invariant, changes only the sync columns, and never clears a flag |
| SqlLike.LikePrefix | src/database.ts:125 | `k%` matches exactly the strings that start with `k`, ASCII case ignored, when `k` holds no wildcard |
| SqlLike.LikeLeadingPercent | src/database.ts:125 | a leading `%` lets the rest of the pattern match at any position |
| SqlLike.LikeSubstring | src/database.ts:125 | for a keyword without wildcards, the pattern `%k%` matches exactly the strings containing `k`, ASCII case ignored |
| SqlLike.UnderscoreKeywordMatchesNonEmpty | src/database.ts:125 | the unescaped keyword `_` matches every non-empty text |
| JsString.TrimStart | src/bot.ts:144 | the result is a suffix of the input, what is cut is white space, and the result does not start with white space |
| JsString.TrimEnd | src/bot.ts:144 | the result is a prefix of the input, what is cut is white space, and the result does not end with white space |
| JsString.Trim | src/bot.ts:144 | the trimmed string is a contiguous part of the input with only white space cut on either side, and it neither starts nor ends with white space |
| JsString.TrimEmptyIffBlank | src/bot.ts:144-146 | trimming gives the empty string exactly when the input is all white space |
| JsString.IndexOfFrom | src/bot.ts:144 | returns the first position at or after `from` where the pattern occurs, or None when it occurs nowhere from there |
| JsString.ReplaceFirst | src/bot.ts:144 | a pattern that does not occur leaves the string as it is |
| JsString.ReplaceFirstAtStart | src/bot.ts:144 | removing a pattern that starts the string removes exactly that prefix |
| JsString.ReplaceFirstRemoves | src/bot.ts:144 | only the first occurrence is removed, and the rest of the string is kept around it |
| JsString.DigitPrefix | src/config.ts:7-8 | `parseInt` reads the longest run of digits: all of them are digits, and the next character is not one |
| JsString.ParseInt | src/config.ts:7-8 | a number, rather than NaN, only comes out of a string that holds a decimal digit |
| JsString.ParseIntOfIntToString | src/config.ts:7-8 | `parseInt` reads every decimal integer rendering back as that integer, negative ones included |
| JsString.ParseIntWithoutDigits | src/config.ts:7-8 | a string with no decimal digit parses to NaN |
| AppConfig.LoadConfig | src/config.ts:5-19 | a configuration that loads has a non-empty token taken from BOT_TOKEN, non-zero chat ids that are what `parseInt` reads from SOURCE_CHAT_ID and TARGET_CHAT_ID, and DB_PATH or the default path; failure gives exactly one of the two start-up errors |
| AppConfig.MissingTokenRejected | src/config.ts:13-15 | an unset or empty BOT_TOKEN fails start-up with "BOT_TOKEN is required" |
| AppConfig.MissingChatIdRejected | src/config.ts:7-19 | an unset or empty chat id defaults to "0" and fails start-up |
| AppConfig.ZeroOrNaNChatIdRejected | src/config.ts:17-19 | a chat id that parses to 0 or to NaN fails start-up |
| AppConfig.ParsedChatIdsAccepted | src/config.ts:5-19 | any chat id values that `parseInt` reads as non-zero numbers (" +42", "42abc", "0x2A") load, as the parsed numbers, with DB_PATH or the default path |
| AppConfig.NonZeroChatIdsAccepted | src/config.ts:5-19 | any two non-zero decimal chat ids, negative ones included, load as they are, with DB_PATH or the default path |
| Bot.GetMessageType | src/bot.ts:36-47 | the type is "text" exactly when the message has a text field, and it is never empty |
| Bot.ClassifiedByFirstPresent | src/bot.ts:36-46 | the type is the name of the first content field the message has, in the order text, photo, video, document, audio, voice, sticker, video_note, animation |
| Bot.UnknownIffNoContent | src/bot.ts:36-47 | the type is "unknown" exactly when the message has none of those fields |
| Bot.BuildRecord | src/bot.ts:59-69 | the record is unsynced with no sync time; its timestamp is the date in milliseconds; its chat id is 0 when the chat is missing; it has the message's id, text and type; the sender's id, user name and first name are taken from the sender, and are all absent when there is none |
| Bot.Relay | src/bot.ts:79-109 | a filtered message or a failed save makes no call and stores nothing. An eligible message whose save succeeds is always stored as one new row and forwarded: the forward is the first call. The result is Forwarded exactly when the forward and its mark both succeed. A second call is made exactly when they did not and the text is non-empty; that call is the fallback `[转发失败] text` to the target. The result is FallbackSent exactly when that send and its mark succeed |
| Bot.HandleMessage | src/bot.ts:239-266 | handling a message changes the store and makes the calls exactly as `Relay` says, and keeps the store well formed |
| Bot.IgnoredIffFiltered | src/bot.ts:244-256 | a message is ignored exactly when it comes from another chat or none, from a bot, or has a text starting with '/' |
| Bot.MarkFailureAfterForwardSendsBoth | src/bot.ts:83-103 | when the mark after a successful forward throws, the text is also sent as fallback, so it reaches the target twice |
| Bot.RelayedRecord | src/bot.ts:258-266 | the saved record reads back as built: synced with the given time after Forwarded or FallbackSent, unsynced after Unsynced, and absent after Ignored or SaveFailed |
| Bot.UnsyncedNeverFound | src/bot.ts:94-107 | a record the pipeline leaves unsynced is never returned by a search |
| Bot.RelayKeepsInvariants | src/bot.ts:50-109 | one message keeps the table well formed and the sync invariant, never clears a flag, and leaves every row already in the table exactly as it was |
| Bot.RelayAllKeepsInvariants | src/bot.ts:239-266 | across any run of messages, the table stays well formed and sync-consistent, no synced row goes back to unsynced, and the rows already in the table are never changed, so a sync time once set is kept |
| QueryCommand.ExtractKeyword | src/bot.ts:144 | the keyword neither starts nor ends with white space |
| QueryCommand.KeywordOfCommand | src/bot.ts:143-144 | `/query rest` searches for `rest` trimmed, when `rest` does not mention the bot |
| QueryCommand.KeywordOfMentionCommand | src/bot.ts:144 | `/query@GroupMsgSyncToolsBot rest` searches for `rest` trimmed |
| QueryCommand.Sender | src/bot.ts:164 | the sender shown is never empty: the first name when it is non-empty, else the user name when it is non-empty, else "未知" |
| QueryCommand.Preview | src/bot.ts:165 | a non-empty text of up to 50 characters is shown whole; a longer one as its first 50 characters plus "..." (53 in all); no or empty text as the type in brackets |
| QueryCommand.PreviewParts | src/bot.ts:165 | a cut text ends in exactly "..." after its first 50 characters, and the brackets enclose exactly the message type |
| QueryCommand.Line | src/bot.ts:163-166 | every result line ends with a line break |
| QueryCommand.LineParts | src/bot.ts:163-166 | the line of the result at index i opens with its number i+1 and ". [", holds exactly the record's formatted time, and ends with "] ", the sender (first name, else user name, else 未知), ": ", the preview and a line break |
| QueryCommand.LinesPrefix | src/bot.ts:162-167 | the lines of the first k results are a prefix of the lines of all shown results, so earlier results come first |
| QueryCommand.ResultLineShown | src/bot.ts:161-167 | each of the first ten results has its own numbered line: the listing starts with the header, then the lines of the results before it, then that line |
| QueryCommand.ListingOfMany | src/bot.ts:161-171 | with more than ten results the listing is the header, the lines of the first ten results only, and the footer counting the other n-10 |
| QueryCommand.ListingOfFew | src/bot.ts:161-168 | with at most ten results the listing is the header and a line for every result, with no footer |
| QueryCommand.ListingEnd | src/bot.ts:169-171 | with more than ten results the listing ends with the footer "... 还有 n-10 条消息未显示"; otherwise it ends with the last line's break |
| QueryCommand.RenderResults | src/bot.ts:161-171 | the loop that appends one line per shown result builds exactly the listing: header, at most ten lines, footer |
| QueryCommand.QueryReplyCases | src/bot.ts:143-171 | the usage hint exactly for a blank keyword, the error reply exactly when the search threw, the not-found reply exactly when the search found nothing, and the listing of the results otherwise |
| QueryCommand.HandleQuery | src/bot.ts:140-184 | the handler replies exactly as `QueryReply` says, and a command without text searches as the empty text does |
| QueryCommand.UsageIffBlankKeyword | src/bot.ts:143-150 | the usage hint is the reply exactly when the command text, with "/query" and the bot mention cut out, is all white space |
| QueryCommand.NotFoundQuotesKeyword | src/bot.ts:155-159 | when nothing matches, the reply quotes the keyword searched for |
| QueryCommand.ListedAreSyncedMatches | src/bot.ts:152-167 | the reply is the listing of the search results, and every listed record is a synced row of the store whose text matches `%keyword%` |

## Left out

- Telegram transport: launching, polling, `deleteWebhook`, `setMyCommands`, `ctx.reply`, and the diagnostics and delayed exit on a 409 conflict. These are network I/O. The forward and send results are inputs; replies are returned as strings.
- Concurrent handlers and the SIGINT/SIGTERM handlers: the model handles events one at a time. In polling mode the async message handler awaits the forward and the fallback send (src/bot.ts:269, 85, 99), and nothing in the code serialises updates, so two relays can interleave at those awaits. The model does not capture that interleaving. Each store step keeps the sync invariant on its own (`Database.SaveKeepsSyncInvariant`, `Database.MarkKeepsSyncInvariant`), and a mark only touches the row with its own id (`Database.Marked`), so the invariant does not depend on how the steps of two relays are ordered.
- Logging: the logging middleware and the `log` helpers write to the console and change no state.
- The clock and the time zone: `Date.now()`, the start of the local day and `toLocaleString` are parameters (`now`, `todayTimestamp`, `timeText`).
- The SQLite engine, the prepared statements, the indices and the creation of the data directory: the table is a sequence of rows. The indices do not change any result.
- `dotenv` and the reading of `process.env`: the environment is a map given to `LoadConfig`.
- The `/stats` reply text, the `/help` and `/start` texts, and the `bot.catch` reply are fixed presentation. The statistics they show are modelled by `GetStats`.
- A `/query` reply that throws: the model returns a single reply. It does not model a `ctx.reply` that throws (src/bot.ts:147, 156, 173), after which the handler sends the error reply "查询消息时出错" (src/bot.ts:179). It also does not model that error reply failing in turn, which is only logged (src/bot.ts:180-182).
- `Database.close`: it releases the connection at shutdown.
- Bot.HandleMessage: does not model `ctx.message` being absent; the message handler is only registered for message updates.
- Bot.HandleMessage: does not model the `!recordId` test. A saved row's id is at least 1, so that test only catches a failed save, which is the `saveThrows` outcome.
- Bot.Relay: assumes a mark that throws has changed no row.
- Database.SortByTimestampDesc: puts rows with equal timestamps in table order, where SQLite leaves their order unspecified. No lemma relies on the order of ties.
- Database.MessageStore.SaveMessage: does not model AUTOINCREMENT running out of ids, which happens at 2^63 rows.
- JsString.ParseInt: integers are unbounded. The model does not capture JavaScript numbers losing precision beyond 2^53, or `parseInt` turning very long digit strings into an approximation or Infinity.
- QueryCommand.Preview: the model counts the 50-character limit in Unicode characters. JavaScript's `length` and `substring` count UTF-16 code units, so text outside the Basic Multilingual Plane is cut at a different place and can be split inside a surrogate pair.
