# NWBirthdaySystem in Dafny

This project models NWBirthdaySystem, a chat bot that keeps a table of birthdays and announces them.

**Inbound messages.** A user writes lines of the form `month:day:name`. On every polling cycle the
program reads the new updates. It logs each message above the last logged message id and parses it
line by line:

- It stores each accepted line as a birthday, encoded as the 16-bit code `month*32+day`.
- It answers every line, either "Inserted birthday of …" or "Could not parse message".

**The daily sweep.** The first polling cycle sweeps at whatever hour the program starts, because
`future` starts at `DateTime.MinValue`. After that, a cycle sweeps only once the clock is past 08:00
of the day after the previous sweep. A sweep queries the table for today's code and sends
"`<name>`'s birthday is today" to the chat each matching birthday came from.

**The tables.** The PostgreSQL tables are created from the record classes by a DDL string builder.

**Modules.** Each file holds one module.

| file | module | models |
|---|---|---|
| `wrappers.dfy` | `Wrappers` | `Option` and `Result` |
| `models.dfy` | `Models` | the records `Birthday` and `BirthdayEntry`, the integer widths, and the unchecked `(short)` cast (`WrapShort`) |
| `dotnet_text.dfy` | `DotNetText` | the .NET string operations the parser depends on, written out (below) |
| `entry_parser.dfy` | `EntryParser` | the per-line parse of `Program.CheckMessages` as a pure function with its error cases |
| `schema.dfy` | `Schema` | `PostGres.CreateTableWithObject`, working on explicit property descriptors (name, type tag, attribute list) instead of reflection. Its loops are methods proved against the function `CreateTableSql` |
| `postgres.dfy` | `PostGresStore` | the store. The class `PostGres` holds the tables `Birthdays` and `BirthdayEntries` as sequences of rows. Its methods are proved against specification functions on those sequences |
| `messaging.dfy` | `Messaging` | the transport. It delivers a batch of inbound messages, and `MessageContext` keeps the log of sent messages |
| `scheduler.dfy` | `Scheduler` | the two variables of `Program.Run` (`past`, `future`), with time in whole minutes since `DateTime.MinValue` |
| `program.dfy` | `BirthdaySystem` | `Program`. Specification functions say what one line, one message, one batch, one sweep and one run of cycles do to the observable state: both tables and the sent messages. The class `Program` holds the imperative methods proved against them |

**The .NET operations in `DotNetText`:**

- `string.Split(char)`, which keeps empty fields.
- `Replace("\r\n", "\n")`.
- `short.Parse`, with `NumberStyles.Integer` in the invariant culture.
- `int.ToString()`.

**Where the model follows the code.** It follows the code as written. "Inserted birthday of …" is
sent after every `UpsertBirthday` call, whatever it returns (Program.cs:101-102). The record's
`BirthDate` holds the 16-bit wrapped product, so month 2048 is accepted as month 0.

**What the store does with bad writes.** The schema's constraints are part of the store model:

- `BirthdayEntries` has `Id` as its primary key, so logging an id twice fails.
- Every string column is `character varying(100)`, so an over-long value fails.

Either failure is an exception in the source. The model routes it to the `catch` that the source
reaches:

- A failed `UpsertMessage` skips the whole message.
- A failed `UpsertBirthday` gets the line's failure reply.

## Model

| member | source | states |
|---|---|---|
| Models.WrapShort | NWBirthdaySystem/Program.cs:85 | the `(short)` cast: the result is a 16-bit value congruent to its argument modulo 2^16, and equal to it when the argument already fits |
| DotNetText.Split | NWBirthdaySystem/Program.cs:79 | `string.Split(char)` always yields at least one field |
| DotNetText.SplitJoin | NWBirthdaySystem/Program.cs:84 | splitting loses nothing: joining the fields with the separator gives back the text, and no field contains the separator |
| DotNetText.SplitCount | NWBirthdaySystem/Program.cs:84 | the number of fields is one more than the number of separators |
| DotNetText.SplitConcat | NWBirthdaySystem/Program.cs:84 | a separator splits a text into two halves that are split independently |
| DotNetText.SplitWithoutSeparator | NWBirthdaySystem/Program.cs:84 | a text without the separator is a single field |
| DotNetText.NormalizeNewlines | NWBirthdaySystem/Program.cs:79 | `Replace("\r\n", "\n")` never lengthens the text |
| DotNetText.NormalizeDropsOnlyCarriageReturns | NWBirthdaySystem/Program.cs:79 | the replacement removes only carriage returns and keeps every line feed |
| DotNetText.NormalizeUndoesCrLf | NWBirthdaySystem/Program.cs:79 | a text written with CR LF line breaks is normalised back to its LF form |
| DotNetText.NoLineFeedUnchanged | NWBirthdaySystem/Program.cs:79 | a text without a line feed is left exactly as it is, carriage returns included: only a CR immediately followed by LF is replaced |
| DotNetText.LoneCarriageReturnKept | NWBirthdaySystem/Program.cs:79 | a lone carriage return in a line such as `A\r3` is kept, which dropping every carriage return would not do |
| DotNetText.Lines | NWBirthdaySystem/Program.cs:79 | a message has one more line than it has line feeds |
| DotNetText.SingleLine | NWBirthdaySystem/Program.cs:79 | a text without a line feed is a single line, carriage returns included |
| DotNetText.NormalizeKeepsFinalLineFeed | NWBirthdaySystem/Program.cs:79 | a text ending in a line feed still ends in one after normalisation |
| DotNetText.TrailingLineBreakGivesEmptyLine | NWBirthdaySystem/Program.cs:79 | a message ending in a line break has an empty last line |
| DotNetText.ParseShort | NWBirthdaySystem/Program.cs:85-86 | `short.Parse` yields `n` exactly when the text is white space, an optional `+` or `-`, one or more digits spelling `n` with that sign, and white space, and `n` is within the 16-bit range; any other text throws |
| DotNetText.ParseIntegerGrammar | NWBirthdaySystem/Program.cs:85-86 | trimming white space and reading a sign and digits accepts exactly the texts of that grammar, with the value they spell |
| DotNetText.DecimalString | NWBirthdaySystem/Program.cs:98 | `int.ToString()` is non-empty, starts with `-` exactly for a negative number, and is digits otherwise |
| DotNetText.NaturalStringValue | NWBirthdaySystem/Program.cs:98 | `ToString()` of a natural number is a non-empty digit string whose value is the number |
| DotNetText.ParseDecimalString | NWBirthdaySystem/Program.cs:98 | parsing the decimal text of any integer gives back the integer |
| DotNetText.DecimalStringInjective | NWBirthdaySystem/Program.cs:98 | different sender ids give different chat id strings |
| DotNetText.ParseShortOfDecimalString | NWBirthdaySystem/Program.cs:85-86 | `short.Parse` of a 16-bit value's decimal text gives back the value |
| DotNetText.BlankIsNotANumber | NWBirthdaySystem/Program.cs:85 | an empty or all-white field is not a number |
| DotNetText.BlankTrimsToEmpty | NWBirthdaySystem/Program.cs:85 | trimming an all-white field leaves nothing |
| EntryParser.ParseLine | NWBirthdaySystem/Program.cs:84-100 | the per-line parse; an accepted name is one colon-separated field, so it holds no colon |
| EntryParser.MonthPart | NWBirthdaySystem/Program.cs:85-90 | the wrapped `(short)(month*32)` passes the 0..400 check exactly when `month` modulo 2048 is at most 12, and is then `(month mod 2048)*32` |
| EntryParser.LineAccepted | NWBirthdaySystem/Program.cs:84-100 | a line is accepted iff it has at least three fields, fields 0 and 1 are shorts, the month is at most 12 modulo 2048 and the day is in 0..32; the record then holds `(month mod 2048)*32 + day` and exactly field 2 as the name, and later fields are dropped |
| EntryParser.AcceptedDateRange | NWBirthdaySystem/Program.cs:87-97 | every accepted birth date lies in 0..416, so the final `(short)` cast never wraps |
| EntryParser.NoColonInDecimal | NWBirthdaySystem/Program.cs:84 | a number's decimal text contains no colon |
| EntryParser.FormattedLineFields | NWBirthdaySystem/Program.cs:84 | a line `m:d:rest` splits into the two numbers followed by the fields of `rest` |
| EntryParser.ParseThreeFields | NWBirthdaySystem/Program.cs:85-100 | with three fields and two shorts, the outcome is the month-range error, the day-range error or the record, in that order of checks |
| EntryParser.ParseFormattedLine | NWBirthdaySystem/Program.cs:84-100 | the complete outcome of parsing `m:d:rest` for every pair of 16-bit values |
| EntryParser.FormatLineRoundTrip | NWBirthdaySystem/Program.cs:84-100 | writing a month in 0..12, a day in 0..32 and a colon-free name as `m:d:name` and parsing it gives back `m*32+d` and the name |
| EntryParser.MonthWrapsAt2048 | NWBirthdaySystem/Program.cs:85-87 | month 2048 wraps to a product of 0 and is accepted as month 0 |
| EntryParser.DayThirtyTwoAliasesNextMonth | NWBirthdaySystem/Program.cs:91-97 | day 32 of a month is stored with the code of day 0 of the next month |
| EntryParser.EmptyLineRejected | NWBirthdaySystem/Program.cs:85 | an empty line fails at the first parse |
| Schema.ScanAttributes | NWBirthdaySystem/Library/PostGres.cs:89-107 | the attribute loop appends the property's name once per key attribute, and raises the identity flag exactly for an auto-increment key |
| Schema.AppendType | NWBirthdaySystem/Library/PostGres.cs:112-146 | the chain of type tests appends exactly the SQL type of the property (`text` for a string named `Path`), and nothing for other types |
| Schema.AppendColumn | NWBirthdaySystem/Library/PostGres.cs:111-152 | one column is its quoted name and its type, and for an identity column the trailing `, ` is replaced by the identity clause |
| Schema.BuildColumns | NWBirthdaySystem/Library/PostGres.cs:84-154 | the property loop produces the prefix followed by every column in property order, and the key names in property order; the identity flag resets after each column |
| Schema.BuildCreateTable | NWBirthdaySystem/Library/PostGres.cs:78-165 | the statement is `CREATE TABLE "<name>" (`, the columns, the key clause when there are keys, and `);` |
| Schema.PrimaryKeyNamesAppend | NWBirthdaySystem/Library/PostGres.cs:96-101 | key names are collected in property order |
| Schema.KeyNamesOfEmpty | NWBirthdaySystem/Library/PostGres.cs:94-105 | a property contributes no key name exactly when none of its attributes is a key attribute |
| Schema.NoKeysIffNoKeyAttribute | NWBirthdaySystem/Library/PostGres.cs:155 | the key list is empty exactly when no property carries a key attribute |
| Schema.KeyClauseIffKeyAttribute | NWBirthdaySystem/Library/PostGres.cs:155-157 | the `PRIMARY KEY` clause is emitted exactly when some property carries a key attribute |
| Schema.TypeFragmentShape | NWBirthdaySystem/Library/PostGres.cs:112-146 | every known type's fragment ends with `, ` |
| Schema.ColumnShape | NWBirthdaySystem/Library/PostGres.cs:147-152 | an identity column is the plain column with its last two characters replaced by the identity clause |
| Schema.ColumnEndsWithSeparator | NWBirthdaySystem/Library/PostGres.cs:111-152 | every column of a known type, identity or not, ends with `, ` |
| Schema.BirthdaysTableKeys | NWBirthdaySystem/Models/Birthday.cs:7-12 | the `Birthdays` table is keyed by (`Id`, `BirthDate`), and only `Id` is an identity column |
| Schema.BirthdayEntriesTableKeys | NWBirthdaySystem/Models/BirthdayEntry.cs:7-10 | the `BirthdayEntries` table is keyed by `Id` alone, with no identity column |
| PostGresStore.DateCode | NWBirthdaySystem/Library/PostGres.cs:200 | for a calendar date the queried code is `Month*32+Day`, with no wrap |
| PostGresStore.DateCodeDecodes | NWBirthdaySystem/Library/PostGres.cs:200 | for a calendar date the cast does not wrap, and month and day can be read back from the code |
| PostGresStore.DateCodeInjective | NWBirthdaySystem/Library/PostGres.cs:200 | two calendar dates with the same code are the same date |
| PostGresStore.CodeNeverQueried | NWBirthdaySystem/Library/PostGres.cs:200-201 | a code with day part 0, or with a month part outside 1..12, is never the code of a calendar date |
| PostGresStore.LastMessageIdIsMaximum | NWBirthdaySystem/Library/PostGres.cs:176 | the watermark is the greatest logged id and is itself logged |
| PostGresStore.LastMessageIdAfterLog | NWBirthdaySystem/Library/PostGres.cs:221-238 | after logging an entry the watermark is at least its id, and it never drops |
| PostGresStore.BirthdaysOnMembers | NWBirthdaySystem/Library/PostGres.cs:201-213 | the date query returns a row exactly when its code matches, read back with only Name and ChatId |
| PostGresStore.BirthdaysOnAppend | NWBirthdaySystem/Library/PostGres.cs:201-213 | the date query keeps table order |
| PostGresStore.CountPositiveIffPresent | NWBirthdaySystem/Library/PostGres.cs:274-284 | `COUNT(*)` over the triple is positive exactly when the row is present |
| PostGresStore.CountAtMostOne | NWBirthdaySystem/Library/PostGres.cs:274-280 | in a table without duplicate triples every triple is counted at most once |
| PostGresStore.UpsertKeepsTriplesUnique | NWBirthdaySystem/Library/PostGres.cs:240-263 | upserting keeps the triples unique, and a stored row is then present exactly once |
| PostGresStore.PostGres.constructor | NWBirthdaySystem/Library/PostGres.cs:14-19 | the connected store holds whatever rows and log entries the database already has, which are any given tables |
| PostGresStore.PostGres.GetLastMessage | NWBirthdaySystem/Library/PostGres.cs:167-189 | the read loop returns the greatest logged id, or 0 for an empty log |
| PostGresStore.PostGres.GetBirthdays | NWBirthdaySystem/Library/PostGres.cs:191-219 | the read loop returns the rows whose code is `(short)(Month*32+Day)` of the date, in table order |
| PostGresStore.PostGres.UpsertMessage | NWBirthdaySystem/Library/PostGres.cs:221-238 | the insert appends exactly the entry, or fails with a key violation for a logged id or with an over-long message, leaving the log unchanged |
| PostGresStore.PostGres.CheckIfEntryExists | NWBirthdaySystem/Library/PostGres.cs:265-288 | the count loop answers whether the (Name, BirthDate, ChatId) triple is present |
| PostGresStore.PostGres.UpsertBirthday | NWBirthdaySystem/Library/PostGres.cs:240-263 | returns false and changes nothing for a present triple; otherwise appends exactly the row and returns true, or fails on an over-long value; the message log is untouched and triple uniqueness is kept |
| Messaging.MessageContext.SendMessage | NWBirthdaySystem/Library/IMessageContext.cs:8 | a send appends exactly one (text, chat id) message to the transport's log |
| Scheduler.NextFuture | NWBirthdaySystem/Program.cs:41 | the next sweep time is 08:00 on the day after the clock reading |
| Scheduler.ScheduleInvariant | NWBirthdaySystem/Program.cs:34-42 | `future` keeps its start value until the first sweep and is then 08:00 of the day after the latest sweep; the first sweep is after the start value, and sweeps are spaced |
| Scheduler.FirstCycleFires | NWBirthdaySystem/Program.cs:34-40 | the first cycle sweeps, since `future` starts at `DateTime.MinValue` |
| Scheduler.AtMostOncePerDay | NWBirthdaySystem/Program.cs:37-42 | any two sweeps fall on different days, and a later sweep is past 08:00 of the day after an earlier one |
| Scheduler.FiresIffPastNextMorning | NWBirthdaySystem/Program.cs:38-42 | a cycle sweeps exactly when its clock reading is past 08:00 of the day after the latest sweep (or past the start value before any) |
| BirthdaySystem.HandleLine | NWBirthdaySystem/Program.cs:82-108 | the single reply to a line goes to the sender's chat |
| BirthdaySystem.AcceptedLineReply | NWBirthdaySystem/Program.cs:95-108 | an accepted line is answered "Inserted birthday of `<name>`" both when the row is new (and then appended) and when it is already present (table unchanged); only a value too long for its column gets the failure reply |
| BirthdaySystem.SameLineTwice | NWBirthdaySystem/Program.cs:95-102 | handling the same accepted line twice answers "Inserted" both times, and the row is stored exactly once |
| BirthdaySystem.HandleLines | NWBirthdaySystem/Program.cs:80-109 | each line of a message gets exactly one reply, to the sender's chat |
| BirthdaySystem.LineKeepsRows | NWBirthdaySystem/Program.cs:95-101 | a line adds at most one row, removes none and never duplicates a triple |
| BirthdaySystem.LinesKeepRows | NWBirthdaySystem/Program.cs:80-109 | the lines of a message only add rows and never duplicate a triple |
| BirthdaySystem.HandleMessage | NWBirthdaySystem/Program.cs:69-114 | one message only appends to the tables and the sends, logs at most one entry, and keeps row triples and log ids unique |
| BirthdaySystem.ProcessBatch | NWBirthdaySystem/Program.cs:62-117 | a batch only appends to the tables and the sends, and keeps row triples and log ids unique |
| BirthdaySystem.CycleStep | NWBirthdaySystem/Program.cs:37-43 | one cycle (optional sweep, then the batch) only appends, and keeps both uniqueness invariants |
| BirthdaySystem.RunCycles | NWBirthdaySystem/Program.cs:35-46 | any run of cycles only appends, and keeps both uniqueness invariants |
| BirthdaySystem.HandleLinesAppend | NWBirthdaySystem/Program.cs:80-109 | lines compose: handling `a + b` is handling `a` and then `b` on the resulting table |
| BirthdaySystem.ReplyPerLine | NWBirthdaySystem/Program.cs:80-108 | reply k depends only on line k and the table left by the earlier lines; a rejected line gets "Could not parse message" and leaves the table as it was, and later lines are still handled |
| BirthdaySystem.TrailingLineFeedRejected | NWBirthdaySystem/Program.cs:79-107 | a message ending in a line feed gets a failure reply for its empty last line |
| BirthdaySystem.RepliesGoToSender | NWBirthdaySystem/Program.cs:71-107 | a logged message gets one reply per line (one more than its line feeds), all to its sender; a message the log refuses gets none |
| BirthdaySystem.AtOrBelowWatermarkIgnored | NWBirthdaySystem/Program.cs:62-67 | a batch of messages all at or below the watermark causes no store write and no send |
| BirthdaySystem.AboveWatermark | NWBirthdaySystem/Program.cs:67 | the messages of a batch that pass the watermark test, in order |
| BirthdaySystem.OnlyAboveWatermarkCounts | NWBirthdaySystem/Program.cs:62-117 | in any batch, the messages at or below the watermark contribute nothing: the batch does what its messages above the watermark do alone |
| BirthdaySystem.FixedPointBatch | NWBirthdaySystem/Program.cs:65-116 | a batch of messages that each leave the state unchanged leaves it unchanged |
| BirthdaySystem.MessageEntry | NWBirthdaySystem/Program.cs:71-78 | a message adds no entry or exactly its own (id, text, sender) entry, whatever its text says; with a sender and a text that fits, its id is logged afterwards |
| BirthdaySystem.NewEntriesAboveWatermark | NWBirthdaySystem/Program.cs:62-78 | every entry a batch logs has an id above the watermark |
| BirthdaySystem.HandledMessagesLogged | NWBirthdaySystem/Program.cs:65-78 | every message above the watermark with a sender and a text that fits is in the log after the batch |
| BirthdaySystem.WatermarkRises | NWBirthdaySystem/Program.cs:62 | logging entries above the watermark never lowers the watermark |
| BirthdaySystem.SecondPassIsNoOp | NWBirthdaySystem/Program.cs:62-117 | handling the same updates again, with the watermark read afresh, adds no row, logs nothing and sends nothing |
| BirthdaySystem.SingleLineMessage | NWBirthdaySystem/Program.cs:71-109 | a logged message of one accepted line logs its entry and does what that line does |
| BirthdaySystem.RepeatedLineStillInserted | NWBirthdaySystem/Program.cs:69-114 | the same one-line entry in two new messages from one sender is answered "Inserted birthday of `<name>`" both times; the second adds no row, and the row is stored once |
| BirthdaySystem.FormattedEntryIsOneLine | NWBirthdaySystem/Program.cs:79 | an entry `m:d:name` whose name has no line feed is a single line |
| BirthdaySystem.OtherIdStillFree | NWBirthdaySystem/Library/PostGres.cs:221-238 | logging one entry leaves every other id free to log |
| BirthdaySystem.RefusedMessage | NWBirthdaySystem/Program.cs:71-114 | a message with no sender, an already logged id or a text too long to log changes nothing |
| BirthdaySystem.Notices | NWBirthdaySystem/Program.cs:52-55 | one notice per returned row, in order, each to that row's chat with the row's name in the text |
| BirthdaySystem.Sweep | NWBirthdaySystem/Program.cs:49-56 | a sweep changes neither table and appends exactly one message per row the date query returns |
| BirthdaySystem.NoticeHasStoredRow | NWBirthdaySystem/Program.cs:51-55 | every notice of a sweep announces a stored row with today's code, to that row's chat |
| BirthdaySystem.StoredRowIsAnnounced | NWBirthdaySystem/Program.cs:51-55 | every stored row with today's code is announced, to its own chat |
| BirthdaySystem.NeverAnnounced | NWBirthdaySystem/Program.cs:85-100 | an accepted line with day 0 or 32, or month 0 modulo 2048, stores a code no calendar date is queried with |
| BirthdaySystem.UnusedCode | NWBirthdaySystem/Library/PostGres.cs:200 | the code of month 0, or of day 0 or 32, is not a calendar date's code |
| BirthdaySystem.Program.SendOutBirthdayNotifications | NWBirthdaySystem/Program.cs:49-56 | sends one "`<name>`'s birthday is today" per row the date query returns, in order, to the row's chat, and changes nothing else |
| BirthdaySystem.Program.HandleOneLine | NWBirthdaySystem/Program.cs:82-108 | the inner try block does what `HandleLine` says to the table and the sends |
| BirthdaySystem.Program.HandleMessageLines | NWBirthdaySystem/Program.cs:79-109 | the line loop does what `HandleLines` says; the log is untouched |
| BirthdaySystem.Program.HandleOneMessage | NWBirthdaySystem/Program.cs:69-114 | the outer try block does what `HandleMessage` says |
| BirthdaySystem.Program.CheckMessages | NWBirthdaySystem/Program.cs:58-118 | reads the watermark once and then does what `ProcessBatch` says for the whole batch |
| BirthdaySystem.Program.Run | NWBirthdaySystem/Program.cs:31-47 | the loop does what `RunCycles` says, and sweeps exactly at the scheduler's fire times |

## Left out

- The Telegram transport (HTTP calls, JSON decoding, the API token) is not modelled. `ReadMessages` becomes the batch passed to `CheckMessages`. A failed or empty read is an empty batch.
- `SendMessage`'s boolean result is not modelled. `Program` ignores it.
- Configuration loading, the logger, the factory and the `HttpClient` are not modelled. They are I/O and object construction.
- `Init` is modelled only as a constructor that takes the store and the transport. Creating the tables is modelled separately by `Schema.BuildCreateTable`.
- `CheckAndCreateTables` (the existence query and the optional `DROP TABLE`) is left out, because it is database I/O.
- Npgsql execution is replaced by in-memory sequences.
- `TestConnection` and the reconnect loops are left out. The model assumes the connection stays open.
- `_connectionLock` and the check-then-insert race it does not close are left out. Calls are taken to be sequential.
- `Thread.Sleep` is left out.
- BirthdaySystem.HandleMessage: an update without a `message` payload throws at Program.cs:67, outside both `try` blocks, and ends the program. The update type is not part of this model, so every inbound item has an id and a text.
- BirthdaySystem.HandleMessage: a message whose `text` is null is not modelled. Every inbound text is a string here. What Npgsql does with a null parameter value in `UpsertMessage` (PostGres.cs:233-235) is outside this model.
- PostGresStore.PostGres.UpsertBirthday: PostgreSQL accepts an over-long value when the excess is only spaces, and truncates it. The model rejects every value over 100 characters. PostGresStore.PostGres.UpsertMessage does the same for messages.
- PostGresStore.PostGres.GetBirthdays: the interface declares `GetBirthdays()` without a date. The implementation takes the date. The model passes today's date, given as an input.
- Real calendar arithmetic is not modelled, because it needs a calendar.
  - Scheduler.NextFuture computes `DateTime.Today` as the start of the day of the clock reading. The source reads `Today` and `Now` separately.
  - Each `Cycle` carries its calendar date as an input.
  - Time is counted in whole minutes rather than ticks.
- Run's loop never ends. BirthdaySystem.Program.Run models a finite prefix of it, given as a sequence of cycles.
- DotNetText.ParseShort follows `NumberStyles.Integer` in the invariant culture. Trailing NUL characters and culture-specific signs are not modelled.
- The `Id` identity column of `Birthdays` is not a field of the `Birthday` record. It is generated by the database and never read by the core.
