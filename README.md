# reminder_bot: the reminder lifecycle

`reminder_bot` is a single-user chat bot that reminds its owner of things at
a time of day. Reminders live in one table (`scheduled_reminders`, with the
columns id, notification_id, name, daily, time, snooze_until and completed).
Every poll cycle the bot:

- reads the chat messages that arrived since the last poll;
- interprets them (`process_responses`);
- fires the reminders due this minute (`process_reminders`);
- at a configured minute, issues the update that makes the daily reminders
  pending again (`process_reset`). As written, that update is never
  committed (see Findings).

The messages it understands are these:

- A reply to a notification: "y" acknowledges the reminder it answers, and a
  string of digits re-snoozes it to that label.
- "list" sends a table of the pending reminders still due today.
- `name|HHMM|flag` creates a reminder. The flag "1" makes it daily.

Time is a four-digit "HHMM" label. A fired reminder is re-armed
`SNOOZE_MINUTES` later, wrapping past midnight.

The model is split into these modules:

- `Text` (text.dfy): the Python string primitives the bot relies on. These
  are `isdigit`, `int` as used by `int_or_zero`, `lower` and `split`.
- `TimeLabel` (time_label.dfy): the label codec and the snooze arithmetic.
- `Records` (records.dfy): the row, the inbound and outbound messages, the
  configuration, and the routing invariants. Keys are unique. Notification
  ids are unique and issued by the gateway.
- `Interpreter` (interpreter.dfy): one inbound message as a function.
  - A reply acknowledges or re-snoozes.
  - `list` filters the rows and escapes the table.
  - A new-reminder command is parsed and added.
  - `Run` folds a batch of messages and stops at a command that raises.
- `Trigger` (trigger.dfy): the trigger pass and the daily reset sweep, as
  functions of the rows.
- `App` (app.dfy): the stateful side, written as classes.
  - `Database` is the committed table.
  - `Session` is the unit of work. Its queries see its own uncommitted
    changes, and `Commit` publishes them.
  - `Gateway` is the outbox. A message's id is its 1-based position in the
    outbox.
  - Each of the three `process_*` procedures is a method proved against
    its functional specification. `process_responses` and
    `process_reminders` are loops over the batch and over the pending rows.
    `process_reset` is one bulk update of the session's rows.
  - One turn of the poll loop is written twice: once as written, and once
    with the reset committed (see Findings).

Three behaviours of the code that are easy to get wrong:

- A new-reminder message that does not split into exactly three parts is
  not skipped. `name, time, daily = ...split(...)` raises ValueError, and
  nothing catches it. The rest of the batch, the trigger pass and the reset
  never run, and nothing of the batch is committed. Replies to `list` sent
  earlier in the batch have already gone out. `Run` stops at such a
  message, and `ProcessResponses` returns `false` without committing.
- The `list` filter compares the scheduled time OR the snooze label, each
  read with `int_or_zero`, with `int(now)`. It does not use one effective due
  time. A row snoozed to an earlier label is still listed when its scheduled
  time is later.
- The time field of a new reminder is stored without any validation.

## Model

| member | source | states |
|---|---|---|
| Text.IntOrZero | reminder_bot/app.py:77-81 | `int_or_zero`: a digit string reads as a number below 10 to the power of its length, and only a leading '-' gives a negative result |
| Text.IntOrZeroOfDigits | reminder_bot/app.py:77-81 | digits, alone or after '+' or '-', read as their number with that sign |
| Text.DigitsValueLeadingZeros | reminder_bot/app.py:79 | leading zeros do not change the number a digit string denotes |
| Text.IntOrZeroReadsDecimal | reminder_bot/app.py:77-81 | `int_or_zero` reads every decimal numeral back as its number, with any number of leading zeros and either sign |
| Text.IntOrZeroOfNonNumber | reminder_bot/app.py:77-81 | text that is not a number reads as 0, where `int` raises ValueError: the empty text (an unsnoozed row's snooze), a lone sign, or text with a character that is neither a digit nor a leading sign |
| Text.Lower | reminder_bot/app.py:61-67 | `lower()` keeps the length and leaves no upper-case letter |
| Text.LowerIsY | reminder_bot/app.py:61 | the acknowledgement test accepts exactly "y" and "Y" |
| Text.LowerIsList | reminder_bot/app.py:67 | the listing test accepts "list" in any case and nothing else |
| Text.IsDigitString | reminder_bot/app.py:64 | `isdigit()`: non-empty and all digits (a definition; used by `ResnoozeVerbatim` and `IntOrZeroOfDigits`) |
| Text.Split | reminder_bot/app.py:92 | `split` always yields at least one piece |
| Text.SplitCount | reminder_bot/app.py:92 | `split` yields one more piece than there are delimiters |
| Text.SplitPiecesFree | reminder_bot/app.py:92 | no piece of a split contains the delimiter |
| Text.JoinSplit | reminder_bot/app.py:92 | joining the pieces of a split restores the message |
| Text.SplitJoin | reminder_bot/app.py:92 | splitting a join of delimiter-free fields gives the fields back |
| TimeLabel.Decode | reminder_bot/app.py:32-33 | a valid label decodes to a minute of the day below 1440 |
| TimeLabel.Encode | reminder_bot/app.py:35-36 | encoding yields a valid four-digit label |
| TimeLabel.DecodeEncode | reminder_bot/app.py:32-36 | decoding an encoded minute gives the minute back |
| TimeLabel.EncodeDecode | reminder_bot/app.py:32-36 | every valid label is the encoding of the minute it names |
| TimeLabel.DecodeInjective | reminder_bot/app.py:32-33 | two valid labels naming the same minute are equal |
| TimeLabel.AddMinutes | reminder_bot/app.py:115 | adding minutes to a minute of the day stays within the day |
| TimeLabel.SnoozeDeadline | reminder_bot/app.py:115 | the snooze deadline is always a valid label |
| TimeLabel.SnoozeDeadlineMeaning | reminder_bot/app.py:115 | the deadline is `now` plus the snooze, modulo one day |
| TimeLabel.SnoozePastMidnight | reminder_bot/app.py:115 | ten minutes after "2355" is "0005" |
| TimeLabel.SnoozeMovesLabel | reminder_bot/app.py:113-115 | the deadline equals `now` exactly when the snooze is a whole number of days |
| TimeLabel.LabelNumber | reminder_bot/app.py:83 | `int` of a valid label is hour times 100 plus minute |
| TimeLabel.LabelOrder | reminder_bot/app.py:83 | comparing valid labels as integers orders them as times of day, in both directions |
| Records.IsReply | reminder_bot/app.py:57 | `if response.reply_id:`: a missing id and the id 0 both mean "not a reply" (a definition; used by `Step` and `StepReplyReplay`) |
| Records.MaxKey | reminder_bot/model.py:10 | the largest key in use: every key is at or below it, and it is one of them unless it is 0 |
| Records.NextKey | reminder_bot/app.py:94-95 | the key of an inserted row is positive and above every existing key |
| Interpreter.FindByNotification | reminder_bot/app.py:58-60 | the first row carrying the notification id, or none when no row carries it |
| Interpreter.ApplyReply | reminder_bot/app.py:57-65 | a reply keeps the number of rows |
| Interpreter.ReplyTouchesOnlyTheFoundRow | reminder_bot/app.py:58-65 | a reply changes at most one row, the one its lookup finds |
| Interpreter.UnmatchedReplyIgnored | reminder_bot/app.py:58-60 | a reply to a notification no row carries changes nothing |
| Interpreter.ReplyFindsTheRoutedReminder | reminder_bot/app.py:58 | under unique routing, the reply finds the one row with its id |
| Interpreter.AcknowledgeCompletes | reminder_bot/app.py:61-63 | "y" or "Y" completes the row and clears its snooze, and leaves every other row alone |
| Interpreter.ResnoozeVerbatim | reminder_bot/app.py:64-65 | a digits-only reply sets the snooze to that text verbatim; any other text changes nothing |
| Interpreter.FindSeesOnlyRoutes | reminder_bot/app.py:58 | the lookup depends only on the notification ids |
| Interpreter.ReplyKeepsIdentity | reminder_bot/app.py:57-65 | a reply changes no key, notification id, name, flag or time |
| Interpreter.ReplyReplayIsHarmless | reminder_bot/app.py:57-65 | applying the same reply twice is the same as applying it once |
| Interpreter.ParseCommand | reminder_bot/app.py:92-93 | a command parses exactly when it holds two delimiters; otherwise it is MalformedCommand |
| Interpreter.ParseCommandRoundTrip | reminder_bot/app.py:92-93 | three delimiter-free fields parse back, with daily meaning flag "1" |
| Interpreter.ListRows | reminder_bot/app.py:68-83 | the listing has no more rows than the table |
| Interpreter.Listed | reminder_bot/app.py:83 | the listing filter (a definition; its meaning is `ListRowsMembers` and `ListedMeansLaterToday`) |
| Interpreter.ListReply | reminder_bot/app.py:85-90 | the reply is the fixed notice, or a non-empty table of at most as many rows as the table holds |
| Interpreter.ListRowsMembers | reminder_bot/app.py:83 | a row is listed exactly when some pending reminder has a later time or snooze |
| Interpreter.ListRowsEmpty | reminder_bot/app.py:83-85 | the listing is empty exactly when no reminder passes the filter |
| Interpreter.ListedMeansLaterToday | reminder_bot/app.py:72-83 | for valid labels the filter means pending, and scheduled or snoozed later today |
| Interpreter.ListReplyNoticeWhenNothingLeft | reminder_bot/app.py:85-87 | "No reminders left today!" is sent exactly when nothing passes the filter |
| Interpreter.Escape | reminder_bot/app.py:89 | escaping lengthens the text by exactly its number of special characters |
| Interpreter.EscapeStartsPlain | reminder_bot/app.py:89 | escaped text never starts with a special character |
| Interpreter.EscapeRoundTrip | reminder_bot/app.py:89 | escaping the MarkdownV2 specials (`MarkdownSpecials`) loses nothing: unescaping restores the text |
| Interpreter.EscapeShape | reminder_bot/app.py:89 | escaping adds one backslash per special character, and every special character follows one |
| Interpreter.Step | reminder_bot/app.py:56-95 | a message fails exactly when it is not a reply, not `list`, and not a three-part command |
| Interpreter.NewReminder | reminder_bot/app.py:94 | the inserted row (a definition; its meaning is `NewReminderAppends`) |
| Interpreter.NewReminderAppends | reminder_bot/app.py:92-95 | a well-formed command appends one pending, unsnoozed, unfired row with a fresh key; nothing else changes |
| Interpreter.CallMomExample | reminder_bot/app.py:92-95 | "Call mom\|0900\|1" adds a daily reminder at 0900 |
| Interpreter.ListSendsOneReply | reminder_bot/app.py:67-90 | `list` sends one reply and changes no row |
| Interpreter.StepReplyReplay | reminder_bot/app.py:57-65 | a redelivered reply leaves the state the first delivery produced |
| Interpreter.Run | reminder_bot/app.py:56-95 | the batch fold (a definition; its meaning is `RunOnlyAppends`, `RunHaltsIffMalformed`, `RunHaltSticks`, `RunKeepsRouting` and the loop of `ProcessResponses`) |
| Interpreter.RunOnlyAppends | reminder_bot/app.py:56-95 | a batch never removes a row and only appends to the messages sent |
| Interpreter.RunHaltsAtLast | reminder_bot/app.py:92 | a batch has stopped once its prefix has, or when its last message is malformed |
| Interpreter.RunHaltsIffMalformed | reminder_bot/app.py:56-95 | a batch stops exactly when it holds a malformed command |
| Interpreter.RunHaltSticks | reminder_bot/app.py:92 | once stopped, later messages change nothing |
| Interpreter.StepKeepsRouting | reminder_bot/app.py:57-95 | one message keeps keys and notification ids unique and issued |
| Interpreter.RunKeepsRouting | reminder_bot/app.py:56-95 | a batch keeps keys and notification ids unique and issued |
| Trigger.DueLabel | reminder_bot/app.py:110 | the due label is the time or the snooze, and empty only when both are |
| Trigger.Fires | reminder_bot/app.py:105-113 | pending and due exactly at `now` (a definition; its meaning is `TriggerPassEffect`) |
| Trigger.Notices | reminder_bot/app.py:114 | the notices of a pass in table order (a definition; its meaning is `NoticesEmpty` and `NoticeOfFiringRow`) |
| Trigger.FireAt | reminder_bot/app.py:113-115 | a row changes only in its notification id and snooze, and only when it fires, taking the deadline |
| Trigger.TriggerPass | reminder_bot/app.py:102-117 | the pass keeps the number of rows |
| Trigger.NoticeOfFiringRow | reminder_bot/app.py:114 | a firing row's notice is sent, at the position its firing order gives |
| Trigger.NoticesEmpty | reminder_bot/app.py:109-114 | nothing is sent exactly when no row is due |
| Trigger.TriggerPassEffect | reminder_bot/app.py:105-115 | a row fires exactly when pending and due at `now`; it gets a fresh id and the deadline; completion never changes; other rows stay as they were |
| Trigger.FiredIdsIncrease | reminder_bot/app.py:114 | rows fired in one pass get distinct ids, increasing in table order |
| Trigger.TriggerKeepsRouting | reminder_bot/app.py:114 | the pass keeps keys and notification ids unique and issued |
| Trigger.NoRefireWithinMinute | reminder_bot/app.py:110-115 | with a snooze that is not whole days, a second pass in the same minute sends nothing |
| Trigger.ResetDaily | reminder_bot/app.py:131 | the sweep keeps the number of rows |
| Trigger.ResetDailyEffect | reminder_bot/app.py:131 | after the reset a row is completed exactly when it was completed and is not daily; nothing else changes |
| Trigger.ResetDailyIdempotent | reminder_bot/app.py:131 | resetting twice equals resetting once |
| Trigger.ResetKeepsRouting | reminder_bot/app.py:131 | the reset keeps keys and notification ids |
| App.Session.Commit | reminder_bot/app.py:99 | the committed table becomes the session's rows |
| App.Gateway.Send | reminder_bot/app.py:120-127 | the message is appended and its id is fresh |
| App.ProcessResponses | reminder_bot/app.py:54-99 | the loop leaves the rows and the sent messages of `Run`; it commits exactly when no command raised |
| App.ProcessReminders | reminder_bot/app.py:102-117 | the loop leaves the rows of `TriggerPass` and sends `Notices` in table order, then commits |
| App.ProcessReset | reminder_bot/app.py:129-131 | at the reset time the session's daily rows become pending; the table is not changed |
| App.ProcessResetCommitted | reminder_bot/app.py:129-131 | the same sweep, committed |
| App.CycleOutcomeAsWritten | reminder_bot/app.py:140-147 | as written, a turn that raises leaves the table as it was |
| App.CycleOutcome | reminder_bot/app.py:140-147 | committing the reset changes only the table, and nothing at all away from the reset time |
| App.RespondAndFire | reminder_bot/app.py:143-144 | responses, then the trigger pass, give the as-written turn's table and messages |
| App.RunCycleAsWritten | reminder_bot/app.py:140-147 | one turn as written: table, messages and completion are those of `CycleOutcomeAsWritten` |
| App.RunCycle | reminder_bot/app.py:140-147 | one turn with the reset committed, equal to `CycleOutcome` |
| App.ResetIsRolledBackAsWritten | reminder_bot/app.py:129-147 | as written, a completed daily reminder is still completed after the turn at the reset time |
| App.CycleResetsDailyReminders | reminder_bot/app.py:129-131 | with the commit, no daily reminder is completed after a finished turn at the reset time |
| App.CycleKeepsRouting | reminder_bot/app.py:140-147 | a turn keeps keys and notification ids unique and every stored id among those issued |
| App.AcknowledgedDailyReminderReturns | reminder_bot/app.py:61-131 | an acknowledged daily reminder cannot fire, and after the reset it fires at its time again |

## Left out

- The transport is not modelled. That covers `get_responses`,
  `send_message`'s HTTP request and the update offset. Inbound messages are
  a parameter. Outbound messages go to the `Gateway` outbox, and a message's
  id is its position in the outbox.
- The start-up message of `main` (app.py:133-136) is not modelled. It
  consumes a message id, so a turn takes the number of ids already issued as
  a parameter.
- The clock is a parameter, `now`, required to be a valid label because
  `get_now_timestring` always produces one. `sleep`, `print` and the
  unbounded loop are not modelled. The model covers one turn; the lemmas
  about routing carry over from turn to turn.
- SQL and the record store are modelled as a sequence of rows in table
  order. A new row's key is one more than the largest key in use (the SQLite
  rowid rule). Schema creation and connection handling are not modelled.
- FindByNotification: `first()` has no ORDER BY, so the database may return
  any matching row. The model takes the first row in table order. Under
  unique routing, which every pass preserves, there is only one.
- ListRows: the ORDER BY time of the listing query is not modelled. Rows
  come in table order.
- ListReply: the `tabulate` layout is not modelled. The reply carries the
  listed rows, and `Escape` is proved about text in general.
- Text: `lower`, `isdigit` and `int` are modelled on ASCII. `int`'s
  acceptance of surrounding whitespace and of underscores between digits is
  not modelled.
- The delimiter is one character. A longer delimiter, or an empty one (on
  which `split` raises), is not modelled.
- TimeLabel.SnoozeDeadline: works modulo one day. It does not model the
  OverflowError `datetime` raises. `decode_timestring` yields a datetime on
  1900-01-01, so adding the snooze overflows past year 9999 for
  SNOOZE_MINUTES above about 4.26 billion (about 8,100 years). It
  overflows below year 1 for SNOOZE_MINUTES below about -999 million
  (about 1,900 years).
- ProcessReminders: the query of pending rows is evaluated as the loop runs.
  The model reads each row as it stands when its turn comes. Since the pass
  never changes `completed`, this agrees with the source.
- After a malformed command the process dies. The model ends the turn with
  `finished == false`. Restarts are not modelled.

## Findings

| source | as written | input that shows it | evidently intended | confidence | as-written member | corrected member |
|---|---|---|---|---|---|---|
| reminder_bot/app.py:129-131 | `process_reset` issues the bulk UPDATE and never commits; `main` then closes the session (line 147), which rolls the update back | a table holding one daily, completed reminder, with a turn at RESET_TIME and no messages | at RESET_TIME every daily reminder becomes pending again and stays so | not executed | App.ResetIsRolledBackAsWritten (over App.RunCycleAsWritten) | App.CycleResetsDailyReminders (over App.RunCycle) |
