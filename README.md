# CapsuleTime in Dafny

CapsuleTime is a Telegram bot for time capsules. A user sends
"<message> через <days>". The bot stores the message as a capsule due
`days` days later. Once a minute it sweeps the store and delivers every
capsule that is due and, if every send succeeds, deletes them all in one
commit. This project
models the core of `main.py` and proves what it does:

- `wrappers.dfy` holds the `Option` and `Result` types.
- `pytext.dfy` (module `PyText`) models the Python string operations the
  handler relies on:
  - `str.strip()` over Python's exact whitespace set;
  - `str.split(sep)`, left to right and non-overlapping;
  - `int()` of a stripped string: an optional sign, then ASCII digits with
    single underscores between digits;
  - `str()` of an integer, for round trips.
- `capsules.dfy` (module `CapsuleStore`) models the `capsules` table as a
  class `Store`:
  - a map from primary key to row;
  - a counter for the next key;
  - a ghost outbox of every message handed to the chat transport.

  It also holds `save_capsule` and the due sweep `check_and_send_capsules`.
  The sweep's loop is the method `SendEach`.
- `submission.dfy` (module `Submission`) models the text handler
  `handle_message`:
  - the pure parse `Parse`, with lemmas that characterise exactly which
    texts it accepts;
  - `HandleMessage`, which parses the text and hands the outcome to
    `Respond`; on success that saves one capsule.

How the model stands in for the world around the code:

- **Time** is an integer count of microseconds, the resolution of a Python
  `datetime`.
- **Days** become `timedelta(days=d)`, which is `d * 86_400_000_000`.
- **The clock**: the current time is the parameter `now`.
- **`strftime`** is the parameter `fmt`, which maps a time to its text.
- **A failing send**: the parameter `failing` names the capsules whose send
  raises during this sweep.
- **Order**: the order in which the query returns due rows is left open.
  The sweep picks the next capsule arbitrarily, and every contract holds
  for every order.

Two behaviours of the code are easy to miss:

- **Negative day counts.** `int()` accepts a sign and nothing checks it.
  So "Привет через -1" is accepted, and its capsule is due a day in the
  past. See `Submission.NegativeDaysAccepted`.
- **A failed send.** It raises out of the loop before `session.commit()`.
  So no deletion of that sweep is committed, not even for capsules that
  were already delivered. While some due capsule's send keeps failing,
  every later sweep raises too: it re-sends the due capsules it reaches
  before the failing one, in whatever order the query returns them, and
  deletes nothing. `CheckAndSendCapsules` succeeds exactly when no due
  capsule's send fails.

## Model

| member | source | states |
|---|---|---|
| CapsuleStore.Store.constructor | main.py:28 | the table starts empty and nothing has been sent |
| CapsuleStore.Store.SaveCapsule | main.py:35-40 | one row is added under a key no live row has, with exactly the given user, message and send date; every other row is unchanged and nothing is sent |
| CapsuleStore.Capsule | main.py:19-24 | a row of the capsules table: primary key, user id, message and send date |
| CapsuleStore.Render | main.py:49-50 | the delivery goes to the capsule's user, and its text is "Ваша капсула времени от ", the formatted send date, ": " and the message, in that order |
| CapsuleStore.Due | main.py:46 | the sweep selects exactly the existing rows with send date at or before now, a capsule due exactly at now included; with Kept it splits the rows |
| CapsuleStore.Kept | main.py:46-53 | the rows a sweep leaves are exactly the rows not due, each unchanged, and every one is due strictly after now |
| CapsuleStore.RemoveDue | main.py:46-53 | deleting every row selected as due leaves exactly the kept rows |
| CapsuleStore.KeptHasNothingDue | main.py:46-53 | after a successful sweep at now nothing is due at now, so a second sweep at now sends nothing and keeps the store as it is |
| CapsuleStore.DueGrows | main.py:46 | the selection `send_date <= now` only grows as now grows, and the kept rows only shrink |
| CapsuleStore.Deliveries | main.py:48-50 | the k-th message sent goes to the k-th capsule's user, with the text "Ваша капсула времени от " + the formatted send date + ": " + the message |
| CapsuleStore.DeliveriesSnoc | main.py:48-50 | sending one more capsule appends exactly its message to the messages sent so far |
| CapsuleStore.SendStep | main.py:48-51 | sending and marking one more pending capsule that does not fail keeps the loop's bookkeeping: each capsule marked once, in sending order, none of them failing |
| CapsuleStore.SweepOutcome | main.py:46-54 | when the loop stops, either it sent every due capsule exactly once with none failing, or it stopped at a due capsule whose send fails; every capsule sent was due |
| CapsuleStore.SendEach | main.py:46-51 | the loop raises exactly when some due capsule's send fails; it sends each capsule at most once, only due ones that do not fail; without a raise it sends every due capsule exactly once; the messages are the deliveries of the capsules in sending order |
| CapsuleStore.Store.CheckAndSendCapsules | main.py:43-54 | the sweep succeeds exactly when no due capsule's send fails; on success every due capsule is sent once and the store becomes the kept rows; on failure the store is unchanged; in both cases the outbox grows by exactly the messages sent |
| CapsuleStore.DistinctCard | main.py:48-51 | a duplicate-free listing of the due set has as many entries as the set, so a successful sweep sends as many messages as there were due capsules |
| PyText.Strip | main.py:66 | the result has no whitespace at either end, and it is empty exactly when the input is all whitespace |
| PyText.StripIsSlice | main.py:66 | the result is the input with a whitespace prefix and a whitespace suffix removed |
| PyText.StripTrimmed | main.py:66 | stripping text with no whitespace at either end returns it unchanged |
| PyText.StripIdempotent | main.py:66 | stripping twice is stripping once |
| PyText.IndexOf | main.py:70 | the result is the first position where the separator occurs, or -1 when it occurs nowhere |
| PyText.Split | main.py:70 | the split is never empty, and no part contains the separator |
| PyText.SplitJoin | main.py:70 | joining the parts with the separator gives back the text |
| PyText.SplitAtFirst | main.py:70 | where the separator occurs, the first piece is the text before its first occurrence and the other pieces are the split of the text after it, so there are at least two |
| PyText.SplitFree | main.py:70-71 | text without the separator splits into itself alone |
| PyText.SplitInTwo | main.py:70-71 | a split into two parts means the separator occurs first at some i: the parts are the text before i and after the separator, and neither part holds the separator |
| PyText.SplitOnce | main.py:70-71 | when the separator occurs at exactly one position, the split is the text before it and the text after it |
| PyText.ParseInt | main.py:74 | int() accepts only non-empty text made of digits, underscores and signs |
| PyText.CanonicalDigits | main.py:74 | digit groups with their underscores and leading zeros dropped are exactly str() of their value |
| PyText.ParseIntCanonical | main.py:74 | the value of every text int() accepts, with a '+' sign, leading zeros or underscores: str() of it is the text with the '+', the leading zeros and the underscores dropped, and "-0" written "0" |
| PyText.PlusAccepted | main.py:74 | "+365" reads as 365 |
| PyText.LeadingZeroAccepted | main.py:74 | "0365" reads as 365 |
| PyText.UnderscoreAccepted | main.py:74 | "3_65" reads as 365 |
| PyText.BadUnderscoresRefused | main.py:74 | "1__0", "_1", "1_" and a bare "+" are refused |
| PyText.ParseShowInt | main.py:74 | int() reads back every integer str() writes, negative ones included |
| Submission.Parse | main.py:66-75 | an accepted message has no whitespace at either end; a wrong-part-count refusal reports at least one part and never two; a not-an-integer refusal names text int() refuses. The lemmas below characterise exactly which texts are accepted |
| Submission.ConfirmationShape | main.py:87-88 | the confirmation quotes the message right after "Ваше сообщение '", and the formatted date closes the reply before the final full stop |
| Submission.SeparatorOnlyAt | main.py:70 | in message + " через " + rest, where neither piece holds the separator or can complete it, the separator occurs only between them |
| Submission.ParseNoSeparator | main.py:70-72 | a stripped text without the separator is refused as one part |
| Submission.ParsedHasOneSeparator | main.py:66-72 | an accepted text holds the separator exactly once, overlaps counted; zero occurrences or two or more are refused |
| Submission.ParseOneSeparator | main.py:66-75 | when the stripped text holds the separator exactly once, the result is int() of the stripped text after it, with the stripped text before it as the message, or the not-an-integer error |
| Submission.ParsedParts | main.py:73-74 | an accepted message is the stripped text before the first separator, and its day count is int() of the stripped text after it |
| Submission.ParsedMessageTrimmed | main.py:73 | an accepted message is non-empty and has no whitespace at either end |
| Submission.ShowIntShape | main.py:74 | str() of an integer is non-empty, has no whitespace at either end, holds no separator and cannot complete one |
| Submission.JoinedShape | main.py:66-70 | message + " через " + rest is already stripped and holds the separator only after the message |
| Submission.ParseRender | main.py:66-74 | round trip: parsing message + " через " + str(days) gives back the message and days, for any integer days |
| Submission.JoinedNotAnInteger | main.py:74-78 | message + " через " + a piece int() refuses is rejected, and the error names that piece |
| Submission.ExampleAccepted | main.py:77 | the prompt's own example "Привет через 365" is accepted as "Привет" and 365 |
| Submission.NegativeDaysAccepted | main.py:74 | "Привет через -1" is accepted with -1 days: there is no sign check |
| Submission.NonNumericRefused | main.py:74-78 | "Привет через abc" is refused because int() rejects "abc" |
| Submission.Respond | main.py:75-88 | after a refused parse the reply is the format prompt and nothing changes; after an accepted one exactly one capsule is saved, for this chat, with the parsed message and send date now + days × one day, under a key no live row had, and the reply is the confirmation naming the message and the formatted date |
| Submission.HandleMessage | main.py:64-88 | a refused text gets the format prompt and changes nothing; an accepted one saves exactly one capsule, for this chat, with the parsed message and send date now + days × one day, and gets the confirmation naming the message and the formatted date |

## Left out

- Telegram transport is not modelled: the bot, `send_message` and `reply_text` as network calls, and the `/start` handler (main.py:3-4, 58-60). A send is an abstract step that may fail. Messages reach a ghost outbox, and replies are the method's result.
- SQLAlchemy and SQLite are not modelled: engine, sessions, table creation, durability across restarts (main.py:5-7, 14-15, 31). The table is an in-memory map. Atomicity appears only as the sweep's commit-all-or-nothing behaviour.
- Scheduling is not modelled: `run_repeating(..., interval=60)`, `run_polling` and `main()` (main.py:92-105). They only call the sweep periodically.
- Async execution and any interleaving of a sweep with a submission are not modelled. Each operation is one sequential step.
- The wall clock `datetime.now()` (main.py:45, 81) is the parameter `now`.
- `strftime` (main.py:50, 87) is the parameter `fmt`. Calendar arithmetic is not modelled.
- Logging setup (main.py:10-11) is not modelled.
- Submission.HandleMessage, Submission.Respond: a huge day count makes `timedelta`/`datetime` raise `OverflowError`, which the handler does not catch. This is not modelled: integers here are unbounded, so every parsed day count yields a send date.
- PyText.ParseInt: `int()` also accepts non-ASCII Unicode decimal digits (Arabic-Indic digits, full-width digits and the like). Only ASCII digits are modelled.
- CapsuleStore.Store.SaveCapsule: SQLite may reuse the key of a deleted row. So the contract promises only a key that no live row has, not one never used before. The model's counter is one such choice.
- The table's `nullable=False` constraints (main.py:22-24) are not modelled. Python never passes `None` here.
