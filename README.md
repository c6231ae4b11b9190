# Kindergarten absence bot: a verified model

The bot lets a caregiver report that a child will be absent from a
kindergarten group. A conversation asks in turn for the group, the last
name, the first name and the birth date. After each answer it checks the
candidate record against the roster loaded at startup. It stops at the first
answer no roster child can match. Only after all four fields match a roster
entry does it append the child to the day's absence file. That file is named
`absent_children_YYYY_MM_DD.csv`. It gets a header row when it is first
created and is only appended to after that.

The model has three modules:

- `Roster` (`roster.dfy`) covers the `Child` record and its three matching
  queries. `check_last_name`, `check_first_name` and `check_bd` become member
  functions of the `Child` datatype. Each one's contract is the existence
  query it implements. The module also has the roster loader
  `parse_csv_file`. It is written as a method with a loop over rows that are
  already split into fields. The loader is proved against the specification
  function `Parse`.
- `AbsenceLog` (`absence_log.dfy`) covers the date string, the log path and
  the file system. The file system is a class holding a map from path to the
  rows of each file. `append_child_to_file`, `create_file_with_child` and
  `append_absent_child` are its methods, and each one states the whole new
  map. The function `Appended` describes one report's effect on the map.
  Lemmas about it state the header-once behaviour, the order of the rows and
  that no other file changes.
- `Conversation` (`conversation.dfy`) covers one session. It holds the
  conversation state `End`/`ST1`..`ST5` and the candidate `child` record that
  the handlers update in place. The roster and the log are references it
  reads or writes. There is one method per handler: `start`, `st1`..`st5` and
  `cancel`. Each handler requires the state it is routed from and the input
  filter of lines 249-253. The class invariant `Valid` says which check holds
  in which state. Every handler states which single field it overwrites and
  that the log is unchanged. The one exception is `st5`, which writes exactly
  when the full check holds. Two client methods walk through example reports
  on a one-child roster. In `ReportMatchingChild`, the full match leaves
  exactly the header and one row in the day's file. In
  `ReportsThatWriteNothing`, a wrong birth date, an unknown last name and a
  cancel all leave the log empty.

Behaviours of the code that the model keeps:

- The filters `^(Group 1|Group 2)$` and `^(Inform that the child will not come)$`
  use Python's `$`. It also matches before a final newline, so `"Group 1\n"`
  passes the filter. Because `st2` compares the text with `'Group 1'`
  exactly, that message records group `'2'`. `GroupOf` and `IsGroupChoice`
  model this as written.
- `start` and `cancel` do not reset the candidate record. A fresh
  conversation reuses the old one. This is harmless for one session because
  `st2`..`st5` overwrite every field before it is checked.
- The checks succeed on *at least one* matching roster entry, not on exactly
  one.
- Loading an empty roster source fails. That is `next` on an empty file, and
  the model reports it as `MissingHeader`. A record row with fewer than four
  fields fails at the first such row, which the model reports as
  `ShortRow(line)`. Columns beyond the fourth are ignored.

## Model

| member | source | states |
|---|---|---|
| `Roster.Child.CheckLastName` | bot_kindergarten.py:36-41 | true exactly when some roster entry has the candidate's group and last name |
| `Roster.Child.CheckFirstName` | bot_kindergarten.py:43-49 | true exactly when some roster entry has the candidate's group, last name and first name |
| `Roster.Child.CheckBd` | bot_kindergarten.py:51-58 | true exactly when some roster entry agrees with the candidate on all four fields |
| `Roster.CheckBdIsMembership` | bot_kindergarten.py:51-58 | the full check holds exactly when the candidate itself is in the roster (no false positives or negatives) |
| `Roster.MonotoneNarrowing` | bot_kindergarten.py:36-58 | a full match implies a first-name match, which implies a last-name match, on the same roster |
| `Roster.FirstNameMismatchIsFinal` | bot_kindergarten.py:43-58 | after a failed first-name check, no birth date makes the full check succeed |
| `Roster.LastNameMismatchIsFinal` | bot_kindergarten.py:36-58 | after a failed last-name check, no first name or birth date makes a later check succeed |
| `Roster.OrderIndependent` | bot_kindergarten.py:36-58 | the three checks give the same answers on any reordering of the roster |
| `Roster.EmptyRosterMatchesNothing` | bot_kindergarten.py:36-58 | on an empty roster all three checks are false |
| `Roster.ParseMeaning` | bot_kindergarten.py:65-72 | loading fails on an empty source; otherwise it succeeds exactly when every row after the first has four fields, giving one child per row in order, taken from columns 0-3; else it names the first short row |
| `Roster.ParseCsvFile` | bot_kindergarten.py:65-72 | the loader loop returns exactly what `Parse` specifies |
| `AbsenceLog.GetTodayAsStr` | bot_kindergarten.py:81-85 | the date string has ten characters, underscores at positions 4 and 7 and digits everywhere else |
| `AbsenceLog.DateStrRoundTrip` | bot_kindergarten.py:81-85 | reading the `%Y_%m_%d` string back gives the original date |
| `AbsenceLog.GetFilenameForToday` | bot_kindergarten.py:88-92 | the path starts with `dir` and ends with `absent_children_` + date string + `.csv` |
| `AbsenceLog.LogPathShape` | bot_kindergarten.py:88-92 | the log path starts with `dir`, ends in `absent_children_` + date string + `.csv`, and the embedded date is the given day |
| `AbsenceLog.LogPathInjective` | bot_kindergarten.py:81-92 | two different dates give two different log paths under the same directory |
| `AbsenceLog.DataRow` | bot_kindergarten.py:103 | the written row has four fields, and reading it back positionally gives the child |
| `AbsenceLog.Appended` | bot_kindergarten.py:118-125 | after a report the day's file exists and its last row is the child's row; a file that did not exist starts with the header |
| `AbsenceLog.AppendedMeaning` | bot_kindergarten.py:118-125 | a missing file becomes header plus the row; an existing one gains the row at its end; every other path keeps its contents |
| `AbsenceLog.AppendAlwaysWrites` | bot_kindergarten.py:118-125 | every report changes the file map |
| `AbsenceLog.AppendedAllToExisting` | bot_kindergarten.py:101-106 | appending N children to an existing file adds exactly their N rows in call order, duplicates kept, and touches no other file |
| `AbsenceLog.HeaderOnce` | bot_kindergarten.py:109-125 | starting without the day's file, N appends leave exactly one header row followed by the N rows in call order |
| `AbsenceLog.LogReadsBackAsRoster` | bot_kindergarten.py:101-115 | a day's file, read by the roster loader, gives back the appended children in order |
| `AbsenceLog.OtherDaysUntouched` | bot_kindergarten.py:118-125 | writing today's report leaves every other date's file as it was |
| `AbsenceLog.FileSystem.AppendChildToFile` | bot_kindergarten.py:101-106 | the file gains the child's row at its end, a missing file starting empty; nothing else changes |
| `AbsenceLog.FileSystem.CreateFileWithChild` | bot_kindergarten.py:109-115 | the file becomes exactly the header row and the child's row, replacing any old content; nothing else changes |
| `AbsenceLog.FileSystem.AppendAbsentChild` | bot_kindergarten.py:118-125 | the file map becomes `Appended` of the old map at today's log path |
| `Conversation.IsInformChoice` | bot_kindergarten.py:249 | the text is "Inform that the child will not come", optionally followed by one newline |
| `Conversation.IsGroupChoice` | bot_kindergarten.py:250 | the text is "Group 1" or "Group 2", optionally followed by one newline |
| `Conversation.IsFreeText` | bot_kindergarten.py:251-253 | the text is non-empty and does not start with `/`, so no command reaches `st3`..`st5` |
| `Conversation.GroupOf` | bot_kindergarten.py:162-165 | the group is '1' exactly for the text "Group 1", otherwise '2' |
| `Conversation.Session.constructor` | bot_kindergarten.py:61 | a session starts outside the conversation with the empty candidate record |
| `Conversation.Session.Start` | bot_kindergarten.py:132-140 | leads to ST1; record and log unchanged |
| `Conversation.Session.St1` | bot_kindergarten.py:143-155 | accepts the button text and leads to ST2; record and log unchanged |
| `Conversation.Session.St2` | bot_kindergarten.py:158-172 | overwrites only the group, leads to ST3, log unchanged |
| `Conversation.Session.St3` | bot_kindergarten.py:175-191 | overwrites only the last name; ST4 if the last-name check holds, else End; log unchanged; the state invariant is kept |
| `Conversation.Session.St4` | bot_kindergarten.py:194-209 | overwrites only the first name; ST5 if the first-name check holds, else End; log unchanged; the state invariant is kept |
| `Conversation.Session.St5` | bot_kindergarten.py:212-228 | overwrites only the birth date and ends; the log gains the record for today exactly when the full check holds, that is, exactly when the record is a roster child |
| `Conversation.Session.Cancel` | bot_kindergarten.py:231-237 | from any running state leads to End; record and log unchanged |

## Left out

- The Telegram transport is not modelled. This covers reply texts, keyboards,
  `Application`, `ConversationHandler` wiring and polling. Only the state each
  handler returns and its effect on the record and the log are kept. Routing
  by state and the message filters are preconditions of the handlers.
- Messages that no filter accepts are left out. The conversation handler
  ignores them and the state stays the same, so they have no effect to model.
- `IsFreeText` approximates `filters.COMMAND` as "the text starts with `/`".
  The library itself looks for a bot-command entity at offset 0.
- The process-wide `child` record is shared by all users' concurrent sessions
  in the code. The model runs one session sequentially, and interleaving
  between sessions is not modelled. Concurrent appends to one file are not
  modelled either.
- Logging calls and their configuration are left out. They are side effects
  only.
- Real file I/O is not modelled. `csv` quoting and escaping, `os.path.exists`
  and I/O errors are left out, so the model has no failure path for writes.
  Files are rows of fields in a map.
- `os.path.join` is modelled only for the relative file name used here, with
  POSIX separators.
- `datetime.date.today()` is a clock read. The date is a parameter of `St5`
  and `AppendAbsentChild`.
- `AbsenceLog.GetTodayAsStr`: `%Y` is modelled as four zero-padded digits.
  CPython's output for years below 1000 depends on the platform.
- `parse_csv_file` is modelled over rows already split into fields. Opening
  and decoding the file, and how `csv.reader` splits lines, are not modelled.
  The model skips the first row, while the code skips the first physical line
  with `next`. The two differ only when the header holds a quoted line break.
- Module-level configuration (`token`, `path_to_file`, `dir_path`), the
  roster load at import time and `main` are not modelled.
- `check_if_file_exists` is inlined as map membership in `AppendAbsentChild`.
