# Gmail unread-mail triage, modelled in Dafny

This project models the triage logic of `src/gmail_checker.py`, a terminal tool that
lists unread Gmail messages, filters them by age and keyword, lets the user select
messages by number, and then marks them as read, exports them to CSV or replies to
one of them. The Gmail API, the terminal and the file system are inputs to the model.
The model proves what each step promises.

Modules, in dependency order:

- `Wrappers`: the `Option` type.
- `Text`: the parts of Python's `str` and `int` that the tool relies on. These are
  `lower()`, `strip()`, `split()[1]`, `startswith`, the substring test `in`, and
  base-10 `int()`.
- `FilterEngine`: the keep-or-drop rule of `get_unread_messages`, written as a pure
  function `Filter` over the fetched messages.
- `Commands`: how one input line is read as a command. The line is lower-cased and
  stripped, then matched in the source's order (`q a d r c e`, `h `, `s `, `p `, `m`,
  then a bare integer) and checked against the number of listed messages.
- `Replies`: `get_email_thread` and `send_reply`. This covers the recipient taken from
  the `From` header, the `Re:` subject rule, the threading headers, and the reply text
  typed up to a line holding only `.`.
- `Checker`: the `GmailChecker` class. Its fields are `currentMessages`, `hoursFilter`
  and `searchTerm`. Its methods are the filter setters, the fetch loop, the
  best-effort `mark_as_read` loop, and the CSV export loop.
- `Session`: `handle_user_input` and `main`.
  - `Step`, `Interact`, `Round` and `RunSpec` are functions that state what one
    command, one call of `handle_user_input`, one round of `main` and a whole session
    do.
  - `RunCommand`, `HandleUserInput`, `PlayRound` and `RunSession` are the imperative
    loops. Each is proved equal to its function.

How the outside world enters the model:

- Each fetch sees a `Snapshot`. A snapshot holds the current time in seconds and, if
  the listing call succeeded, one entry per message id returned by the single listing
  call. An entry is `None` where fetching that message failed.
- A fetched message carries its headers and snippet. It also carries the parsed `Date`
  header as an `Option<int>`, which is `None` where parsing raised, and the local-time
  text that parsing produced.
- The fetch of round `n` uses `mailbox(n)` as its snapshot. Rounds are numbered from 0.
- The user's input is a sequence of lines, and every `input()` call takes one of them.
  This includes the "press Enter" prompt shown after each message, and the lines of a
  reply. An `input()` past the last line raises `EOFError`, which nothing catches. The
  model treats that as the end of the session (`InputEnded`, `InputExhausted`).
- The outcomes of the remote calls are functions in `Services`:
  - `thread` fetches a message again to reply to it;
  - `sendOk` says whether the send succeeded;
  - `modifyOk` says whether removing the UNREAD label succeeded.
  `fileOk` says whether the export file could be written.
  Each of these is fixed for the whole session. `thread` and `modifyOk` depend only on
  the message id and `sendOk` only on the reply, so asking twice about the same message
  gives the same outcome both times. `fileOk` is a single value: every export in a
  session succeeds, or every one fails, whatever the selection.

Two limits of the Python runtime are part of the model:

- `int()` refuses text with more than 4300 digits (`MAX_STR_DIGITS`). This is CPython's
  default, which `PYTHONINTMAXSTRDIGITS` can change. Underscores and the sign do not count.
  Such a number is therefore malformed, like any other text `int()` refuses.
- `timedelta(hours=h)` raises `OverflowError` once `h // 24` lies outside
  `-999999999..999999999` days, which starts at 24,000,000,000 hours. The handler in the
  fetch loop then skips the message. So under such a window every message is dropped
  (`WindowRepresentable`, `FilterWindowOverflow`).

Behaviour of the code worth knowing:

- A message whose date does not parse is dropped even when no filter is on. So an
  empty filter keeps only the messages with a parsed date, rather than all of them
  (`FilterWithoutCriteria` requires every date parsed).
- Exporting an empty selection is refused before any file is written.
- The selection is a Python `set`, so the order in which `m` marks messages and `e`
  writes rows is not specified.
- The listed messages carry no thread id: replying fetches the message again.

## Model

| member | source | states |
|---|---|---|
| Text.StripEmptyIffBlank | src/gmail_checker.py:283 | `strip()` returns the empty string exactly when the line is all whitespace; any other result starts and ends with a non-space character |
| Text.StripIdempotent | src/gmail_checker.py:321 | stripping an already stripped line changes nothing |
| Text.SecondWordOfVerb | src/gmail_checker.py:310 | `split()[1]` of a one-letter verb, a space and a whitespace-free word is that word |
| Text.ParseDigits | src/gmail_checker.py:375 | `int()` accepts a string of digits and underscores exactly when it is a non-empty run of digits with single underscores between digits, and it has at most 4300 digits |
| Text.DigitGroupsIff | src/gmail_checker.py:375 | the recursive grammar `int()` is modelled with is the same as the flat description: digits and underscores, a digit at both ends, no two underscores in a row |
| Text.ParseDigitsUnderscore | src/gmail_checker.py:375 | an underscore between two digit groups does not change the value, and the digit limit counts only the digits |
| Text.ParseDigitsThousand | src/gmail_checker.py:375 | `1_000` reads as 1000 |
| Text.ParseDigitsRejects | src/gmail_checker.py:375 | `1__0` and `_1` are refused |
| Text.ParseShowInt | src/gmail_checker.py:375 | `int()` reads back the decimal text of every integer, negative ones included, as long as it has at most 4300 digits; a longer one is refused |
| FilterEngine.HeaderValue | src/gmail_checker.py:77-79 | a header lookup yields either the default or the value of a header whose lower-cased name matches |
| FilterEngine.HeaderValueFirst | src/gmail_checker.py:77-79 | the first header with a matching name wins, and a message without one gets the default |
| FilterEngine.FilterMembers | src/gmail_checker.py:81-109 | a detail is listed exactly when some fetched message produced it that has a parsed date, whose window `timedelta` can hold and which lies inside that window when the age filter is on, and whose lower-cased subject or sender contains the term when that filter is on |
| FilterEngine.FilterAppend | src/gmail_checker.py:69-109 | filtering a concatenation filters each part and concatenates the results, so survivors keep their fetch order |
| FilterEngine.FilterLength | src/gmail_checker.py:102-109 | the working set has one entry per kept message and is never longer than the fetch |
| FilterEngine.FilterDropsUnparsed | src/gmail_checker.py:81-93 | a message whose date did not parse is dropped wherever it stands, whatever the filters |
| FilterEngine.FilterWithoutCriteria | src/gmail_checker.py:87-98 | with both filters off and every date parsed, every message is listed, in fetch order |
| FilterEngine.FilterHoursOnly | src/gmail_checker.py:87-93 | with only the age filter on, exactly the parsed messages at most `h` hours old remain, provided `timedelta` can hold `h` hours; otherwise none remain |
| FilterEngine.FilterWindowOverflow | src/gmail_checker.py:87-93 | a window `timedelta` cannot hold makes every message raise inside the handler, so nothing is listed |
| FilterEngine.WindowLimit | src/gmail_checker.py:89 | the largest window `timedelta` can hold is 23,999,999,999 hours |
| FilterEngine.FilterScenario | src/gmail_checker.py:87-90 | messages 1, 10 and 30 hours old under a 24-hour filter leave the first two, in order |
| Commands.ParseHours | src/gmail_checker.py:308-319 | `h` gives a positive window, a non-positive number that is refused, or a malformed argument |
| Commands.ParseKeyword | src/gmail_checker.py:320-327 | `s` gives a non-empty stripped term, or the empty-term refusal |
| Commands.ParseReply | src/gmail_checker.py:328-355 | `p` gives the number of a listed message, a number outside `1..len(emails)`, or a malformed argument |
| Commands.ParseToggle | src/gmail_checker.py:373-389 | a bare number gives a listed message's number, a number outside the range, or an unrecognised command |
| Commands.Dispatch | src/gmail_checker.py:285-389 | the dispatch keeps every accepted index inside `1..len(emails)`, every refused one outside, every accepted window positive and every accepted term stripped and non-empty |
| Commands.Parse | src/gmail_checker.py:283-389 | the same guarantees for a raw line, after lower-casing and stripping |
| Commands.KeywordNotBlank | src/gmail_checker.py:320-322 | the text after `s ` in a normalised line is never blank |
| Commands.ParseKeywordLower | src/gmail_checker.py:321-323 | every accepted search term is already lower-case |
| Commands.ParseNeverKeywordEmpty | src/gmail_checker.py:325-327 | the "empty search term" branch is unreachable |
| Commands.VerbHasArgument | src/gmail_checker.py:308-319 | a normalised `h ...` or `p ...` line always has a second word, so the `IndexError` handler is never used |
| Commands.NormalizeUnchanged | src/gmail_checker.py:283 | a lower-case line without surrounding whitespace is read as it is |
| Commands.DispatchNumeric | src/gmail_checker.py:373-375 | a line starting with a digit or a minus sign reaches the bare-integer branch |
| Commands.ParseShownIndex | src/gmail_checker.py:373-389 | typing the number `k` toggles `k` exactly when `1 <= k <= len(emails)` and `k` has at most 4300 digits; a listed-range miss is refused as out of range, a too-long number as unrecognised |
| Commands.ParseHoursWord | src/gmail_checker.py:308-319 | `h <word>` sets the window to the word's value when `int()` accepts the word, the 4300-digit limit included, and the value is positive; otherwise it is refused as malformed or as not positive |
| Commands.ParseKeywordValue | src/gmail_checker.py:320-327 | `s <text>` sets the search term to the lower-cased, stripped text when the text is not blank; with blank text the line is not a command |
| Commands.ParseReplyWord | src/gmail_checker.py:328-355 | `p <word>` replies to the message the word names when it is listed, and is refused otherwise |
| Commands.ParseShownHours | src/gmail_checker.py:308-319 | `h <n>` sets an `n`-hour window exactly when `n > 0` and `n` has at most 4300 digits; a too-long number is malformed, any other refused as not positive |
| Commands.ParseShownReply | src/gmail_checker.py:328-355 | `p <k>` replies to message `k` exactly when it is listed and `k` has at most 4300 digits; a too-long number is malformed |
| Commands.ParseHoursNotANumber | src/gmail_checker.py:317-319 | `h abc` is refused as malformed |
| Commands.ParseHoursExample | src/gmail_checker.py:310-313 | `h 24` sets a 24-hour window |
| Commands.ParseHoursNegativeExample | src/gmail_checker.py:311-316 | `h -5` is refused as not positive |
| Commands.ParseReplyExample | src/gmail_checker.py:330-331 | with three messages listed, `p 2` replies to the second |
| Commands.ParseReplyOutOfRangeExample | src/gmail_checker.py:330-352 | with three messages listed, `p 5` is refused |
| Commands.ParseToggleExamples | src/gmail_checker.py:375-386 | with three messages listed, `2` toggles the second and `4` is refused |
| Replies.AfterLast | src/gmail_checker.py:130 | `split('<')[-1]` is never longer than the header |
| Replies.AfterLastFacts | src/gmail_checker.py:130 | what `split(c)[-1]` returns never contains `c`, and is the whole text when `c` does not occur in it |
| Replies.AfterLastSuffix | src/gmail_checker.py:130 | everything up to and including the last `c` is dropped: the result is exactly the text after it |
| Replies.FromEmailBracketed | src/gmail_checker.py:130 | a `From` header `Name <addr>` yields `addr` |
| Replies.FromEmailClean | src/gmail_checker.py:130 | the address taken from a header holding `<` contains no angle brackets |
| Replies.ReplySubject | src/gmail_checker.py:150-153 | the reply subject starts with `re:` in any letter case, and is either the original or `Re: ` followed by it |
| Replies.ReplySubjectIdempotent | src/gmail_checker.py:150-153 | applying the subject rule to its own output changes nothing |
| Replies.ReplySubjectKeepsMarked | src/gmail_checker.py:150-153 | a subject already starting with `re:` in any letter case is kept as it is |
| Replies.JoinLinesBlank | src/gmail_checker.py:340 | the joined reply text is blank exactly when every typed line is blank |
| Replies.ReplyTextEmpty | src/gmail_checker.py:340-348 | the reply is sent exactly when some typed line holds more than whitespace |
| Replies.ReplyEnd | src/gmail_checker.py:334-338 | the reply text ends at the first line that is exactly `.`, and with no such line the input runs out |
| Replies.ComposeReply | src/gmail_checker.py:143-169 | with no thread data nothing is sent. Otherwise the reply carries the body, `In-Reply-To` and `References` set to the message id, the message's thread id, and a subject starting with `re:` |
| Replies.ComposeReplySubject | src/gmail_checker.py:127-153 | the reply's subject is the first `Subject` header's value, or `Sin asunto` without one, prefixed with `Re: ` unless it already starts with `re:` in any letter case |
| Replies.ComposeReplyRecipient | src/gmail_checker.py:126-130 | the reply goes to the address inside the angle brackets of the message's first `From` header |
| Replies.ComposeReplyRecipientPlain | src/gmail_checker.py:128-130 | a first `From` header without `<` is the recipient as it stands, and with no `From` header the recipient is empty |
| Checker.FirstFailure | src/gmail_checker.py:69-76 | every message before the first failed fetch was fetched, and the fetch at that index failed |
| Checker.SuccessesAll | src/gmail_checker.py:69-76 | when no fetch fails, every listed message is considered, in listing order |
| Checker.FetchMembers | src/gmail_checker.py:52-115 | a successful fetch lists exactly the kept messages and is never longer than the listing |
| Checker.Enumerate | src/gmail_checker.py:209 | iterating a set visits each element exactly once |
| Checker.GmailChecker.constructor | src/gmail_checker.py:17-23 | a new checker has no listed ids and both filters off |
| Checker.GmailChecker.SetHoursFilter | src/gmail_checker.py:44-46 | the age filter becomes the given value |
| Checker.GmailChecker.SetSearchTerm | src/gmail_checker.py:48-50 | a missing or empty term turns the keyword filter off; any other term is stored lower-cased |
| Checker.GmailChecker.GetUnreadMessages | src/gmail_checker.py:52-115 | the result is `None` when the listing or any message fetch fails, and otherwise the filtered working set. The ids are reset once the listing succeeds and grow by one per kept message, so a failed fetch leaves the ids kept before it |
| Checker.GmailChecker.MarkAsRead | src/gmail_checker.py:175-194 | every id is attempted in order, past failures, and the result is true exactly when every attempt succeeded |
| Checker.GmailChecker.ExportToCsv | src/gmail_checker.py:196-221 | an empty selection or an unwritable file is refused. Otherwise a fixed header row is written, then one row per selected index that names a listed message: each such index exactly once, with that message's sender, subject, date and snippet |
| Session.AllIndicesSize | src/gmail_checker.py:287-288 | `a` selects exactly the numbers `1..len(emails)`, so `len(emails)` messages |
| Session.Toggled | src/gmail_checker.py:376-381 | a number is selected after a toggle exactly when it was not before; every other number keeps its state, and the size changes by one |
| Session.ToggledTwice | src/gmail_checker.py:376-381 | toggling the same number twice restores the selection |
| Session.ExportEffects | src/gmail_checker.py:301-307 | an export names only listed messages when the selection does |
| Session.ReplyStep | src/gmail_checker.py:331-349 | `p k` reads the reply, keeps the selection, and ends the program only when the input runs out |
| Session.MarkStep | src/gmail_checker.py:356-372 | `m` keeps the selection when it only warns, and otherwise ends the round with a refresh that leaves the filters alone |
| Session.Act | src/gmail_checker.py:285-389 | one command consumes input and keeps the selection and the effects inside the listed range. `q`, `r`, `c`, `h` and `s` end the round at once and do nothing else; any other command refreshes only with the filters unchanged |
| Session.Step | src/gmail_checker.py:283-389 | one pass of the loop reads at least one line before it goes on, and a refresh it asks for carries a positive window or a non-empty term |
| Session.Interact | src/gmail_checker.py:267-389 | a call of `handle_user_input` never reads past the input, and a refresh always consumes input and carries a valid filter update |
| Session.InteractEffectsInRange | src/gmail_checker.py:269-389 | starting from the empty selection, every export, reply and mark names only listed messages |
| Session.RejectedChangesNothing | src/gmail_checker.py:314-389 | a refused command changes neither the selection nor anything else and takes the next command after the "press Enter" line |
| Session.MarkNothingSelected | src/gmail_checker.py:356-360 | `m` with nothing selected only warns |
| Session.MarkThenRefresh | src/gmail_checker.py:362-372 | `m` with a selection marks all of it once and refreshes whether or not every call succeeded |
| Session.SelectionLetterLine | src/gmail_checker.py:287-307 | `a` selects exactly the listed messages, `d` empties the selection and `e` exports the selection as `ExportEffects` says; each then consumes the "press Enter" line |
| Session.EndingLetterLine | src/gmail_checker.py:285-300 | `q` quits, `r` refreshes with the filters unchanged and `c` refreshes with both filters cleared, each after reading only its own line |
| Session.ToggleLine | src/gmail_checker.py:373-389 | typing a listed message's number toggles it; any other number, or one too long for `int()`, changes nothing |
| Session.HoursLine | src/gmail_checker.py:308-319 | `h <n>` refreshes with an `n`-hour window when `n > 0` and `n` has at most 4300 digits, and otherwise changes nothing |
| Session.KeywordLine | src/gmail_checker.py:320-324 | `s <text>` with non-blank text refreshes with the lower-cased, stripped text as the search term |
| Session.ReplyOutOfRangeLine | src/gmail_checker.py:328-352 | `p <k>` for an unlisted `k` is refused before any reply text is read |
| Session.Apply | src/gmail_checker.py:297-324 | every refresh keeps the filters valid: the window is positive and the term is non-empty and lower-case |
| Session.ReadReply | src/gmail_checker.py:333-338 | the reply lines are exactly those before the first `.` line, and the input is exhausted when there is none |
| Session.SelectedIds | src/gmail_checker.py:363 | the ids are those of the selected messages, one per selected number, in the set's iteration order |
| Session.ExportCommand | src/gmail_checker.py:301-307 | `e` writes exactly the rows `ExportEffects` describes |
| Session.ReplyCommand | src/gmail_checker.py:331-349 | `p k` reads, sends and acknowledges as `ReplyStep` describes |
| Session.MarkCommand | src/gmail_checker.py:356-372 | `m` marks and refreshes as `MarkStep` describes; the marking succeeds exactly when every selected message could be marked |
| Session.EndRound | src/gmail_checker.py:285-324 | `q`, `r`, `c`, `h` and `s` set the checker's filters through its setters exactly as the refresh update says |
| Session.ActOnSelection | src/gmail_checker.py:287-389 | the other commands act as `Act` describes, without touching the filters |
| Session.RunCommand | src/gmail_checker.py:283-389 | one pass of the loop does what `Step` says; the filters change only on a refresh, as its update says |
| Session.HandleUserInput | src/gmail_checker.py:267-389 | the loop starts from an empty selection and returns what `Interact` says. The filters change only on a refresh, and stay valid |
| Session.Round | src/gmail_checker.py:395-411 | a round that asks for a refresh has read input and carries valid filters |
| Session.RoundStops | src/gmail_checker.py:396-406 | a round stops with a failed fetch exactly when the fetch returns `None`, and with "no unread mail" exactly when it returns an empty list while no filter is on |
| Session.RoundPrompts | src/gmail_checker.py:402-411 | after any other fetch, an empty result under a filter included, the round's effects are those of `handle_user_input`, and it quits, runs out of input or refreshes exactly as that call does |
| Session.RunSpec | src/gmail_checker.py:391-411 | a session makes at least one fetch |
| Session.RunSpecEnds | src/gmail_checker.py:391-411 | the filters stay valid through the whole session; it ends on a failed fetch exactly when its last fetch failed, and on "no unread mail" exactly when its last fetch, made with no filter on, found nothing |
| Session.PlayRound | src/gmail_checker.py:396-411 | one round on the checker does what `Round` says and leaves the new filters in it |
| Session.RunSession | src/gmail_checker.py:391-411 | `main` starts with no filters and ends exactly as `RunSpec` says: the same end, effects, number of fetches and last filters, reading each round's commands after the last round's |
| Session.ClearFiltersOnEmptyResult | src/gmail_checker.py:402-406 | an empty result under an active filter still prompts the user. Typing `c` then ends the session if the mailbox itself is empty |
| Session.QuitOnEmptyFilteredResult | src/gmail_checker.py:402-409 | an empty result under an active filter still prompts the user, who can quit from there |

## Left out

- Pagination of the listing is left out, because the code never follows it: `get_unread_messages` makes one `list` call and reads only its `messages` field, never `nextPageToken`. So each fetch sees only the first page of unread messages, 100 by default, and the model's listing is exactly what that one call returned.

- Authentication (`authenticate`), the OAuth flow and the token file: library and file-system code.
- The Gmail API calls are left out. Their outcomes are inputs: the `Snapshot` of each fetch and the functions in `Services`.
- Building the MIME message of a reply and its base64url encoding are left out; library code.
- The CSV file itself is left out: the quoting, the timestamped file name, and failures part-way through writing. `fileOk` stands for whether the file could be written at all.
- `datetime.now`, `parsedate_to_datetime`, time zones and `strftime` are inputs, as seconds and as the local-time text. Sub-second differences in the age test are not modelled.
- `lower()` is modelled for ASCII and Latin-1 capitals only. `int()` is modelled for ASCII digits only; the non-ASCII Unicode digits Python also accepts are left out.
- Screen output, the menu, clearing the screen and the `time.sleep` pacing in `mark_as_read` are left out. The text typed at a "press Enter" prompt is consumed but ignored.
- The order in which a Python `set` is iterated is left open: `Enumerate` may produce any order.
- Checker.GmailChecker.ExportToCsv: the order of the rows is not fixed, for the same reason.
- Session.MarkCommand: the effect records the selected numbers and the overall outcome, not the order of the calls; `MarkAsRead` states that order.
- The catch-all exception handler of `mark_as_read` (lines 192-194) is left out. Nothing in its loop can raise outside the inner handler except printing.
- The `send_reply` failure message texts and the other messages shown to the user are left out.
- `setup_env.py`, the environment setup script, is not part of this model.
