/**
 * The interactive program: `handle_user_input`, which reads commands against one
 * working set and a selection of message numbers, and `main`, which fetches the
 * working set, hands it to the user, and fetches again after every refresh.
 *
 * The terminal is a sequence of input lines: each `input()` call takes the next
 * one, and an `input()` past the last line raises `EOFError`, which nothing
 * catches, so the program stops there. The "press Enter" prompt shown after a
 * message takes one line too. Screen output is not modelled.
 */
module Session {
  import opened Wrappers
  import opened Text
  import opened FilterEngine
  import opened Commands
  import opened Replies
  import opened Checker

  /** How the outside world answers: the remote calls, and whether the CSV file can be written. */
  datatype Services = Services(
    thread: string -> Option<ThreadData>,   // fetching a message again to reply to it
    sendOk: OutgoingReply -> bool,          // the send call for a reply
    modifyOk: string -> bool,               // removing the UNREAD label from one message
    fileOk: bool)                           // creating and writing the export file

  /** What a refresh does to the filters before the next fetch. */
  datatype FilterUpdate = Unchanged | Cleared | NewHours(hours: int) | NewTerm(term: string)

  /** How `handle_user_input` ends: `None`, `'refresh'`, or an uncaught end of input. */
  datatype Exit = QuitRequested | RefreshRequested(update: FilterUpdate) | InputEnded

  /** What the user's commands did outside the program. */
  datatype Effect =
    | Exported(rows: set<int>, ok: bool)                   // the message numbers written to the CSV file
    | Replied(index: int, outcome: ReplyOutcome, sent: bool)
    | MarkedRead(indices: set<int>, ok: bool)

  datatype Turn = Turn(exit: Exit, effects: seq<Effect>, next: nat)

  /** One command: either the loop goes on with a new selection, or `handle_user_input` returns. */
  datatype StepResult =
    | Next(selection: set<int>, effects: seq<Effect>, next: nat)
    | Done(exit: Exit, effects: seq<Effect>, next: nat)

  datatype Filters = Filters(hours: Option<int>, term: Option<string>)

  // ---------------------------------------------------------------------------
  // The selection

  /** Every message number of a working set of `n` messages (command `a`): `set(range(1, n + 1))`. */
  function AllIndices(n: int): set<int>
    decreases if n > 0 then n else 0
  {
    if n <= 0 then {} else AllIndices(n - 1) + {n}
  }

  predicate InRange(sel: set<int>, n: int) {
    forall i :: i in sel ==> 1 <= i <= n
  }

  /** Selecting all selects exactly the numbers 1 to `n`, so `n` messages. */
  lemma {:induction false} AllIndicesSize(n: nat)
    ensures forall i :: i in AllIndices(n) <==> 1 <= i <= n
    ensures |AllIndices(n)| == n
  {
    if n > 0 {
      AllIndicesSize(n - 1);
      assert n !in AllIndices(n - 1);
    }
  }

  /** A bare number selects an unselected message and deselects a selected one. */
  function Toggled(sel: set<int>, k: int): (r: set<int>)
    ensures k in r <==> k !in sel
    ensures forall i :: i != k ==> (i in r <==> i in sel)
    ensures |r| == if k in sel then |sel| - 1 else |sel| + 1
  {
    if k in sel then sel - {k} else sel + {k}
  }

  /** Typing the same number twice restores the selection. */
  lemma ToggledTwice(sel: set<int>, k: int)
    ensures Toggled(Toggled(sel, k), k) == sel
  {
    assert forall i :: i in Toggled(Toggled(sel, k), k) <==> i in sel;
  }

  // ---------------------------------------------------------------------------
  // One command

  /** The rows of an export: the selected numbers of listed messages, when the file can be written. */
  function ExportEffect(emails: seq<EmailDetail>, svc: Services, sel: set<int>): Effect {
    Exported(if svc.fileOk then set i | i in sel && 1 <= i <= |emails| else {}, svc.fileOk)
  }

  /** A reply to message `k` with the given text, and whether it went out. */
  function ReplyEffect(emails: seq<EmailDetail>, svc: Services, k: int, text: string): Effect
    requires 1 <= k <= |emails|
  {
    var id := emails[k - 1].id;
    var outcome := ComposeReply(svc.thread(id), id, text);
    Replied(k, outcome, outcome.Outgoing? && svc.sendOk(outcome.reply))
  }

  /** Marking the selection succeeds when every selected message could be marked. */
  predicate MarkOk(emails: seq<EmailDetail>, svc: Services, sel: set<int>) {
    forall i :: i in sel && 1 <= i <= |emails| ==> svc.modifyOk(emails[i - 1].id)
  }

  /** The refreshes the parser can request: a positive number of hours, a non-empty term. */
  predicate UpdateValid(u: FilterUpdate) {
    (u.NewHours? ==> u.hours > 0) && (u.NewTerm? ==> u.term != [])
  }

  /** Every number an effect names is the number of a listed message. */
  predicate EffectInRange(e: Effect, n: int) {
    match e
    case Exported(rows, _) => InRange(rows, n)
    case Replied(k, _, _) => 1 <= k <= n
    case MarkedRead(ix, _) => InRange(ix, n)
  }

  predicate EffectsInRange(es: seq<Effect>, n: int) {
    forall j :: 0 <= j < |es| ==> EffectInRange(es[j], n)
  }

  /** The "press Enter" prompt: it takes one line, or ends the program at the end of input. */
  function AfterAck(lines: seq<string>, at: nat, sel: set<int>, effects: seq<Effect>): (r: StepResult)
    requires at <= |lines|
  {
    if at < |lines| then Next(sel, effects, at + 1) else Done(InputEnded, effects, at)
  }

  /** The effect list of `e`: nothing for an empty selection. */
  function ExportEffects(emails: seq<EmailDetail>, svc: Services, sel: set<int>): (r: seq<Effect>)
    ensures InRange(sel, |emails|) ==> EffectsInRange(r, |emails|)
  {
    if sel == {} then [] else [ExportEffect(emails, svc, sel)]
  }

  /** `p k`: read the reply up to the `.` line, and send it unless it is blank. */
  function ReplyStep(emails: seq<EmailDetail>, svc: Services, lines: seq<string>, at: nat, sel: set<int>, k: int): (r: StepResult)
    requires at <= |lines| && 1 <= k <= |emails|
    ensures r.Next? ==> at < r.next <= |lines| && r.selection == sel
    ensures r.Done? ==> r.exit == InputEnded && at <= r.next <= |lines|
    ensures EffectsInRange(r.effects, |emails|)
  {
    match ReplyEnd(lines, at)
    case None => Done(InputEnded, [], |lines|)
    case Some(e) =>
      var text := JoinLines(lines[at..e]);
      AfterAck(lines, e + 1, sel, if Strip(text) == [] then [] else [ReplyEffect(emails, svc, k, text)])
  }

  /** `m`: with a selection, mark it and refresh; without one, only warn. */
  function MarkStep(emails: seq<EmailDetail>, svc: Services, lines: seq<string>, at: nat, sel: set<int>): (r: StepResult)
    requires at <= |lines|
    ensures r.Next? ==> at < r.next <= |lines| && r.selection == sel
    ensures r.Done? ==> at <= r.next <= |lines| && (r.exit.RefreshRequested? ==> at < r.next && r.exit.update == Unchanged)
    ensures InRange(sel, |emails|) ==> EffectsInRange(r.effects, |emails|)
  {
    if sel == {} then AfterAck(lines, at, sel, [])
    else
      var effects := [MarkedRead(sel, MarkOk(emails, svc, sel))];
      if at < |lines| then Done(RefreshRequested(Unchanged), effects, at + 1) else Done(InputEnded, effects, at)
  }

  /** The commands that end `handle_user_input` at once: quitting and the four kinds of refresh. */
  predicate EndsRound(cmd: Command) {
    cmd.Quit? || cmd.Refresh? || cmd.ClearFilters? || cmd.SetHours? || cmd.SetKeyword?
  }

  /** What one command does, read from the line before `at`, to selection `sel`. */
  function Act(emails: seq<EmailDetail>, svc: Services, lines: seq<string>, at: nat, sel: set<int>, cmd: Command): (r: StepResult)
    requires 0 < at <= |lines|
    requires cmd.SetHours? ==> cmd.hours > 0
    requires cmd.SetKeyword? ==> cmd.term != []
    requires cmd.Reply? || cmd.Toggle? ==> 1 <= cmd.index <= |emails|
    ensures r.Next? ==> at < r.next <= |lines|
    ensures r.Done? ==> at <= r.next <= |lines|
    ensures r.Done? && r.exit.RefreshRequested? ==> UpdateValid(r.exit.update)
    ensures EndsRound(cmd) ==> r.Done? && r.effects == [] && r.next == at
    ensures !EndsRound(cmd) && r.Done? && r.exit.RefreshRequested? ==> r.exit.update == Unchanged
    ensures InRange(sel, |emails|) ==> EffectsInRange(r.effects, |emails|) && (r.Next? ==> InRange(r.selection, |emails|))
  {
    match cmd
    case Quit => Done(QuitRequested, [], at)
    case SelectAll => AllIndicesSize(|emails|); AfterAck(lines, at, AllIndices(|emails|), [])
    case DeselectAll => AfterAck(lines, at, {}, [])
    case Refresh => Done(RefreshRequested(Unchanged), [], at)
    case ClearFilters => Done(RefreshRequested(Cleared), [], at)
    case Export => AfterAck(lines, at, sel, ExportEffects(emails, svc, sel))
    case SetHours(h) => Done(RefreshRequested(NewHours(h)), [], at)
    case SetKeyword(t) => Done(RefreshRequested(NewTerm(t)), [], at)
    case Reply(k) => ReplyStep(emails, svc, lines, at, sel, k)
    case MarkRead => MarkStep(emails, svc, lines, at, sel)
    case Toggle(k) => AfterAck(lines, at, Toggled(sel, k), [])
    case _ => AfterAck(lines, at, sel, [])
  }

  /** One pass of the command loop of `handle_user_input`, reading from line `pos`. */
  function Step(emails: seq<EmailDetail>, svc: Services, lines: seq<string>, pos: nat, sel: set<int>): (r: StepResult)
    requires pos <= |lines|
    ensures r.Next? ==> pos < r.next <= |lines|
    ensures r.Done? ==> pos <= r.next <= |lines|
    ensures r.Done? && r.exit.RefreshRequested? ==> pos < r.next && UpdateValid(r.exit.update)
    ensures InRange(sel, |emails|) ==> EffectsInRange(r.effects, |emails|) && (r.Next? ==> InRange(r.selection, |emails|))
  {
    if pos == |lines| then Done(InputEnded, [], pos)
    else Act(emails, svc, lines, pos + 1, sel, Parse(lines[pos], |emails|))
  }

  /** `handle_user_input` from line `pos` with selection `sel`: how it returns, and what it did on the way. */
  function Interact(emails: seq<EmailDetail>, svc: Services, lines: seq<string>, pos: nat, sel: set<int>): (t: Turn)
    requires pos <= |lines|
    ensures pos <= t.next <= |lines|
    ensures t.exit.RefreshRequested? ==> pos < t.next && UpdateValid(t.exit.update)
    decreases |lines| - pos
  {
    match Step(emails, svc, lines, pos, sel)
    case Done(exit, effects, next) => Turn(exit, effects, next)
    case Next(sel', effects, next) =>
      var t := Interact(emails, svc, lines, next, sel');
      Turn(t.exit, effects + t.effects, t.next)
  }

  function Extend(effects: seq<Effect>, t: Turn): Turn {
    Turn(t.exit, effects + t.effects, t.next)
  }

  /** Starting from an empty selection, every effect names only listed messages. */
  lemma {:induction false} InteractEffectsInRange(emails: seq<EmailDetail>, svc: Services, lines: seq<string>, pos: nat, sel: set<int>)
    requires pos <= |lines| && InRange(sel, |emails|)
    ensures EffectsInRange(Interact(emails, svc, lines, pos, sel).effects, |emails|)
    decreases |lines| - pos
  {
    var r := Step(emails, svc, lines, pos, sel);
    if r.Next? {
      InteractEffectsInRange(emails, svc, lines, r.next, r.selection);
      var rest := Interact(emails, svc, lines, r.next, r.selection).effects;
      assert forall j :: |r.effects| <= j < |r.effects + rest| ==> (r.effects + rest)[j] == rest[j - |r.effects|];
    }
  }

  /** A rejected command (bad number, bad format, unknown text) changes nothing and waits for the next one. */
  lemma RejectedChangesNothing(emails: seq<EmailDetail>, svc: Services, lines: seq<string>, pos: nat, sel: set<int>)
    requires pos + 1 < |lines| && IsRejected(Parse(lines[pos], |emails|))
    ensures Step(emails, svc, lines, pos, sel) == Next(sel, [], pos + 2)
  {
  }

  /** `a` selects every listed message, `d` clears the selection and `e` exports it; each then waits for Enter. */
  lemma SelectionLetterLine(emails: seq<EmailDetail>, svc: Services, lines: seq<string>, pos: nat, sel: set<int>)
    requires pos + 1 < |lines|
    ensures lines[pos] == "a" ==> Step(emails, svc, lines, pos, sel) == Next(AllIndices(|emails|), [], pos + 2)
    ensures lines[pos] == "d" ==> Step(emails, svc, lines, pos, sel) == Next({}, [], pos + 2)
    ensures lines[pos] == "e" ==> Step(emails, svc, lines, pos, sel) == Next(sel, ExportEffects(emails, svc, sel), pos + 2)
  {
    if lines[pos] in {"a", "d", "e"} {
      NormalizeUnchanged(lines[pos]);
    }
  }

  /** `q` quits, `r` refreshes with the same filters and `c` refreshes with none, all without reading further. */
  lemma EndingLetterLine(emails: seq<EmailDetail>, svc: Services, lines: seq<string>, pos: nat, sel: set<int>)
    requires pos < |lines|
    ensures lines[pos] == "q" ==> Step(emails, svc, lines, pos, sel) == Done(QuitRequested, [], pos + 1)
    ensures lines[pos] == "r" ==> Step(emails, svc, lines, pos, sel) == Done(RefreshRequested(Unchanged), [], pos + 1)
    ensures lines[pos] == "c" ==> Step(emails, svc, lines, pos, sel) == Done(RefreshRequested(Cleared), [], pos + 1)
  {
    if lines[pos] in {"q", "r", "c"} {
      NormalizeUnchanged(lines[pos]);
    }
  }

  /** `m` with nothing selected only shows a warning. */
  lemma MarkNothingSelected(emails: seq<EmailDetail>, svc: Services, lines: seq<string>, pos: nat)
    requires pos + 1 < |lines| && Parse(lines[pos], |emails|) == MarkRead
    ensures Step(emails, svc, lines, pos, {}) == Next({}, [], pos + 2)
  {
  }

  /** `m` with a selection marks all of it once and refreshes, whether or not every call succeeded. */
  lemma MarkThenRefresh(emails: seq<EmailDetail>, svc: Services, lines: seq<string>, pos: nat, sel: set<int>)
    requires pos + 1 < |lines| && Parse(lines[pos], |emails|) == MarkRead && sel != {}
    ensures Interact(emails, svc, lines, pos, sel) ==
            Turn(RefreshRequested(Unchanged), [MarkedRead(sel, MarkOk(emails, svc, sel))], pos + 2)
  {
  }

  /** Typing the number of a listed message toggles it; any other number, or one too long for `int()`, changes nothing. */
  lemma ToggleLine(emails: seq<EmailDetail>, svc: Services, lines: seq<string>, pos: nat, sel: set<int>, k: int)
    requires pos + 1 < |lines| && lines[pos] == ShowInt(k)
    ensures Step(emails, svc, lines, pos, sel) ==
            Next(if 1 <= k <= |emails| && DecimalDigits(k) <= MAX_STR_DIGITS then Toggled(sel, k) else sel, [], pos + 2)
  {
    ParseShownIndex(k, |emails|);
  }

  /**
   * `h <n>` refreshes with an `n`-hour window when `n` is positive and short enough for
   * `int()`, and is otherwise refused with nothing changed.
   */
  lemma HoursLine(emails: seq<EmailDetail>, svc: Services, lines: seq<string>, pos: nat, sel: set<int>, h: int)
    requires pos + 1 < |lines| && lines[pos] == "h " + ShowInt(h)
    ensures Step(emails, svc, lines, pos, sel) ==
            if h > 0 && DecimalDigits(h) <= MAX_STR_DIGITS then Done(RefreshRequested(NewHours(h)), [], pos + 1)
            else Next(sel, [], pos + 2)
  {
    ParseShownHours(h, |emails|);
  }

  /** `s <text>` with non-blank text refreshes with the text lower-cased and stripped as the new term. */
  lemma KeywordLine(emails: seq<EmailDetail>, svc: Services, lines: seq<string>, pos: nat, sel: set<int>, t: string)
    requires pos < |lines| && lines[pos] == "s " + t && !IsBlank(t)
    ensures Step(emails, svc, lines, pos, sel) == Done(RefreshRequested(NewTerm(Strip(ToLower(t)))), [], pos + 1)
  {
    ParseKeywordValue(t, |emails|);
  }

  /** `p <k>` for a number that names no listed message is refused before any reply text is read. */
  lemma ReplyOutOfRangeLine(emails: seq<EmailDetail>, svc: Services, lines: seq<string>, pos: nat, sel: set<int>, k: int)
    requires pos + 1 < |lines| && lines[pos] == "p " + ShowInt(k) && !(1 <= k <= |emails|)
    ensures Step(emails, svc, lines, pos, sel) == Next(sel, [], pos + 2)
  {
    ParseShownReply(k, |emails|);
  }

  // ---------------------------------------------------------------------------
  // The filters

  predicate FiltersValid(f: Filters) {
    (f.hours.Some? ==> f.hours.value > 0) && (f.term.Some? ==> f.term.value != [] && IsLower(f.term.value))
  }

  /** The filters for the next fetch after a refresh. */
  function Apply(u: FilterUpdate, f: Filters): (g: Filters)
    ensures UpdateValid(u) && FiltersValid(f) ==> FiltersValid(g)
  {
    match u
    case Unchanged => f
    case Cleared => Filters(None, None)
    case NewHours(h) => Filters(Some(h), f.term)
    case NewTerm(t) =>
      ToLowerIsLower(t);
      Filters(f.hours, if t != [] then Some(ToLower(t)) else None)
  }

  // ---------------------------------------------------------------------------
  // The command loop

  /** `'\n'.join(reply_lines)` is read up to a line holding only `.`; `None` when the input ends first. */
  method ReadReply(lines: seq<string>, from: nat) returns (text: Option<seq<string>>, next: nat)
    requires from <= |lines|
    ensures ReplyEnd(lines, from).None? ==> text.None? && next == |lines|
    ensures ReplyEnd(lines, from).Some? ==>
      text == Some(lines[from..ReplyEnd(lines, from).value]) && next == ReplyEnd(lines, from).value + 1
  {
    var replyLines: seq<string> := [];
    var pos := from;
    while true
      invariant from <= pos <= |lines|
      invariant replyLines == lines[from..pos]
      invariant forall j :: from <= j < pos ==> lines[j] != "."
      decreases |lines| - pos
    {
      if pos == |lines| {
        return None, pos;
      }
      var line := lines[pos];
      pos := pos + 1;
      if line == "." {
        return Some(replyLines), pos;
      }
      replyLines := replyLines + [line];
    }
  }

  /** `[emails[i-1]['id'] for i in selected]`: one id per selected number, in the set's iteration order `order`. */
  method SelectedIds(emails: seq<EmailDetail>, selected: set<int>) returns (ids: seq<string>, ghost order: seq<int>)
    requires InRange(selected, |emails|)
    ensures |ids| == |selected|
    ensures |ids| == |order|
    ensures forall i :: i in order <==> i in selected
    ensures forall j :: 0 <= j < |order| ==> 1 <= order[j] <= |emails| && ids[j] == emails[order[j] - 1].id
  {
    var indices := Enumerate(selected);
    ids := [];
    for k := 0 to |indices|
      invariant |ids| == k
      invariant forall j :: 0 <= j < k ==> 1 <= indices[j] <= |emails| && ids[j] == emails[indices[j] - 1].id
    {
      assert indices[k] in indices;
      ids := ids + [emails[indices[k] - 1].id];
    }
    order := indices;
  }

  /** `e`: export the selection; an empty selection is refused without an effect. */
  method ExportCommand(checker: GmailChecker, emails: seq<EmailDetail>, svc: Services, sel: set<int>)
      returns (effects: seq<Effect>)
    ensures effects == ExportEffects(emails, svc, sel)
  {
    var ok, table, written := checker.ExportToCsv(emails, sel, svc.fileOk);
    effects := [];
    if sel != {} {
      assert (set i | i in written) == (if svc.fileOk then set i | i in sel && 1 <= i <= |emails| else {});
      effects := [Exported((set i | i in written), ok)];
    }
  }

  /** `p k` once `k` is known to name a listed message. */
  method ReplyCommand(emails: seq<EmailDetail>, svc: Services, lines: seq<string>, at: nat, sel: set<int>, k: int)
      returns (r: StepResult)
    requires at <= |lines| && 1 <= k <= |emails|
    ensures r == ReplyStep(emails, svc, lines, at, sel, k)
  {
    var replyLines, after := ReadReply(lines, at);
    if replyLines.None? {
      return Done(InputEnded, [], after);
    }
    var text := JoinLines(replyLines.value);
    var effects: seq<Effect> := [];
    if Strip(text) != [] {
      effects := [ReplyEffect(emails, svc, k, text)];
    }
    r := AfterAck(lines, after, sel, effects);
  }

  /** `m`: the ids of the selection are marked one by one, and the loop ends with a refresh either way. */
  method MarkCommand(checker: GmailChecker, emails: seq<EmailDetail>, svc: Services, lines: seq<string>, at: nat,
                     sel: set<int>) returns (r: StepResult)
    requires at <= |lines| && InRange(sel, |emails|)
    ensures r == MarkStep(emails, svc, lines, at, sel)
  {
    if sel == {} {
      return AfterAck(lines, at, sel, []);
    }
    var ids, order := SelectedIds(emails, sel);
    var ok, attempted := checker.MarkAsRead(ids, svc.modifyOk);
    assert ok <==> MarkOk(emails, svc, sel) by {
      if ok {
        forall i | i in sel && 1 <= i <= |emails| ensures svc.modifyOk(emails[i - 1].id) {
          assert i in order;
          var j :| 0 <= j < |order| && order[j] == i;
          assert svc.modifyOk(ids[j]);
        }
      }
      if MarkOk(emails, svc, sel) {
        forall j | 0 <= j < |ids| ensures svc.modifyOk(ids[j]) {
          assert order[j] in sel;
        }
      }
    }
    var effects := [MarkedRead(sel, ok)];
    if at == |lines| {
      return Done(InputEnded, effects, at);
    }
    return Done(RefreshRequested(Unchanged), effects, at + 1);
  }

  /** The commands that end the round: the checker's setters run before a refresh that changes the filters. */
  method EndRound(checker: GmailChecker, emails: seq<EmailDetail>, svc: Services, lines: seq<string>, at: nat,
                  selected: set<int>, command: Command) returns (r: StepResult)
    requires 0 < at <= |lines| && EndsRound(command)
    requires command.SetHours? ==> command.hours > 0
    requires command.SetKeyword? ==> command.term != []
    modifies checker`hoursFilter, checker`searchTerm
    ensures r == Act(emails, svc, lines, at, selected, command)
    ensures Filters(checker.hoursFilter, checker.searchTerm) ==
            if r.exit.RefreshRequested? then Apply(r.exit.update, old(Filters(checker.hoursFilter, checker.searchTerm)))
            else old(Filters(checker.hoursFilter, checker.searchTerm))
  {
    match command {
      case Quit =>
        r := Done(QuitRequested, [], at);
      case Refresh =>
        r := Done(RefreshRequested(Unchanged), [], at);
      case ClearFilters =>
        checker.SetHoursFilter(None);
        checker.SetSearchTerm(None);
        r := Done(RefreshRequested(Cleared), [], at);
      case SetHours(h) =>
        checker.SetHoursFilter(Some(h));
        r := Done(RefreshRequested(NewHours(h)), [], at);
      case SetKeyword(t) =>
        checker.SetSearchTerm(Some(t));
        r := Done(RefreshRequested(NewTerm(t)), [], at);
    }
  }

  /** The commands that act on the selection or on the listed messages, then wait for the "press Enter" line. */
  method ActOnSelection(checker: GmailChecker, emails: seq<EmailDetail>, svc: Services, lines: seq<string>, at: nat,
                        selected: set<int>, command: Command) returns (r: StepResult)
    requires 0 < at <= |lines| && InRange(selected, |emails|) && !EndsRound(command)
    requires command.Reply? || command.Toggle? ==> 1 <= command.index <= |emails|
    ensures r == Act(emails, svc, lines, at, selected, command)
  {
    match command {
      case SelectAll =>
        r := AfterAck(lines, at, AllIndices(|emails|), []);
      case DeselectAll =>
        r := AfterAck(lines, at, {}, []);
      case Export =>
        var effects := ExportCommand(checker, emails, svc, selected);
        r := AfterAck(lines, at, selected, effects);
      case Reply(k) =>
        r := ReplyCommand(emails, svc, lines, at, selected, k);
      case MarkRead =>
        r := MarkCommand(checker, emails, svc, lines, at, selected);
      case Toggle(k) =>
        r := AfterAck(lines, at, Toggled(selected, k), []);
      case HoursNotPositive(_) =>
        r := AfterAck(lines, at, selected, []);
      case HoursMalformed =>
        r := AfterAck(lines, at, selected, []);
      case KeywordEmpty =>
        r := AfterAck(lines, at, selected, []);
      case ReplyOutOfRange(_) =>
        r := AfterAck(lines, at, selected, []);
      case ReplyMalformed =>
        r := AfterAck(lines, at, selected, []);
      case ToggleOutOfRange(_) =>
        r := AfterAck(lines, at, selected, []);
      case Unrecognized =>
        r := AfterAck(lines, at, selected, []);
    }
  }

  /**
   * One pass of the command loop: read a command and act on it. The filters of
   * `checker` change only on the commands that end the loop with a refresh.
   */
  method RunCommand(checker: GmailChecker, emails: seq<EmailDetail>, svc: Services, lines: seq<string>, pos: nat,
                    selected: set<int>) returns (r: StepResult)
    requires pos <= |lines| && InRange(selected, |emails|)
    modifies checker`hoursFilter, checker`searchTerm
    ensures r == Step(emails, svc, lines, pos, selected)
    ensures Filters(checker.hoursFilter, checker.searchTerm) ==
            if r.Done? && r.exit.RefreshRequested? then Apply(r.exit.update, old(Filters(checker.hoursFilter, checker.searchTerm)))
            else old(Filters(checker.hoursFilter, checker.searchTerm))
  {
    if pos == |lines| {
      return Done(InputEnded, [], pos);
    }
    var command := Parse(lines[pos], |emails|);
    if EndsRound(command) {
      r := EndRound(checker, emails, svc, lines, pos + 1, selected, command);
    } else {
      r := ActOnSelection(checker, emails, svc, lines, pos + 1, selected, command);
    }
  }

  /**
   * `handle_user_input`: the selection starts empty and lives only here; the filters
   * of `checker` change only just before a refresh.
   */
  method HandleUserInput(checker: GmailChecker, emails: seq<EmailDetail>, svc: Services, lines: seq<string>, start: nat)
      returns (exit: Exit, effects: seq<Effect>, next: nat)
    requires start <= |lines|
    modifies checker`hoursFilter, checker`searchTerm
    ensures Turn(exit, effects, next) == Interact(emails, svc, lines, start, {})
    ensures Filters(checker.hoursFilter, checker.searchTerm) ==
            if exit.RefreshRequested? then Apply(exit.update, old(Filters(checker.hoursFilter, checker.searchTerm)))
            else old(Filters(checker.hoursFilter, checker.searchTerm))
    ensures FiltersValid(old(Filters(checker.hoursFilter, checker.searchTerm))) ==> FiltersValid(Filters(checker.hoursFilter, checker.searchTerm))
  {
    var selected: set<int> := {};
    var pos := start;
    effects := [];
    while true
      invariant start <= pos <= |lines|
      invariant InRange(selected, |emails|)
      invariant checker.hoursFilter == old(checker.hoursFilter) && checker.searchTerm == old(checker.searchTerm)
      invariant Interact(emails, svc, lines, start, {}) == Extend(effects, Interact(emails, svc, lines, pos, selected))
      decreases |lines| - pos
    {
      var r := RunCommand(checker, emails, svc, lines, pos, selected);
      match r {
        case Done(e, es, n) =>
          return e, effects + es, n;
        case Next(sel, es, n) =>
          assert Interact(emails, svc, lines, pos, selected) == Extend(es, Interact(emails, svc, lines, n, sel));
          assert (effects + es) + Interact(emails, svc, lines, n, sel).effects
                 == effects + (es + Interact(emails, svc, lines, n, sel).effects);
          effects := effects + es;
          selected := sel;
          pos := n;
      }
    }
  }

  // ---------------------------------------------------------------------------
  // The main loop

  datatype SessionEnd = FetchFailed | NoUnreadMail | UserQuit | InputExhausted

  /** How `main` ends, the effects of all its rounds, how many fetches it made, and the filters of the last one. */
  datatype SessionResult = SessionResult(end: SessionEnd, log: seq<Effect>, cycles: nat, last: Filters)

  /** One round of `main`: either the session stops, or it fetches again with new filters from line `next`. */
  datatype RoundResult =
    | Stopped(end: SessionEnd, effects: seq<Effect>)
    | Again(effects: seq<Effect>, next: nat, filters: Filters)

  /**
   * One round of `main`: fetch; stop when the fetch fails or when nothing is unread
   * and no filter is on; otherwise let the user act on the working set.
   */
  function Round(snap: Snapshot, svc: Services, lines: seq<string>, pos: nat, f: Filters): (r: RoundResult)
    requires pos <= |lines|
    ensures r.Again? ==> pos < r.next <= |lines|
    ensures r.Again? && FiltersValid(f) ==> FiltersValid(r.filters)
  {
    match Fetch(snap, f.hours, f.term)
    case None => Stopped(FetchFailed, [])
    case Some(emails) =>
      if emails == [] && !HoursActive(f.hours) && !TermActive(f.term) then Stopped(NoUnreadMail, [])
      else
        var t := Interact(emails, svc, lines, pos, {});
        match t.exit
        case QuitRequested => Stopped(UserQuit, t.effects)
        case InputEnded => Stopped(InputExhausted, t.effects)
        case RefreshRequested(u) => Again(t.effects, t.next, Apply(u, f))
  }

  /** A round stops at once exactly on a failed fetch, or on an empty result with no filter on. */
  lemma RoundStops(snap: Snapshot, svc: Services, lines: seq<string>, pos: nat, f: Filters)
    requires pos <= |lines|
    ensures var r := Round(snap, svc, lines, pos, f);
            (r.Stopped? && r.end == FetchFailed <==> Fetch(snap, f.hours, f.term).None?)
            && (r.Stopped? && r.end == NoUnreadMail <==>
                Fetch(snap, f.hours, f.term) == Some([]) && !HoursActive(f.hours) && !TermActive(f.term))
  {
  }

  /**
   * Any other result, an empty one under a filter included, goes to the user, whose commands
   * decide between quitting, running out of input and fetching again.
   */
  lemma RoundPrompts(snap: Snapshot, svc: Services, lines: seq<string>, pos: nat, f: Filters)
    requires pos <= |lines|
    requires Fetch(snap, f.hours, f.term).Some?
    requires !(Fetch(snap, f.hours, f.term) == Some([]) && !HoursActive(f.hours) && !TermActive(f.term))
    ensures var r := Round(snap, svc, lines, pos, f);
            var t := Interact(Fetch(snap, f.hours, f.term).value, svc, lines, pos, {});
            r.effects == t.effects
            && (r.Stopped? && r.end == UserQuit <==> t.exit.QuitRequested?)
            && (r.Stopped? && r.end == InputExhausted <==> t.exit.InputEnded?)
            && (r.Again? <==> t.exit.RefreshRequested?)
  {
  }

  /** `main` from fetch number `cycle` on, with the input read up to `pos` and the given filters. */
  function RunSpec(mailbox: nat -> Snapshot, svc: Services, lines: seq<string>, pos: nat, cycle: nat, f: Filters): (r: SessionResult)
    requires pos <= |lines|
    ensures r.cycles > cycle
    decreases |lines| - pos
  {
    match Round(mailbox(cycle), svc, lines, pos, f)
    case Stopped(end, effects) => SessionResult(end, effects, cycle + 1, f)
    case Again(effects, next, g) =>
      var rest := RunSpec(mailbox, svc, lines, next, cycle + 1, g);
      SessionResult(rest.end, effects + rest.log, rest.cycles, rest.last)
  }

  /**
   * How a session ends: the filters stay valid through every round, it stops on a failed
   * fetch exactly when the last fetch failed, and on "no unread mail" exactly when the
   * last fetch, made with no filter on, found nothing. `n` is the number of that last fetch.
   */
  lemma {:induction false} RunSpecEnds(mailbox: nat -> Snapshot, svc: Services, lines: seq<string>, pos: nat, cycle: nat, f: Filters)
      returns (n: nat)
    requires pos <= |lines|
    ensures var r := RunSpec(mailbox, svc, lines, pos, cycle, f);
            n + 1 == r.cycles
            && (FiltersValid(f) ==> FiltersValid(r.last))
            && (r.end == FetchFailed <==> Fetch(mailbox(n), r.last.hours, r.last.term).None?)
            && (r.end == NoUnreadMail <==>
                Fetch(mailbox(n), r.last.hours, r.last.term) == Some([]) && !HoursActive(r.last.hours) && !TermActive(r.last.term))
    decreases |lines| - pos
  {
    var round := Round(mailbox(cycle), svc, lines, pos, f);
    if round.Again? {
      n := RunSpecEnds(mailbox, svc, lines, round.next, cycle + 1, round.filters);
    } else {
      RoundStops(mailbox(cycle), svc, lines, pos, f);
      n := cycle;
    }
  }

  function Prepend(log: seq<Effect>, r: SessionResult): SessionResult {
    SessionResult(r.end, log + r.log, r.cycles, r.last)
  }

  /** One round of `main` on the checker: the fetch rebuilds its working set, and a refresh leaves the new filters in it. */
  method PlayRound(checker: GmailChecker, snap: Snapshot, svc: Services, lines: seq<string>, pos: nat) returns (r: RoundResult)
    requires pos <= |lines|
    modifies checker`currentMessages, checker`hoursFilter, checker`searchTerm
    ensures r == Round(snap, svc, lines, pos, old(Filters(checker.hoursFilter, checker.searchTerm)))
    ensures Filters(checker.hoursFilter, checker.searchTerm) ==
            if r.Again? then r.filters else old(Filters(checker.hoursFilter, checker.searchTerm))
  {
    var emails := checker.GetUnreadMessages(snap);
    if emails.None? {
      return Stopped(FetchFailed, []);
    }
    if emails.value == [] && !(HoursActive(checker.hoursFilter) || TermActive(checker.searchTerm)) {
      return Stopped(NoUnreadMail, []);
    }
    var exit, effects, next := HandleUserInput(checker, emails.value, svc, lines, pos);
    match exit {
      case QuitRequested =>
        r := Stopped(UserQuit, effects);
      case InputEnded =>
        r := Stopped(InputExhausted, effects);
      case RefreshRequested(u) =>
        r := Again(effects, next, Filters(checker.hoursFilter, checker.searchTerm));
    }
  }

  /** `main`: the checker starts with no filters; each round reads on from where the last one stopped. */
  method RunSession(mailbox: nat -> Snapshot, svc: Services, lines: seq<string>)
      returns (end: SessionEnd, log: seq<Effect>, cycles: nat, last: Filters)
    ensures SessionResult(end, log, cycles, last) == RunSpec(mailbox, svc, lines, 0, 0, Filters(None, None))
  {
    var checker := new GmailChecker();
    var pos := 0;
    cycles := 0;
    log := [];
    while true
      invariant pos <= |lines|
      invariant RunSpec(mailbox, svc, lines, 0, 0, Filters(None, None))
                == Prepend(log, RunSpec(mailbox, svc, lines, pos, cycles, Filters(checker.hoursFilter, checker.searchTerm)))
      decreases |lines| - pos
    {
      var r := PlayRound(checker, mailbox(cycles), svc, lines, pos);
      cycles := cycles + 1;
      match r {
        case Stopped(e, effects) =>
          return e, log + effects, cycles, Filters(checker.hoursFilter, checker.searchTerm);
        case Again(effects, next, _) =>
          ghost var rest := RunSpec(mailbox, svc, lines, next, cycles, Filters(checker.hoursFilter, checker.searchTerm));
          assert log + (effects + rest.log) == (log + effects) + rest.log;
          log := log + effects;
          pos := next;
      }
    }
  }

  /** With a filter on, an empty result still prompts; clearing the filters then ends the session if the mailbox is empty. */
  lemma ClearFiltersOnEmptyResult(mailbox: nat -> Snapshot, svc: Services, lines: seq<string>, pos: nat, cycle: nat, f: Filters)
    requires pos < |lines| && Parse(lines[pos], 0) == ClearFilters
    requires HoursActive(f.hours) || TermActive(f.term)
    requires Fetch(mailbox(cycle), f.hours, f.term) == Some([])
    requires Fetch(mailbox(cycle + 1), None, None) == Some([])
    ensures RunSpec(mailbox, svc, lines, pos, cycle, f) == SessionResult(NoUnreadMail, [], cycle + 2, Filters(None, None))
  {
  }

  /** An empty result under an active filter still prompts the user, who can quit from there. */
  lemma QuitOnEmptyFilteredResult(mailbox: nat -> Snapshot, svc: Services, lines: seq<string>, pos: nat, cycle: nat, f: Filters)
    requires pos < |lines| && Parse(lines[pos], 0) == Quit
    requires HoursActive(f.hours) || TermActive(f.term)
    requires Fetch(mailbox(cycle), f.hours, f.term) == Some([])
    ensures RunSpec(mailbox, svc, lines, pos, cycle, f) == SessionResult(UserQuit, [], cycle + 1, f)
  {
  }
}
