/** The line editor of `ConsoleWindow` as a state machine over values: one
    function per method of the source that changes the console, and the key
    table of `handle_key`. The class in module Console is proved to follow
    these functions step by step. */
module Editor {
  import opened RustStr
  import opened Transcript
  import opened History

  datatype Key = ArrowDown | ArrowUp | ArrowLeft | ArrowRight | Enter | Delete | Backspace
               | Escape | Tab | R | OtherKey(code: nat)

  datatype Modifiers = Modifiers(alt: bool, ctrl: bool, shift: bool, macCmd: bool, command: bool)

  const NO_MODIFIERS: Modifiers := Modifiers(false, false, false, false, false)
  /** The exact modifier set the reverse-search arm matches: ctrl, which the
      host also reports as "command" off macOS. */
  const CTRL_COMMAND: Modifiers := Modifiers(false, true, false, false, true)

  /** An input event of one frame: a key with its modifiers and whether it
      went down, or anything else (text, pointer, ...). */
  datatype Event = KeyPress(key: Key, pressed: bool, modifiers: Modifiers) | OtherEvent

  datatype ConsoleEvent = Command(line: string) | NoEvent

  /** The fields of `ConsoleWindow` the editor works on. */
  datatype State = State(
    text: string,
    newLine: bool,
    historySize: nat,
    history: seq<string>,
    cursor: Option<nat>,
    prompt: string,
    promptLen: nat,
    savePrompt: string,
    search: Option<string>)

  /** `history_cursor` always indexes into the history. */
  predicate CursorInRange(s: State) {
    s.cursor.Some? ==> s.cursor.value < |s.history|
  }

  /** The console's invariant: the cursor indexes the history; outside search
      the prompt is the saved one, inside it is the search prompt with the
      query spliced in; `prompt_len` is the length of the saved prompt. */
  predicate Valid(s: State) {
    && CursorInRange(s)
    && (s.search.None? ==> s.prompt == s.savePrompt)
    && (s.search.Some? ==> s.prompt == SearchPrompt(s.search.value))
    && s.promptLen == |s.savePrompt|
  }

  /** `ConsoleWindow::new`. */
  function New(prompt: string): (s: State)
    ensures Valid(s) && s.text == prompt && s.history == [] && s.search.None?
  {
    State(prompt, false, HISTORY_SIZE, [], None, prompt, |prompt|, prompt, None)
  }

  /** `sync_response` (and `async_message`, which does the same): append the
      response and a fresh prompt, and ask for the caret at the end. */
  function Respond(s: State, data: string): (r: State)
    ensures r.text == s.text + "\n" + data + "\n" + s.prompt && r.newLine
    ensures r == s.(text := r.text, newLine := true)
  {
    s.(text := s.text + "\n" + data + "\n" + s.prompt, newLine := true)
  }

  /** `load_history`: replace the history wholesale and stop browsing; the
      capacity is not enforced here. */
  function LoadHistory(s: State, lines: seq<string>): (r: State)
    requires Valid(s)
    ensures Valid(r) && r.history == lines && r.cursor.None?
  {
    s.(history := lines, cursor := None)
  }

  /** `enter_search_mode`. */
  function EnterSearch(s: State): (r: State)
    requires CursorInRange(s) && s.promptLen == |s.savePrompt|
    ensures r.search == Some([]) && r.newLine && r.history == s.history && r.cursor == s.cursor
    ensures r.text == s.text[..LastLineOffset(s.text)] + SEARCH_PROMPT
  {
    s.(prompt := SEARCH_PROMPT, search := Some([]), text := Redraw(s.text, SEARCH_PROMPT), newLine := true)
  }

  /** Entering search keeps the invariant: the bare search prompt is the
      search prompt of the empty query. */
  lemma EnterSearchValid(s: State)
    requires CursorInRange(s) && s.promptLen == |s.savePrompt|
    ensures Valid(EnterSearch(s))
  {
    assert SEARCH_PROMPT[..SEARCH_PROMPT_SLOT_OFF + 1] + SEARCH_PROMPT[SEARCH_PROMPT_SLOT_OFF + 1..] == SEARCH_PROMPT;
  }

  /** `exit_search_mode`: the cursor is left alone here. */
  function ExitSearch(s: State): (r: State)
    requires CursorInRange(s) && s.promptLen == |s.savePrompt|
    ensures Valid(r) && r.search.None? && r.newLine && r.cursor == s.cursor
    ensures r.text == s.text[..LastLineOffset(s.text)] + s.savePrompt
  {
    s.(prompt := s.savePrompt, text := Redraw(s.text, s.savePrompt), search := None, newLine := true)
  }

  /** `if self.search_partial.is_some() { self.exit_search_mode() }` */
  function LeaveSearch(s: State): (r: State)
    requires Valid(s)
    ensures Valid(r) && r.search.None? && r.history == s.history && r.cursor == s.cursor
  {
    if s.search.Some? then ExitSearch(s) else s
  }

  /** Where `history_back` starts scanning: just below the cursor, or from the
      newest entry when not browsing. */
  function BackStart(s: State): (n: nat)
    requires CursorInRange(s)
    ensures n <= |s.history|
  {
    match s.cursor
    case Some(c) => c
    case None => |s.history|
  }

  /** `history_back`: scan back from the cursor for the next candidate; put
      it (or nothing) in place of the editable line. */
  function HistoryBack(s: State): (r: State)
    requires Valid(s)
    ensures Valid(r)
    ensures r.newLine == s.newLine && r.historySize == s.historySize && r.history == s.history
    ensures r.prompt == s.prompt && r.promptLen == s.promptLen && r.savePrompt == s.savePrompt
    ensures r.search == s.search
  {
    s.(cursor := BackCursor(s), text := ClearEditable(s.text, s.prompt) + BackLine(s))
  }

  /** The cursor the scan of `history_back` leaves: on the match, dropped by
      an empty query, unchanged when nothing matches. */
  function BackCursor(s: State): Option<nat>
    requires CursorInRange(s)
  {
    match SearchBack(s.history, BackStart(s), s.search)
    case Found(i) => Some(i)
    case EmptyQuery => None
    case NotFound => s.cursor
  }

  /** The entry the scan of `history_back` picks, or nothing. */
  function BackLine(s: State): string
    requires CursorInRange(s)
  {
    var res := SearchBack(s.history, BackStart(s), s.search);
    if res.Found? then s.history[res.index] else []
  }

  /** `HistoryBack` from the outcome of its scan: the cursor and the line the
      scan picked. */
  lemma HistoryBackOf(s: State, r: State, line: string)
    requires Valid(s)
    requires line == BackLine(s) && r.cursor == BackCursor(s)
    requires r.text == ClearEditable(s.text, s.prompt) + line
    requires r.newLine == s.newLine && r.historySize == s.historySize && r.history == s.history
    requires r.prompt == s.prompt && r.promptLen == s.promptLen && r.savePrompt == s.savePrompt
    requires r.search == s.search
    ensures r == HistoryBack(s)
  {
  }

  /** The two fields `history_back` changes, in terms of its scan. */
  lemma HistoryBackParts(s: State)
    requires Valid(s)
    ensures HistoryBack(s).cursor == BackCursor(s)
    ensures HistoryBack(s).text == ClearEditable(s.text, s.prompt) + BackLine(s)
  {
  }

  /** When the scan finds entry `i`, the cursor moves there and the entry is
      the line shown. */
  lemma FoundBack(s: State, i: nat)
    requires CursorInRange(s) && SearchBack(s.history, BackStart(s), s.search) == Found(i)
    ensures BackCursor(s) == Some(i) && BackLine(s) == s.history[i]
  {
  }

  /** Browsing back outside search steps to the next older entry (or the
      newest one when not browsing yet) and shows it after the prompt. */
  lemma BrowseBack(s: State)
    requires Valid(s) && s.search.None? && BackStart(s) > 0
    ensures var i := BackStart(s) - 1;
            HistoryBack(s).cursor == Some(i)
            && HistoryBack(s).text == ClearEditable(s.text, s.prompt) + s.history[i]
  {
    BrowseNext(s);
    HistoryBackParts(s);
  }

  /** Outside search every entry matches, so the scan stops at the first
      entry below its start. */
  lemma BrowseNext(s: State)
    requires CursorInRange(s) && s.search.None? && BackStart(s) > 0
    ensures BackCursor(s) == Some(BackStart(s) - 1) && BackLine(s) == s.history[BackStart(s) - 1]
  {
    var i := BackStart(s) - 1;
    assert SearchBack(s.history, BackStart(s), s.search) == Found(i) by {
      assert Matches(s.history[i], None);
    }
    FoundBack(s, i);
  }

  /** Reverse search picks the newest entry older than the cursor that
      contains the query, whenever there is one; when there is none the
      cursor stays and the editable line is emptied. */
  lemma SearchBackStep(s: State)
    requires Valid(s) && s.search.Some? && s.search.value != []
    ensures var r := HistoryBack(s);
            var q := s.search.value;
            && ((exists j :: 0 <= j < BackStart(s) && Contains(s.history[j], q)) ==>
                  && r.cursor.Some?
                  && var i := r.cursor.value;
                  && i < BackStart(s) && Contains(s.history[i], q)
                  && (forall j :: i < j < BackStart(s) ==> !Contains(s.history[j], q))
                  && r.text == ClearEditable(s.text, s.prompt) + s.history[i])
            && ((forall j :: 0 <= j < BackStart(s) ==> !Contains(s.history[j], q)) ==>
                  r.cursor == s.cursor && r.text == ClearEditable(s.text, s.prompt))
  {
    var q := s.search.value;
    var res := SearchBack(s.history, BackStart(s), s.search);
    HistoryBackParts(s);
    match res
    case Found(i) =>
      assert Matches(s.history[i], s.search);
      FoundBack(s, i);
    case EmptyQuery =>
    case NotFound =>
      forall j | 0 <= j < BackStart(s)
        ensures !Contains(s.history[j], q)
      {
        assert !Matches(s.history[j], s.search);
      }
  }

  /** ArrowDown once out of search: step to the next newer entry, or clear
      the line and stop browsing after the newest. */
  function HistoryForward(s: State): (r: State)
    requires Valid(s) && s.search.None?
    ensures Valid(r) && r.history == s.history && r.search.None?
  {
    if s.cursor.None? then s
    else s.(text := ClearEditable(s.text, s.prompt) + ForwardLine(s), cursor := ForwardCursor(s))
  }

  /** Where `history_forward` leaves the cursor: off the history past the
      newest entry, otherwise one step newer. */
  function ForwardCursor(s: State): Option<nat>
    requires s.cursor.Some?
  {
    var hc := s.cursor.value;
    if hc == |s.history| - 1 then None
    else if hc < |s.history| - 1 then Some(hc + 1)
    else s.cursor
  }

  /** The entry `history_forward` shows, or nothing past the newest one. */
  function ForwardLine(s: State): string
    requires s.cursor.Some?
  {
    var hc := s.cursor.value;
    if hc < |s.history| - 1 then s.history[hc + 1] else []
  }

  /** `HistoryForward` while browsing, from the line and cursor it picks. */
  lemma HistoryForwardOf(s: State, r: State, line: string)
    requires Valid(s) && s.search.None? && s.cursor.Some?
    requires line == ForwardLine(s) && r.cursor == ForwardCursor(s)
    requires r.text == ClearEditable(s.text, s.prompt) + line
    requires r.newLine == s.newLine && r.historySize == s.historySize && r.history == s.history
    requires r.prompt == s.prompt && r.promptLen == s.promptLen && r.savePrompt == s.savePrompt
    requires r.search == s.search
    ensures r == HistoryForward(s)
  {
  }

  datatype Handled = Handled(state: State, consume: bool, command: Option<string>)

  /** The Enter arm: capture the editable line before leaving search, push
      it, stop browsing, ask for the caret at the end, hand the line out. */
  function Submit(s: State): (r: Handled)
    requires Valid(s)
    ensures Valid(r.state) && r.consume && r.state.search.None?
    ensures r.command == Some(GetLastLine(s.text, s.prompt))
    ensures r.state.history == Push(s.history, s.historySize, r.command.value)
    ensures r.state.cursor.None? && r.state.newLine
  {
    var last := GetLastLine(s.text, s.prompt);
    var s1 := LeaveSearch(s);
    var s2 := s1.(history := Push(s1.history, s1.historySize, last), newLine := true, cursor := None);
    Handled(s2, true, Some(last))
  }

  predicate IsLeftOrBackspace(key: Key) { key == ArrowLeft || key == Backspace }
  predicate IsRightOrDelete(key: Key) { key == ArrowRight || key == Delete }

  /** `handle_key`: the effect of one key press, given the caret the host
      reports, and whether the key is consumed. */
  function KeyStep(s: State, key: Key, mods: Modifiers, caret: nat): (r: Handled)
    requires Valid(s)
    ensures Valid(r.state)
    ensures r.command.Some? <==> key == Enter && mods == NO_MODIFIERS
    ensures key == Enter && mods == NO_MODIFIERS ==>
              && r.command == Some(GetLastLine(s.text, s.prompt))
              && r.state.history == Push(s.history, s.historySize, r.command.value)
              && r.state.cursor.None? && r.state.newLine && r.state.search.None?
    ensures !(key == Enter && mods == NO_MODIFIERS) ==> r.state.history == s.history
  {
    var off := LastLineOffset(s.text);
    if mods == NO_MODIFIERS && key == ArrowDown then
      Handled(HistoryForward(LeaveSearch(s)), true, None)
    else if mods == NO_MODIFIERS && key == ArrowUp then
      if s.history == [] then Handled(s, true, None)
      else Handled(HistoryBack(LeaveSearch(s)), true, None)
    else if mods == NO_MODIFIERS && key == Enter then
      Submit(s)
    else if mods == NO_MODIFIERS && IsRightOrDelete(key) then
      var block := match s.search
                   case Some(q) => caret > off + |SEARCH_PROMPT| - 2 + |q|
                   case None => false;
      Handled(s, block, None)
    else if mods == NO_MODIFIERS && IsLeftOrBackspace(key) then
      var block := match s.search
                   case Some(_) => caret < off + SEARCH_PROMPT_SLOT_OFF + 2
                   case None => caret < off + |s.prompt| + 1;
      Handled(s, block, None)
    else if mods == NO_MODIFIERS && key == Escape then
      Handled(LeaveSearch(s).(cursor := None), true, None)
    else if mods == CTRL_COMMAND && key == R then
      if s.search.None? then
        EnterSearchValid(s);
        Handled(EnterSearch(s), true, None)
      else Handled(HistoryBack(s), true, None)
    else
      Handled(s, false, None)
  }

  /** Left and Backspace are swallowed exactly when the caret would move into
      the prompt: below the end of the prompt in normal mode, below the
      query slot in search mode. Nothing else changes. */
  lemma LeftBackspaceBlocking(s: State, key: Key, caret: nat)
    requires Valid(s) && IsLeftOrBackspace(key)
    ensures var r := KeyStep(s, key, NO_MODIFIERS, caret);
            && r.state == s && r.command.None?
            && (r.consume <==> caret < LastLineOffset(s.text)
                                       + if s.search.Some? then SEARCH_PROMPT_SLOT_OFF + 2 else |s.prompt| + 1)
  {
    assert key != ArrowDown && key != ArrowUp && key != Enter && !IsRightOrDelete(key);
  }

  /** Right and Delete are swallowed only in search mode, when the caret is
      past the end of the query; in normal mode they always pass through. */
  lemma RightDeleteBlocking(s: State, key: Key, caret: nat)
    requires Valid(s) && IsRightOrDelete(key)
    ensures var r := KeyStep(s, key, NO_MODIFIERS, caret);
            && r.state == s && r.command.None?
            && (r.consume <==> s.search.Some?
                               && caret > LastLineOffset(s.text) + SEARCH_PROMPT_SLOT_OFF + |s.search.value|)
  {
  }

  /** ArrowUp on an empty history is swallowed and changes nothing, not even
      the search mode. */
  lemma ArrowUpOnEmptyHistory(s: State, caret: nat)
    requires Valid(s) && s.history == []
    ensures KeyStep(s, ArrowUp, NO_MODIFIERS, caret) == Handled(s, true, None)
  {
  }

  /** ArrowUp on a non-empty history leaves search and browses back (see
      `BrowseBack` and `BackAtOldestClears`). */
  lemma ArrowUpBrowsesBack(s: State, caret: nat)
    requires Valid(s) && s.history != []
    ensures KeyStep(s, ArrowUp, NO_MODIFIERS, caret) == Handled(HistoryBack(LeaveSearch(s)), true, None)
  {
  }

  /** Browsing back from the oldest entry finds nothing: the cursor stays on
      it and the editable line is emptied. */
  lemma BackAtOldestClears(s: State)
    requires Valid(s) && s.search.None? && s.cursor == Some(0)
    ensures HistoryBack(s).cursor == Some(0)
    ensures HistoryBack(s).text == ClearEditable(s.text, s.prompt)
  {
  }

  /** Searching with an empty query drops the cursor and empties the
      editable line. */
  lemma EmptyQueryStopsBrowsing(s: State)
    requires Valid(s) && s.search == Some([]) && BackStart(s) > 0
    ensures HistoryBack(s).cursor.None?
    ensures HistoryBack(s).text == ClearEditable(s.text, s.prompt)
  {
  }

  /** From a fresh line over a history of three entries, three ArrowUp
      presses show the oldest entry without touching the history. */
  lemma ThreeUpsReachOldest(s: State, caret: nat)
    requires Valid(s) && s.search.None? && s.cursor.None? && |s.history| == 3
    ensures var s1 := KeyStep(s, ArrowUp, NO_MODIFIERS, caret).state;
            var s2 := KeyStep(s1, ArrowUp, NO_MODIFIERS, caret).state;
            var s3 := KeyStep(s2, ArrowUp, NO_MODIFIERS, caret).state;
            && s3.cursor == Some(0) && s3.history == s.history
            && s3.text == ClearEditable(s2.text, s.prompt) + s.history[0]
  {
    ArrowUpBrowsesBack(s, caret);
    BrowseBack(s);
    var s1 := KeyStep(s, ArrowUp, NO_MODIFIERS, caret).state;
    ArrowUpBrowsesBack(s1, caret);
    BrowseBack(s1);
    var s2 := KeyStep(s1, ArrowUp, NO_MODIFIERS, caret).state;
    ArrowUpBrowsesBack(s2, caret);
    BrowseBack(s2);
  }

  /** ArrowDown leaves search, then browses forward. */
  lemma ArrowDownBrowsesForward(s: State, caret: nat)
    requires Valid(s)
    ensures KeyStep(s, ArrowDown, NO_MODIFIERS, caret) == Handled(HistoryForward(LeaveSearch(s)), true, None)
  {
  }

  /** Browsing forward: when not browsing, nothing changes; at the newest
      entry, the line is cleared and browsing stops; otherwise the next newer
      entry is shown. */
  lemma ForwardSteps(s: State)
    requires Valid(s) && s.search.None?
    ensures var r := HistoryForward(s);
            var h := s.history;
            && (s.cursor.None? ==> r == s)
            && (s.cursor == Some(|h| - 1) ==>
                  r.cursor.None? && r.text == ClearEditable(s.text, s.prompt))
            && (s.cursor.Some? && s.cursor.value < |h| - 1 ==>
                  r.cursor == Some(s.cursor.value + 1)
                  && r.text == ClearEditable(s.text, s.prompt) + h[s.cursor.value + 1])
  {
    if s.cursor.Some? {
      if s.cursor.value == |s.history| - 1 {
        ForwardAtNewest(s);
      } else {
        ForwardToNewer(s);
      }
    }
  }

  lemma ForwardAtNewest(s: State)
    requires Valid(s) && s.search.None? && s.cursor == Some(|s.history| - 1)
    ensures HistoryForward(s).cursor.None?
    ensures HistoryForward(s).text == ClearEditable(s.text, s.prompt)
  {
  }

  lemma ForwardToNewer(s: State)
    requires Valid(s) && s.search.None? && s.cursor.Some? && s.cursor.value < |s.history| - 1
    ensures HistoryForward(s).cursor == Some(s.cursor.value + 1)
    ensures HistoryForward(s).text == ClearEditable(s.text, s.prompt) + s.history[s.cursor.value + 1]
  {
    ForwardPickNewer(s);
    HistoryForwardParts(s);
  }

  /** The two fields `history_forward` changes while browsing, in terms of
      its pick. */
  lemma HistoryForwardParts(s: State)
    requires Valid(s) && s.search.None? && s.cursor.Some?
    ensures HistoryForward(s).cursor == ForwardCursor(s)
    ensures HistoryForward(s).text == ClearEditable(s.text, s.prompt) + ForwardLine(s)
  {
  }

  /** Below the newest entry, the forward pick is the next newer entry. */
  lemma ForwardPickNewer(s: State)
    requires s.cursor.Some? && s.cursor.value < |s.history| - 1
    ensures ForwardCursor(s) == Some(s.cursor.value + 1) && ForwardLine(s) == s.history[s.cursor.value + 1]
  {
  }

  /** Escape leaves search and stops browsing. */
  lemma EscapeStopsBrowsing(s: State, caret: nat)
    requires Valid(s)
    ensures var r := KeyStep(s, Escape, NO_MODIFIERS, caret);
            r == Handled(LeaveSearch(s).(cursor := None), true, None)
  {
  }

  /** Ctrl+R enters search with an empty query, or, while searching, looks
      for the next older match. */
  lemma CtrlRSearches(s: State, caret: nat)
    requires Valid(s)
    ensures var r := KeyStep(s, R, CTRL_COMMAND, caret);
            && r.consume && r.command.None?
            && (s.search.None? ==> r.state == EnterSearch(s))
            && (s.search.Some? ==> r.state == HistoryBack(s))
  {
  }

  /** Any other key (including Tab, and the listed keys with other modifiers)
      passes through to the text widget untouched. */
  lemma OtherKeysPassThrough(s: State, key: Key, mods: Modifiers, caret: nat)
    requires Valid(s)
    requires !(key in {ArrowDown, ArrowUp, Enter, Delete, ArrowRight, ArrowLeft, Backspace, Escape}
               && mods == NO_MODIFIERS)
    requires !(key == R && mods == CTRL_COMMAND)
    ensures KeyStep(s, key, mods, caret) == Handled(s, false, None)
  {
    assert mods == NO_MODIFIERS ==>
             key != ArrowDown && key != ArrowUp && key != Enter && key != Escape
             && !IsRightOrDelete(key) && !IsLeftOrBackspace(key);
  }

  /** Ctrl+R then Escape outside search leaves the saved prompt alone on the
      last line: whatever had been typed after the prompt is discarded, and
      with a non-empty single-line prompt the editable line is empty. */
  lemma SearchThenEscapeDropsLine(s: State, caret1: nat, caret2: nat)
    requires Valid(s) && s.search.None?
    ensures var s1 := KeyStep(s, R, CTRL_COMMAND, caret1).state;
            var s2 := KeyStep(s1, Escape, NO_MODIFIERS, caret2).state;
            && s2 == s.(text := s.text[..LastLineOffset(s.text)] + s.prompt, newLine := true, cursor := None)
            && (s.prompt != [] && NoNewline(s.prompt) ==> GetLastLine(s2.text, s.prompt) == [])
  {
    CtrlRSearches(s, caret1);
    var s1 := EnterSearch(s);
    EscapeStopsBrowsing(s1, caret2);
    SearchRoundTripDropsLine(s.text, s.prompt);
    if s.prompt != [] && NoNewline(s.prompt) {
      RedrawnLineIsEmpty(s.text, s.prompt);
    }
  }

  /** Ctrl+R then Escape on an empty editable line gives back the text and
      the prompt exactly; only the caret request and the cursor change. */
  lemma SearchThenEscapeRestores(s: State, caret1: nat, caret2: nat)
    requires Valid(s) && s.search.None?
    requires s.text[LastLineOffset(s.text)..] == s.prompt
    ensures var s1 := KeyStep(s, R, CTRL_COMMAND, caret1).state;
            var s2 := KeyStep(s1, Escape, NO_MODIFIERS, caret2).state;
            s2 == s.(newLine := true, cursor := None)
  {
    CtrlRSearches(s, caret1);
    var s1 := EnterSearch(s);
    EscapeStopsBrowsing(s1, caret2);
    var s2 := ExitSearch(s1);
    SearchRoundTripText(s.text, s.prompt);
    assert s2.text == s.text;
  }

  /** A submitted key press: Enter with no modifiers, going down. */
  predicate IsSubmit(e: Event) {
    e.KeyPress? && e.pressed && e.key == Enter && e.modifiers == NO_MODIFIERS
  }

  datatype KbResult = KbResult(state: State, kills: seq<(Modifiers, Key)>, command: Option<string>)

  /** `handle_kb`: key presses in order through `handle_key`, collecting the
      keys to consume, and stopping at the first one that yields a command. */
  function KbSpec(s: State, events: seq<Event>, caret: nat): (r: KbResult)
    requires Valid(s)
    ensures Valid(r.state)
    decreases |events|
  {
    if events == [] then KbResult(s, [], None)
    else match events[0]
      case OtherEvent => KbSpec(s, events[1..], caret)
      case KeyPress(key, pressed, mods) =>
        if !pressed then KbSpec(s, events[1..], caret)
        else
          var h := KeyStep(s, key, mods, caret);
          var kill := if h.consume then [(mods, key)] else [];
          if h.command.Some? then KbResult(h.state, kill, h.command)
          else
            var rest := KbSpec(h.state, events[1..], caret);
            KbResult(rest.state, kill + rest.kills, rest.command)
  }

  /** Two states agree when each of their fields does. */
  lemma StateEq(a: State, b: State)
    requires a.text == b.text && a.newLine == b.newLine && a.historySize == b.historySize
    requires a.history == b.history && a.cursor == b.cursor && a.prompt == b.prompt
    requires a.promptLen == b.promptLen && a.savePrompt == b.savePrompt && a.search == b.search
    ensures a == b
  {
  }

  /** What `EnterSearch` changes, field by field. */
  lemma EnterSearchOf(s: State, r: State)
    requires CursorInRange(s) && s.promptLen == |s.savePrompt|
    requires r.prompt == SEARCH_PROMPT && r.search == Some([]) && r.newLine
    requires r.text == Redraw(s.text, r.prompt)
    requires r.historySize == s.historySize && r.history == s.history && r.cursor == s.cursor
    requires r.promptLen == s.promptLen && r.savePrompt == s.savePrompt
    ensures r == EnterSearch(s)
  {
  }

  /** What `ExitSearch` changes, field by field. */
  lemma ExitSearchOf(s: State, r: State)
    requires CursorInRange(s) && s.promptLen == |s.savePrompt|
    requires r.prompt == s.savePrompt && r.search.None? && r.newLine
    requires r.text == Redraw(s.text, s.savePrompt)
    requires r.historySize == s.historySize && r.history == s.history && r.cursor == s.cursor
    requires r.promptLen == s.promptLen && r.savePrompt == s.savePrompt
    ensures r == ExitSearch(s)
  {
  }

  /** `Submit` seen from the state after leaving search mode. */
  lemma SubmitAfterLeave(s: State, s1: State)
    requires Valid(s) && s1 == LeaveSearch(s)
    ensures Submit(s) == Handled(s1.(history := Push(s1.history, s1.historySize, GetLastLine(s.text, s.prompt)),
                                     newLine := true, cursor := None),
                                 true, Some(GetLastLine(s.text, s.prompt)))
  {
  }

  /** One step of `KbSpec`, for the loop of `handle_kb`. */
  lemma KbSpecUnfold(s: State, events: seq<Event>, caret: nat)
    requires Valid(s) && events != []
    ensures var e := events[0];
            KbSpec(s, events, caret) ==
              if e.KeyPress? && e.pressed then
                var h := KeyStep(s, e.key, e.modifiers, caret);
                var kill := if h.consume then [(e.modifiers, e.key)] else [];
                if h.command.Some? then KbResult(h.state, kill, h.command)
                else
                  var rest := KbSpec(h.state, events[1..], caret);
                  KbResult(rest.state, kill + rest.kills, rest.command)
              else KbSpec(s, events[1..], caret)
  {
  }

  /** A frame yields a command exactly when it holds a submit. */
  lemma {:induction false} KbCommandIffSubmit(s: State, events: seq<Event>, caret: nat)
    requires Valid(s)
    ensures KbSpec(s, events, caret).command.Some? <==> exists k :: 0 <= k < |events| && IsSubmit(events[k])
    decreases |events|
  {
    if events != [] {
      var e := events[0];
      if IsSubmit(e) {
        assert IsSubmit(events[0]);
      } else {
        var next := if e.KeyPress? && e.pressed then KeyStep(s, e.key, e.modifiers, caret).state else s;
        assert KbSpec(s, events, caret).command == KbSpec(next, events[1..], caret).command;
        KbCommandIffSubmit(next, events[1..], caret);
        if k :| 0 <= k < |events| && IsSubmit(events[k]) {
          assert IsSubmit(events[1..][k - 1]);
        }
        if k :| 0 <= k < |events[1..]| && IsSubmit(events[1..][k]) {
          assert IsSubmit(events[k + 1]);
        }
      }
    }
  }

  /** When a frame yields a command, it is the newest history entry and
      browsing has stopped. */
  lemma {:induction false} KbCommandIsNewestEntry(s: State, events: seq<Event>, caret: nat)
    requires Valid(s)
    ensures var r := KbSpec(s, events, caret);
            r.command.Some? ==>
              |r.state.history| > 0 && r.state.history[|r.state.history| - 1] == r.command.value
              && r.state.cursor.None? && r.state.newLine
    decreases |events|
  {
    if events != [] {
      KbSpecUnfold(s, events, caret);
      var e := events[0];
      if e.KeyPress? && e.pressed {
        var h := KeyStep(s, e.key, e.modifiers, caret);
        if h.command.None? {
          KbCommandIsNewestEntry(h.state, events[1..], caret);
        } else {
          var hist := h.state.history;
          assert hist == Push(s.history, s.historySize, h.command.value);
          assert |hist| > 0 && hist[|hist| - 1] == h.command.value;
        }
      } else {
        KbCommandIsNewestEntry(s, events[1..], caret);
      }
    }
  }

  /** Events after the first submit in a frame are never looked at. */
  lemma {:induction false} KbIgnoresEventsAfterSubmit(s: State, events: seq<Event>, more: seq<Event>, caret: nat)
    requires Valid(s)
    requires exists k :: 0 <= k < |events| && IsSubmit(events[k])
    ensures KbSpec(s, events + more, caret) == KbSpec(s, events, caret)
    decreases |events|
  {
    assert (events + more)[1..] == events[1..] + more;
    assert (events + more)[0] == events[0];
    if !IsSubmit(events[0]) {
      var k :| 0 <= k < |events| && IsSubmit(events[k]);
      assert IsSubmit(events[1..][k - 1]);
      match events[0]
      case OtherEvent =>
        KbIgnoresEventsAfterSubmit(s, events[1..], more, caret);
      case KeyPress(key, pressed, mods) =>
        var h := KeyStep(s, key, mods, caret);
        if !pressed {
          KbIgnoresEventsAfterSubmit(s, events[1..], more, caret);
        } else if h.command.None? {
          KbIgnoresEventsAfterSubmit(h.state, events[1..], more, caret);
        }
    }
  }

  /** The search-update block of `draw`, run when the text changed length
      while searching: re-read the query from the slot, rebuild the prompt
      around it, restart from the newest entry when it is empty, and search
      back again. */
  function RefreshSearch(s: State): (r: State)
    requires Valid(s) && s.search.Some?
    ensures Valid(r)
    ensures r.search == Some(GetSearchText(s.text)) && r.prompt == SearchPrompt(GetSearchText(s.text))
    ensures r.history == s.history
    ensures GetSearchText(s.text) == [] ==> r.cursor.None?
  {
    var q := GetSearchText(s.text);
    var s1 := s.(search := Some(q), prompt := SearchPrompt(q));
    var s2 := if q == [] then s1.(cursor := None) else s1;
    HistoryBack(s2)
  }

  /** After typing a non-empty query, the search re-run picks the newest
      entry below the cursor that contains the new query and shows it after
      the new prompt; when no such entry exists, the cursor stays and the
      editable line is emptied. */
  lemma RefreshSearchFinds(s: State)
    requires Valid(s) && s.search.Some? && GetSearchText(s.text) != []
    ensures var q := GetSearchText(s.text);
            var r := RefreshSearch(s);
            var cleared := ClearEditable(s.text, SearchPrompt(q));
            && ((exists j :: 0 <= j < BackStart(s) && Contains(s.history[j], q)) ==>
                  && r.cursor.Some?
                  && var i := r.cursor.value;
                  && i < BackStart(s) && Contains(s.history[i], q)
                  && (forall j :: i < j < BackStart(s) ==> !Contains(s.history[j], q))
                  && r.text == cleared + s.history[i])
            && ((forall j :: 0 <= j < BackStart(s) ==> !Contains(s.history[j], q)) ==>
                  r.cursor == s.cursor && r.text == cleared)
  {
    var q := GetSearchText(s.text);
    var s1 := s.(search := Some(q), prompt := SearchPrompt(q));
    assert RefreshSearch(s) == HistoryBack(s1);
    assert BackStart(s1) == BackStart(s);
    SearchBackStep(s1);
  }

  datatype Frame = Frame(state: State, event: ConsoleEvent, kills: seq<(Modifiers, Key)>, caret: Option<nat>)

  /** One call of `draw`: keyboard handling when focused, then the text widget
      (whose edit of the text arrives as `edited`), the caret correction, and
      the search update when the text changed length. */
  function DrawSpec(s: State, hasFocus: bool, events: seq<Event>, kbCaret: nat,
                    edited: string, caret: Option<nat>): (r: Frame)
    requires Valid(s)
    ensures Valid(r.state)
    ensures !hasFocus ==> r.event == NoEvent && r.kills == [] && r.state.history == s.history
    ensures hasFocus ==>
              var kb := KbSpec(s, events, kbCaret);
              && r.kills == kb.kills && r.state.history == kb.state.history
              && (r.event.Command? <==> kb.command.Some?)
              && (r.event.Command? ==> r.event.line == kb.command.value)
  {
    var kb := if hasFocus then KbSpec(s, events, kbCaret) else KbResult(s, [], None);
    var before := |kb.state.text|;
    var s1 := kb.state.(text := edited);
    var fix := CaretCorrection(s1.text, s1.promptLen, s1.search, s1.newLine, caret);
    var s2 := s1.(newLine := fix.newLine);
    var s3 := if |s2.text| != before && s2.search.Some? then RefreshSearch(s2) else s2;
    var event := match kb.command
                 case Some(line) => Command(line)
                 case None => NoEvent;
    Frame(s3, event, kb.kills, fix.cursor)
  }

  /** A focused frame returns a command exactly when one of its events is an
      Enter press, and the command is then the newest history entry. */
  lemma DrawSubmits(s: State, events: seq<Event>, kbCaret: nat, edited: string, caret: Option<nat>)
    requires Valid(s)
    ensures var r := DrawSpec(s, true, events, kbCaret, edited, caret);
            && (r.event.Command? <==> exists k :: 0 <= k < |events| && IsSubmit(events[k]))
            && (r.event.Command? ==>
                  |r.state.history| > 0 && r.state.history[|r.state.history| - 1] == r.event.line)
  {
    var r := DrawSpec(s, true, events, kbCaret, edited, caret);
    var kb := KbSpec(s, events, kbCaret);
    assert r.state.history == kb.state.history && (r.event.Command? <==> kb.command.Some?);
    KbCommandIffSubmit(s, events, kbCaret);
    KbCommandIsNewestEntry(s, events, kbCaret);
  }
}
