/** `ConsoleWindow` itself: the fields the source updates in place, and one
    method per operation, each proved to take the console from its old
    state to the one the matching function of module Editor (or Tab)
    describes. */
module Console {
  import opened RustStr
  import opened Transcript
  import opened History
  import Editor
  import Tab

  class ConsoleWindow {
    var text: string
    /** `new_line`, which also plays the part of `force_cursor_to_end`. */
    var newLine: bool
    const historySize: nat
    var commandHistory: seq<string>
    var historyCursor: Option<nat>
    var prompt: string
    var promptLen: nat
    var savePrompt: string
    var searchPartial: Option<string>
    var tabString: string
    var tabNth: nat
    var tabOffset: nat
    var tabQuoted: bool

    /** The editor fields as a value. */
    function View(): Editor.State
      reads this`text, this`newLine, this`commandHistory, this`historyCursor, this`prompt, this`promptLen,
            this`savePrompt, this`searchPartial
    {
      Editor.State(text, newLine, historySize, commandHistory, historyCursor, prompt, promptLen,
                   savePrompt, searchPartial)
    }

    /** The completion fields as a value. */
    function TabView(): Tab.TabState
      reads this`tabString, this`tabNth, this`tabOffset, this`tabQuoted
    {
      Tab.TabState(tabString, tabNth, tabOffset, tabQuoted)
    }

    predicate Valid()
      reads this`text, this`newLine, this`commandHistory, this`historyCursor, this`prompt, this`promptLen,
            this`savePrompt, this`searchPartial
    {
      Editor.Valid(View())
    }

    /** `ConsoleWindow::new`. */
    constructor (p: string)
      ensures View() == Editor.New(p) && Valid()
      ensures TabView() == Tab.TabState([], 0, 0, false)
    {
      text := p;
      newLine := false;
      commandHistory := [];
      historyCursor := None;
      historySize := HISTORY_SIZE;
      prompt := p;
      promptLen := |p|;
      savePrompt := p;
      searchPartial := None;
      tabString := [];
      tabNth := 0;
      tabOffset := 0;
      tabQuoted := false;
    }

    /** `sync_response`. */
    method SyncResponse(data: string)
      modifies this
      ensures View() == Editor.Respond(old(View()), data)
      ensures TabView() == old(TabView())
    {
      text := text + "\n" + data + "\n" + prompt;
      newLine := true;
    }

    /** `async_message`: the same effect as `sync_response`. */
    method AsyncMessage(data: string)
      modifies this
      ensures View() == Editor.Respond(old(View()), data)
      ensures TabView() == old(TabView())
    {
      text := text + "\n" + data + "\n" + prompt;
      newLine := true;
    }

    /** `load_history`: the history becomes the lines of `saved`. */
    method LoadHistory(saved: string)
      requires Valid()
      modifies this
      ensures View() == Editor.LoadHistory(old(View()), Lines(saved)) && Valid()
      ensures TabView() == old(TabView())
    {
      commandHistory := Lines(saved);
      historyCursor := None;
    }

    /** `get_history`. */
    method GetHistory() returns (h: seq<string>)
      ensures h == commandHistory
    {
      h := commandHistory;
    }

    /** `draw_prompt`. */
    method DrawPrompt()
      modifies this`text
      ensures text == DrawPromptOn(old(text), prompt)
    {
      if |text| > 0 && text[|text| - 1] != '\n' {
        text := text + "\n";
      }
      text := text + prompt;
    }

    /** The shared tail of `enter_search_mode` and `exit_search_mode`: cut the
      text back to the start of its last line and draw the current prompt. */
    method RedrawPrompt()
      modifies this`text
      ensures text == Redraw(old(text), prompt)
    {
      var lastOff := LastLineOffset(text);
      text := Truncate(text, lastOff);
      DrawPrompt();
    }

    /** `enter_search_mode`: the search prompt with an empty query replaces the
      last line; `Editor.EnterSearchOf` turns this into `Editor.EnterSearch`. */
    method EnterSearchMode()
      modifies this`prompt, this`searchPartial, this`text, this`newLine
      ensures prompt == SEARCH_PROMPT && searchPartial == Some([]) && newLine
      ensures text == Redraw(old(text), prompt)
    {
      prompt := SEARCH_PROMPT;
      searchPartial := Some([]);
      RedrawPrompt();
      newLine := true;
    }

    /** `exit_search_mode`: the saved prompt replaces the last line;
      `Editor.ExitSearchOf` turns this into `Editor.ExitSearch`. */
    method ExitSearchMode()
      modifies this`prompt, this`searchPartial, this`text, this`newLine
      ensures prompt == savePrompt && searchPartial.None? && newLine
      ensures text == Redraw(old(text), savePrompt)
    {
      prompt := savePrompt;
      RedrawPrompt();
      searchPartial := None;
      newLine := true;
    }

    /** `if self.search_partial.is_some() { self.exit_search_mode() }`, the
      opening step of several arms of `handle_key`. */
    method LeaveSearchMode()
      requires Valid()
      modifies this`prompt, this`searchPartial, this`text, this`newLine
      ensures View() == Editor.LeaveSearch(old(View()))
    {
      if searchPartial.Some? {
        ghost var s0 := View();
        ExitSearchMode();
        Editor.ExitSearchOf(s0, View());
      }
    }

    /** The rest of the Enter arm: the line goes into the history (the oldest
      entry dropped when it is full), browsing stops and the caret is sent
      to the end. */
    method PushCommand(line: string)
      modifies this`commandHistory, this`newLine, this`historyCursor
      ensures View() == old(View()).(history := Push(old(commandHistory), historySize, line),
                                     newLine := true, cursor := None)
    {
      ghost var want := View().(history := Push(commandHistory, historySize, line), newLine := true, cursor := None);
      if |commandHistory| >= historySize && commandHistory != [] {
        commandHistory := commandHistory[1..];
      }
      commandHistory := commandHistory + [line];
      newLine := true;
      historyCursor := None;
      Editor.StateEq(View(), want);
    }

    /** `history_back`: the reverse scan from the cursor, then the editable
      line replaced by what it found. */
    method HistoryBack()
      requires Valid()
      modifies this`text, this`historyCursor
      ensures View() == Editor.HistoryBack(old(View()))
    {
      ghost var s0 := View();
      var histLine, cursor := ScanBack();
      ReplaceLine(s0, histLine);
      historyCursor := cursor;
      Editor.HistoryBackOf(s0, View(), histLine);
    }

    /** The loop of `history_back`: walk down from the cursor (or from the end
      of the history) to the first entry the query matches, moving the cursor
      there; an empty query drops the cursor, no match leaves it. */
    method ScanBack() returns (histLine: string, cursor: Option<nat>)
      requires Valid()
      ensures histLine == Editor.BackLine(View())
      ensures cursor == Editor.BackCursor(View())
    {
      var hc := match historyCursor
                case Some(c) => c
                case None => |commandHistory|;
      ghost var res := SearchBack(commandHistory, hc, searchPartial);
      histLine := [];
      cursor := historyCursor;
      var i: nat := hc;
      while i > 0
        invariant i <= hc && histLine == [] && cursor == historyCursor
        invariant res == SearchBack(commandHistory, i, searchPartial)
      {
        i := i - 1;
        match searchPartial
        case Some(search) =>
          if search == [] {
            cursor := None;
            break;
          }
          if Contains(commandHistory[i], search) {
            histLine := commandHistory[i];
            cursor := Some(i);
            break;
          }
        case None =>
          histLine := commandHistory[i];
          cursor := Some(i);
          break;
      }
    }

    /** The tail of `history_back`: the editable line cleared, then the found
      entry (if any) appended. */
    method ReplaceLine(ghost s: Editor.State, histLine: string)
      requires s.text == text && s.prompt == prompt
      modifies this`text
      ensures text == ClearEditable(s.text, s.prompt) + histLine
    {
      ClearLine();
      if histLine != [] {
        text := text + histLine;
      } else {
        assert text + histLine == text;
      }
    }

    /** `handle_key`: returns whether to consume the key and the command
      Enter submits. Each arm that changes the console is a method below. */
    method HandleKey(key: Editor.Key, modifiers: Editor.Modifiers, cursor: nat)
      returns (consume: bool, command: Option<string>)
      requires Valid()
      modifies this`text, this`newLine, this`commandHistory, this`historyCursor, this`prompt, this`searchPartial
      ensures Editor.Handled(View(), consume, command) == Editor.KeyStep(old(View()), key, modifiers, cursor)
    {
      var lastOff := LastLineOffset(text);
      if modifiers == Editor.NO_MODIFIERS && key == Editor.ArrowDown {
        ArrowDownArm();
        return true, None;
      } else if modifiers == Editor.NO_MODIFIERS && key == Editor.ArrowUp {
        ArrowUpArm();
        return true, None;
      } else if modifiers == Editor.NO_MODIFIERS && key == Editor.Enter {
        var line := EnterArm();
        return true, Some(line);
      } else if modifiers == Editor.NO_MODIFIERS && (key == Editor.Delete || key == Editor.ArrowRight) {
        if searchPartial.Some? && cursor > lastOff + |SEARCH_PROMPT| - 2 + |searchPartial.value| {
          return true, None;
        }
        return false, None;
      } else if modifiers == Editor.NO_MODIFIERS && (key == Editor.ArrowLeft || key == Editor.Backspace) {
        match searchPartial
        case Some(_) =>
          if cursor < lastOff + SEARCH_PROMPT_SLOT_OFF + 2 {
            return true, None;
          }
        case None =>
          if cursor < lastOff + |prompt| + 1 {
            return true, None;
          }
        return false, None;
      } else if modifiers == Editor.NO_MODIFIERS && key == Editor.Escape {
        EscapeArm();
        return true, None;
      } else if modifiers == Editor.CTRL_COMMAND && key == Editor.R {
        CtrlRArm();
        return true, None;
      }
      return false, None;
    }

    /** The ArrowDown arm of `handle_key`. */
    method ArrowDownArm()
      requires Valid()
      modifies this`text, this`newLine, this`historyCursor, this`prompt, this`searchPartial
      ensures View() == Editor.HistoryForward(Editor.LeaveSearch(old(View())))
    {
      ghost var s0 := View();
      LeaveSearchMode();
      HistoryForward();
    }

    /** The rest of the ArrowDown arm once out of search: the editable line
      replaced by the next newer entry, or cleared after the newest. */
    method HistoryForward()
      requires Valid() && searchPartial.None?
      modifies this`text, this`historyCursor
      ensures View() == Editor.HistoryForward(old(View()))
    {
      if historyCursor.None? {
        return;
      }
      ghost var s0 := View();
      var line, cursor := ForwardPick();
      ReplaceLine(s0, line);
      historyCursor := cursor;
      Editor.HistoryForwardOf(s0, View(), line);
    }

    /** The choice `history_forward` makes from the cursor: past the newest
      entry browsing stops, otherwise the next newer entry is taken. */
    method ForwardPick() returns (line: string, cursor: Option<nat>)
      requires Valid() && historyCursor.Some?
      ensures line == Editor.ForwardLine(View()) && cursor == Editor.ForwardCursor(View())
    {
      var hc := historyCursor.value;
      line := [];
      if hc == |commandHistory| - 1 {
        cursor := None;
      } else {
        if hc < |commandHistory| - 1 {
          hc := hc + 1;
          line := commandHistory[hc];
        }
        cursor := Some(hc);
      }
    }

    /** `self.text = self.text.strip_suffix(self.get_last_line()).unwrap_or("")`. */
    method ClearLine()
      modifies this`text
      ensures text == ClearEditable(old(text), prompt)
    {
      var last := GetLastLine(text, prompt);
      text := UnwrapOr(StripSuffix(text, last), []);
    }

    /** The ArrowUp arm of `handle_key`. */
    method ArrowUpArm()
      requires Valid()
      modifies this`text, this`newLine, this`historyCursor, this`prompt, this`searchPartial
      ensures View() == if old(commandHistory) == [] then old(View())
                        else Editor.HistoryBack(Editor.LeaveSearch(old(View())))
    {
      if commandHistory == [] {
        return;
      }
      ghost var s0 := View();
      LeaveSearchMode();
      HistoryBack();
    }

    /** The Enter arm of `handle_key`: returns the submitted line. */
    method EnterArm() returns (line: string)
      requires Valid()
      modifies this`text, this`newLine, this`commandHistory, this`historyCursor, this`prompt, this`searchPartial
      ensures Editor.Handled(View(), true, Some(line)) == Editor.Submit(old(View()))
    {
      ghost var s0 := View();
      var last := GetLastLine(text, prompt);
      LeaveSearchMode();
      ghost var s1 := View();
      Editor.SubmitAfterLeave(s0, s1);
      PushCommand(last);
      return last;
    }

    /** The Escape arm of `handle_key`. */
    method EscapeArm()
      requires Valid()
      modifies this`text, this`newLine, this`historyCursor, this`prompt, this`searchPartial
      ensures View() == Editor.LeaveSearch(old(View())).(cursor := None)
    {
      ghost var s0 := View();
      LeaveSearchMode();
      historyCursor := None;
    }

    /** The Ctrl+R arm of `handle_key`. */
    method CtrlRArm()
      requires Valid()
      modifies this`text, this`newLine, this`historyCursor, this`prompt, this`searchPartial
      ensures View() == if old(searchPartial).None? then Editor.EnterSearch(old(View()))
                        else Editor.HistoryBack(old(View()))
    {
      if searchPartial.None? {
        StartSearch();
      } else {
        HistoryBack();
      }
    }

    /** The Ctrl+R arm outside search mode: an empty query, then
      `enter_search_mode`. */
    method StartSearch()
      requires CursorInRangeOf(View())
      modifies this`text, this`newLine, this`prompt, this`searchPartial
      ensures View() == Editor.EnterSearch(old(View()))
    {
      searchPartial := Some([]);
      EnterSearchMode();
      Editor.EnterSearchOf(old(View()), View());
    }

    /** `handle_kb`: every key press of the frame through `handle_key`, in
      order, collecting the keys to consume; Enter ends the frame. */
    method HandleKb(events: seq<Editor.Event>, cursor: nat)
      returns (killList: seq<(Editor.Modifiers, Editor.Key)>, event: Editor.ConsoleEvent)
      requires Valid()
      modifies this`text, this`newLine, this`commandHistory, this`historyCursor, this`prompt, this`searchPartial
      ensures var r := Editor.KbSpec(old(View()), events, cursor);
              && View() == r.state && killList == r.kills
              && event == (match r.command case Some(line) => Editor.Command(line) case None => Editor.NoEvent)
    {
      ghost var total := Editor.KbSpec(View(), events, cursor);
      killList := [];
      var command: Option<string> := None;
      var k := 0;
      while k < |events|
        invariant k <= |events| && Valid()
        invariant var rest := Editor.KbSpec(View(), events[k..], cursor);
                  total == Editor.KbResult(rest.state, killList + rest.kills, rest.command)
        invariant command.None?
      {
        ghost var s := View();
        ghost var kills0 := killList;
        Editor.KbSpecUnfold(s, events[k..], cursor);
        assert events[k..][1..] == events[k + 1..];
        var e := events[k];
        if e.KeyPress? && e.pressed {
          var kill, msg := HandleKey(e.key, e.modifiers, cursor);
          ghost var mine := if kill then [(e.modifiers, e.key)] else [];
          if kill {
            killList := killList + [(e.modifiers, e.key)];
          }
          assert killList == kills0 + mine;
          command := msg;
          if command.Some? {
            break;
          }
          ghost var rest := Editor.KbSpec(View(), events[k + 1..], cursor);
          ConcatAssoc(kills0, mine, rest.kills);
        }
        k := k + 1;
      }
      if command.None? {
        assert events[k..] == [];
      }
      match command
      case Some(line) => event := Editor.Command(line);
      case None => event := Editor.NoEvent;
    }

    /** The caret fix-up of `ui`, after the text widget has run and reported
      the caret (if any): the caret to force, if any. */
    method FixCaret(caret: Option<nat>) returns (newCursor: Option<nat>)
      modifies this`newLine
      ensures var c := CaretCorrection(old(text), old(promptLen), old(searchPartial), old(newLine), caret);
              newCursor == c.cursor && newLine == c.newLine
    {
      if searchPartial.Some? {
        newCursor := SearchCaret(caret);
      } else {
        newCursor := PromptCaret(caret);
      }
    }

    /** The search-mode arm of the caret fix-up: keep the caret inside the
      query slot of the search prompt. */
    method SearchCaret(caret: Option<nat>) returns (newCursor: Option<nat>)
      requires searchPartial.Some?
      ensures newCursor == CaretCorrection(text, promptLen, searchPartial, newLine, caret).cursor
    {
      var t := text;
      newCursor := None;
      if caret.Some? {
        var lastOff := LastLineOffset(t);
        if caret.value < lastOff + SEARCH_PROMPT_SLOT_OFF + 1 {
          newCursor := Some(CursorAt(t, lastOff + SEARCH_PROMPT_SLOT_OFF + 1));
        } else {
          var searchText := GetSearchText(t);
          if caret.value > lastOff + |SEARCH_PROMPT| + |searchText| {
            newCursor := Some(CursorAt(t, lastOff + SEARCH_PROMPT_SLOT_OFF + |searchText| + 1));
          }
        }
      }
    }

    /** The normal-mode arm of the caret fix-up: a caret left of the prompt,
      or a pending new line, sends it to the end of the text. */
    method PromptCaret(caret: Option<nat>) returns (newCursor: Option<nat>)
      requires searchPartial.None?
      modifies this`newLine
      ensures var c := CaretCorrection(old(text), old(promptLen), None, old(newLine), caret);
              newCursor == c.cursor && newLine == c.newLine
    {
      var t := text;
      newCursor := None;
      if caret.Some? {
        var lastOff := LastLineOffset(t);
        if BeforePrompt(lastOff, promptLen, caret.value) {
          newCursor := Some(|t|);
        }
      }
      if newLine {
        newCursor := Some(|t|);
        newLine := false;
      }
    }

    /** The search-update block of `draw`. */
    method UpdateSearch()
      requires Valid() && searchPartial.Some?
      modifies this`text, this`historyCursor, this`prompt, this`searchPartial
      ensures View() == Editor.RefreshSearch(old(View()))
    {
      ghost var s0 := View();
      searchPartial := Some(GetSearchText(text));
      prompt := SearchPrompt(searchPartial.value);
      if searchPartial.value == [] {
        historyCursor := None;
      }
      ghost var q := GetSearchText(s0.text);
      assert View() == if q == [] then s0.(search := Some(q), prompt := SearchPrompt(q), cursor := None)
                       else s0.(search := Some(q), prompt := SearchPrompt(q));
      HistoryBack();
    }

    /** `draw`: keyboard handling when focused, the text widget (whose edit
      arrives as `edited` and whose caret as `caret`), the caret fix-up, and
      the search update when the text changed length. */
    method Draw(hasFocus: bool, events: seq<Editor.Event>, kbCursor: nat, edited: string, caret: Option<nat>)
      returns (event: Editor.ConsoleEvent, killList: seq<(Editor.Modifiers, Editor.Key)>, newCursor: Option<nat>)
      requires Valid()
      modifies this`text, this`newLine, this`commandHistory, this`historyCursor, this`prompt, this`searchPartial
      ensures Editor.Frame(View(), event, killList, newCursor)
              == Editor.DrawSpec(old(View()), hasFocus, events, kbCursor, edited, caret)
    {
      if hasFocus {
        killList, event := HandleKb(events, kbCursor);
      } else {
        killList, event := [], Editor.NoEvent;
      }
      var textLen := |text|;
      text := edited;
      newCursor := FixCaret(caret);
      if |text| != textLen && searchPartial.Some? {
        UpdateSearch();
      }
    }

    /** `tab_complete` (blank line and tokenizer corrected): always consumes
      the key and yields no command. */
    method TabComplete(listingFor: string -> Option<Tab.Listing>) returns (consume: bool, command: Option<string>)
      modifies this`text, this`newLine, this`tabString, this`tabNth, this`tabOffset, this`tabQuoted
      ensures consume && command.None?
      ensures Tab.TabOutcome(text, newLine, TabView())
              == Tab.TabStep(old(text), old(prompt), old(newLine), old(TabView()), listingFor)
    {
      var go := BeginTab();
      if go {
        CycleTab(listingFor);
      }
      return true, None;
    }

    /** The part of `tab_complete` before its loop: returns whether there is
      a prefix to complete. */
    method BeginTab() returns (go: bool)
      modifies this`tabString, this`tabNth, this`tabOffset, this`tabQuoted
      ensures go <==> Tab.TabBegin(old(text), old(prompt), old(TabView())).Some?
      ensures go ==> TabView() == Tab.TabBegin(old(text), old(prompt), old(TabView())).value
      ensures !go ==> TabView() == old(TabView()).(tabQuoted := false)
    {
      ghost var t0 := TabView();
      if tabString == [] {
        tabQuoted := false;
        var last := GetLastLine(text, prompt);
        var tok := Tab.LastArg(last);
        if tok.None? {
          Tab.TabStateEq(TabView(), t0.(tabQuoted := false));
          return false;
        }
        var lastArg := tok.value;
        Tab.FirstTabBegins(text, prompt, t0, lastArg);
        tabString := lastArg;
        tabNth := 0;
        tabOffset := |text| - |lastArg|;
        Tab.TabStateEq(TabView(), Tab.TabState(lastArg, 0, |text| - |lastArg|, false));
      } else {
        tabNth := tabNth + 1;
        Tab.TabStateEq(TabView(), t0.(tabNth := t0.tabNth + 1));
      }
      return true;
    }

    /** The loop of `tab_complete`. */
    method CycleTab(listingFor: string -> Option<Tab.Listing>)
      modifies this`text, this`newLine, this`tabNth, this`tabQuoted
      ensures Tab.TabOutcome(text, newLine, TabView()) == Tab.TabCycle(old(text), old(newLine), old(TabView()), listingFor)
    {
      ghost var t1 := TabView();
      while true
        invariant text == old(text) && newLine == old(newLine)
        invariant TabView() == t1.(tabNth := tabNth)
        invariant tabNth == t1.tabNth
                  || (tabNth == 0 && t1.tabNth != 0 && Tab.FsSelect(listingFor(tabString), tabString, t1.tabNth).None?)
        decreases tabNth
      {
        var path := Tab.FsTabComplete(listingFor(tabString), tabString, tabNth);
        if path.Some? {
          var p := path.value;
          var addedQuotes := false;
          if ' ' in p {
            p := [Tab.QUOTE] + p + [Tab.QUOTE];
            addedQuotes := true;
          }
          text := Truncate(text, tabOffset);
          newLine := true;
          text := text + p;
          tabQuoted := addedQuotes;
          break;
        } else {
          if tabNth == 0 {
            break;
          }
          tabNth := 0;
        }
      }
    }
  }

  /** Regrouping the kill lists in a separate lemma keeps this fact out of
      the large proof context of `HandleKb`. */
  lemma ConcatAssoc<T>(a: seq<T>, b: seq<T>, c: seq<T>)
    ensures a + (b + c) == (a + b) + c
  {
  }

  /** `history_cursor` indexes the history. */
  predicate CursorInRangeOf(s: Editor.State) {
    Editor.CursorInRange(s) && s.promptLen == |s.savePrompt|
  }
}
