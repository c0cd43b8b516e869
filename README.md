# egui_console line editor, in Dafny

This project models the readline-like line editor inside `ConsoleWindow` of
egui_console, and proves properties of it. The console keeps one flat
transcript string. Scrollback, the prompt and the line being typed all live
in that string, and everything else is derived from it: where the last line
starts, what was typed after the prompt, the reverse-i-search query, and
where the caret may sit.

The model has six modules:

- `RustStr` holds the few Rust `str` operations the editor relies on:
  `starts_with`, `strip_prefix`/`strip_suffix`, `truncate`, `contains`,
  `rfind` and `split_ascii_whitespace`.
- `Transcript` holds the read-only helpers over the text:
  - `last_line_offset`, `lines().last()`, `get_last_line`, `get_search_text`
    and `cursor_at`;
  - what `draw_prompt` and the search-mode redraw do to the text;
  - the caret fix-up of `ui`, lifted into the pure function
    `CaretCorrection`.
- `History` holds the bounded command history (Enter's push) and the
  reverse scan of `history_back`.
- `Editor` is the console as a state machine over a value `State`:
  - one function per operation that changes the console;
  - the key table of `handle_key` (`KeyStep`);
  - the event loop of `handle_kb` (`KbSpec`);
  - one call of `draw` (`DrawSpec`).
- `Tab` holds tab completion:
  - the quote-aware tokenizer `digest_line`;
  - the n-th-match selection of `fs_tab_complete` over an abstract
    directory listing;
  - the cycling state machine of `tab_complete`.
- `Console` is the class `ConsoleWindow`. It has the source's fields, and
  one method per source method. Each method carries a `modifies` clause
  and is proved to move the object's state exactly as the matching
  `Editor` or `Tab` function says. The loops of `history_back`,
  `handle_kb`, `digest_line`, `fs_tab_complete` and `tab_complete` are
  `while` loops with invariants.

Strings are `seq<char>` and assumed ASCII, so the byte offsets of
`rfind`/`len`/`truncate` and the character indices of the caret coincide.

Where the code and the editor's written description disagree, the model
follows the code:

- When `history_back` finds no match, the code still strips the editable
  line from the text: the line is emptied, not left unchanged.
  `Editor.SearchBackStep` and `Editor.BackAtOldestClears` state this.
- `exit_search_mode` does not reset `history_cursor`. Only the Escape arm
  does, afterwards.
- The search update in `draw` calls `history_back` even when the query has
  become empty. It first drops the cursor, and the empty query then empties
  the line.
- `handle_key` has no Tab arm: Tab passes through like any unlisted key.
  `tab_complete` is modelled as a method of its own. Nothing in the code
  resets `tab_string` when another key is pressed, so the model does not
  reset it either.
- The first Tab does not strip a leading quote from the token.
- The normal-mode clamp compares the caret with
  `last_off + prompt_len - 1`, not with the end of the prompt. That bound
  is computed in `usize`. When `last_off` and `prompt_len` are both 0, a
  release build wraps it around and the model does the same
  (`Transcript.BeforePrompt`); a debug build panics there instead.
- The search-mode clamp takes its upper bound from `get_search_text`, not
  from `search_partial`.
- Ctrl+R followed by Escape does not give back a line that was being
  typed. Entering and leaving search both cut the text at the start of the
  last line and redraw a prompt, so the typed line is lost and the prompt
  line comes back empty (`Editor.SearchThenEscapeDropsLine`).

`tab.rs` uses six fields that the struct in `console.rs` does not declare:
`tab_string`, `tab_nth`, `tab_offset`, `tab_quoted`, `tab_quote` and
`force_cursor_to_end`. The class gives them as follows:

- `tab_string`, `tab_nth`, `tab_offset` and `tab_quoted` are fields of the
  class;
- `tab_quote` is the constant `'"'`, as the tokenizer tests imply;
- `force_cursor_to_end` is played by `new_line`, the flag that sends the
  caret to the end.

Two methods compute their choice into locals before writing it back:

- `ConsoleWindow.HistoryBack` gets the line and cursor from `ScanBack`;
- `ConsoleWindow.HistoryForward` gets them from `ForwardPick`.

Each then rewrites the text and stores the cursor. The source assigns
`history_cursor` inside the loop instead. The final state is the same,
because nothing in between reads the cursor.

## Model

| member | source | states |
|---|---|---|
| History.Push | src/console.rs:258-261 | Enter's push: the history grows by one only below capacity; the new entry is last, and before it stand the newest entries of the old history in order, the oldest dropped when full; empty and duplicate lines are pushed too |
| History.PushOntoNewest | src/console.rs:258-261 | pushing onto the newest `size` entries of a sequence gives the newest `size` entries of the sequence extended by the line |
| History.PushAllKeepsNewest | src/console.rs:258-261 | after any run of Enters, a history within capacity holds exactly the newest `history_size` lines of old entries plus submissions, in order |
| History.HistoryHoldsLastPushes | src/console.rs:258-261 | from an empty history, after more submissions than the capacity, the history is the last `size` submitted lines and is full |
| History.SearchBack | src/console.rs:352-373 | the reverse scan of `history_back`: an empty query stops it exactly when there is something to scan; a found index is below the start, matches the query, and no entry between it and the start matches; not found means no entry below the start matches |
| Transcript.LastLineOffset | src/console.rs:383-386 | `last_line_offset` is within the text, is 0 or follows a '\n', and no '\n' comes after it |
| Transcript.LastLineOffsetUnique | src/console.rs:383-386 | those three facts determine the offset uniquely |
| Transcript.LastLineOffsetAppend | src/console.rs:383-386 | text appended after a '\n' moves the last-line offset by the length of what precedes it |
| Transcript.LastLine | src/console.rs:188-191 | `lines().last().unwrap_or("")` holds no '\n' and is no longer than the text |
| Transcript.LastLineIsLastOfLines | src/console.rs:188-191 | the last line is the last element of a reference definition of Rust's `str::lines` (a trailing empty line dropped, "\r\n" handled), or "" when there are no lines |
| Transcript.LastLineAppend | src/console.rs:188-191 | the last line ignores everything up to a '\n' followed by more text |
| Transcript.LastLineOfOneLine | src/console.rs:188-191 | a text without '\n' is its own last line, starting at offset 0 |
| Transcript.LastLineOfTerminatedLine | src/console.rs:188-191 | `"abc\n"` has last line `"abc"`: a final line break does not start an empty last line |
| Transcript.GetLastLine | src/console.rs:187-194 | when the last line starts with the prompt, the prompt followed by the result is that line; otherwise the result is "" |
| Transcript.SearchPrompt | src/console.rs:61-65 | the search prompt with the query spliced in at index 19: its length is 20 plus the query's, the slot holds the query, and it still ends with ':' |
| Transcript.SearchTextOf | src/console.rs:196-207 | `get_search_text` on a line: a non-empty result is the text from index 19 up to the first ':' at index 20 or later; the result is empty exactly when the line is too short or has no such ':' |
| Transcript.GetSearchText | src/console.rs:196-207 | a non-empty query is the text of the last line from index 19 up to a ':' that follows it; the query is empty exactly when the last line is too short or has no ':' at index 20 or later; it is never longer than the text and holds no '\n' |
| Transcript.SearchTextOfSearchPrompt | src/console.rs:196-207 | round trip: a query without ':' past its first character, spliced into the prompt, reads back unchanged whatever follows |
| Transcript.SearchTextTruncatesAtColon | src/console.rs:196-207 | a query holding a ':' reads back cut at that ':' |
| Transcript.SearchTextOfEmptyQuery | src/console.rs:196-207 | with an empty query the prompt's own ':' at index 19 is skipped, so the slot runs into the text after the prompt up to its first ':' |
| Transcript.CursorAt | src/console.rs:113-118 | `cursor_at` keeps a location inside the text and caps one past it at the text's end |
| Transcript.DrawPromptShape | src/console.rs:404-409 | `draw_prompt` extends the text, adds a '\n' only when the text is non-empty and does not end with one, ends with the prompt, and makes the prompt the start of the last line |
| Transcript.Redraw | src/console.rs:391-393 | the redraw of `enter_search_mode`/`exit_search_mode` keeps the scrollback up to the last line and puts the prompt after it |
| Transcript.RedrawKeepsLastLine | src/console.rs:398-400 | redrawing a single-line prompt does not move the start of the last line |
| Transcript.SearchRoundTripDropsLine | src/console.rs:387-403 | entering search and leaving it gives the text cut at the start of its last line followed by the saved prompt, whatever the last line held |
| Transcript.RedrawnLineIsEmpty | src/console.rs:404-409 | after a redraw with a single-line non-empty prompt, `get_last_line` is empty |
| Transcript.SearchRoundTripText | src/console.rs:387-403 | entering search and leaving it when the last line is exactly the saved prompt gives back the text unchanged |
| Transcript.ClearEditableShape | src/console.rs:374-377 | stripping the editable line leaves the text up to and including the prompt on an open prompt line, the whole text when the last line has no prompt, and "" when the text ends in '\n' after a non-empty editable part |
| Transcript.EditableIsSuffix | src/console.rs:374-377 | on an open prompt line the text is scrollback, prompt and editable line in that order; after a final '\n' a non-empty editable line is not a suffix |
| Transcript.EditableAfterPrompt | src/console.rs:187-194 | an open last line that starts with the prompt splits as scrollback + prompt + `get_last_line` |
| Transcript.EditableNotAfterBreak | src/console.rs:374-377 | a text ending in '\n' does not end with its non-empty editable line, so `strip_suffix` fails and the text becomes "" |
| Transcript.FreshPromptLineIsEmpty | src/console.rs:91-94 | after a response and a fresh single-line prompt are appended, the editable line is empty |
| Transcript.CaretCorrection | src/console.rs:137-169 | the caret fix-up of `ui`. Normal mode: a caret below `last_off + prompt_len - 1` (in `usize`) or a pending `new_line` sends the caret to the end, and `new_line` is cleared. Search mode: a caret outside `[last_off+19, last_off+20+|query|]` is moved to the nearer end of the slot (capped at the text end), and `new_line` is kept. Any forced caret lies within the text |
| Editor.New | src/console.rs:29-44 | a new console holds just the prompt, has an empty history, is not searching, and satisfies the invariant |
| Editor.Respond | src/console.rs:91-99 | `sync_response`/`async_message` append "\n", the data, "\n" and the prompt, set `new_line`, and change nothing else |
| Editor.LoadHistory | src/console.rs:101-104 | loading replaces the history, stops browsing and keeps the invariant |
| Editor.EnterSearch | src/console.rs:387-395 | entering search: empty query, `new_line` set, history and cursor kept, last line replaced by the bare search prompt |
| Editor.EnterSearchValid | src/console.rs:387-395 | the bare search prompt is the search prompt of the empty query, so entering search keeps the invariant |
| Editor.ExitSearch | src/console.rs:396-403 | leaving search restores the saved prompt on the last line, sets `new_line`, keeps the cursor and keeps the invariant |
| Editor.LeaveSearch | src/console.rs:223-225 | the guarded exit the arms share: afterwards not searching, history and cursor kept, invariant kept |
| Editor.BackStart | src/console.rs:347-350 | the scan starts at the cursor, or at the history length when not browsing, and never past the end |
| Editor.HistoryBack | src/console.rs:345-381 | `history_back` keeps the invariant (the cursor indexes the history) and changes only the text and the cursor |
| Editor.FoundBack | src/console.rs:361-364 | when the scan finds entry `i`, the cursor moves to `i` and entry `i` is the line shown |
| Editor.BrowseBack | src/console.rs:367-371 | outside search, `history_back` moves the cursor one entry older (to the newest entry when not browsing) and shows that entry after the prompt |
| Editor.SearchBackStep | src/console.rs:354-366 | in search with a non-empty query: when an entry older than the scan start contains the query, the cursor moves to the newest such entry and the editable line becomes that entry; when none does, the cursor stays and the editable line is emptied |
| Editor.BackAtOldestClears | src/console.rs:345-381 | browsing back from the oldest entry finds nothing: the cursor stays at 0 and the editable line is emptied |
| Editor.EmptyQueryStopsBrowsing | src/console.rs:356-359 | searching with an empty query drops the cursor and empties the editable line |
| Editor.HistoryForward | src/console.rs:226-239 | the ArrowDown step out of search keeps the invariant and the history, and stays out of search |
| Editor.ForwardSteps | src/console.rs:226-239 | ArrowDown with no cursor changes nothing; at the newest entry it clears the line and stops browsing; otherwise it moves the cursor one newer and shows that entry |
| Editor.ForwardAtNewest | src/console.rs:230-231 | at the newest entry, ArrowDown stops browsing and empties the editable line |
| Editor.ForwardToNewer | src/console.rs:233-237 | below the newest entry, ArrowDown moves the cursor one newer and shows that entry |
| Editor.Submit | src/console.rs:253-266 | Enter captures the editable line before leaving search, pushes it onto the history, stops browsing, sets `new_line`, consumes the key and returns that line; the invariant holds |
| Editor.KeyStep | src/console.rs:212-343 | every key keeps the invariant; a command is returned exactly for Enter without modifiers, and it is the captured line, now the newest history entry; no other key changes the history |
| Editor.LeftBackspaceBlocking | src/console.rs:292-311 | Left/Backspace never change the state, and are consumed exactly when the caret is below `last_off + prompt.len() + 1` in normal mode or below `last_off + 20` in search |
| Editor.RightDeleteBlocking | src/console.rs:271-291 | Right/Delete never change the state, and are consumed exactly when searching with the caret above `last_off + 18 + |query|` |
| Editor.ArrowUpOnEmptyHistory | src/console.rs:243-245 | ArrowUp on an empty history is consumed and changes nothing, not even the search mode |
| Editor.ArrowUpBrowsesBack | src/console.rs:242-252 | ArrowUp on a non-empty history leaves search and then runs `history_back` |
| Editor.ThreeUpsReachOldest | src/console.rs:242-252 | from a fresh line over three entries, three ArrowUp presses show the oldest entry, with the cursor at 0 and the history untouched |
| Editor.ArrowDownBrowsesForward | src/console.rs:221-241 | ArrowDown leaves search, then steps forward, and is consumed |
| Editor.EscapeStopsBrowsing | src/console.rs:312-318 | Escape leaves search, drops the cursor and is consumed |
| Editor.CtrlRSearches | src/console.rs:320-338 | Ctrl+R outside search enters it with an empty query; inside search it looks one match further back; it is consumed |
| Editor.OtherKeysPassThrough | src/console.rs:339 | any other key or modifier combination, Tab included, is neither consumed nor acted on |
| Editor.SearchThenEscapeDropsLine | src/console.rs:312-338 | Ctrl+R then Escape, whatever was typed: the text is cut at the start of the last line and the saved prompt redrawn, browsing stops and `new_line` is set; with a non-empty single-line prompt the editable line is then empty |
| Editor.SearchThenEscapeRestores | src/console.rs:312-338 | Ctrl+R then Escape on an empty editable line gives back the text and the prompt, stops browsing, and leaves search |
| Editor.KbSpec | src/console.rs:428-451 | the events of one frame, in order, through `handle_key`: the invariant holds at the end |
| Editor.KbCommandIffSubmit | src/console.rs:438-447 | a frame yields a command exactly when one of its events is an Enter press without modifiers |
| Editor.KbCommandIsNewestEntry | src/console.rs:253-266 | a command a frame yields is the newest history entry, with browsing stopped and `new_line` set |
| Editor.KbIgnoresEventsAfterSubmit | src/console.rs:444-447 | events after the first Enter in a frame are never looked at: appending more changes nothing |
| Editor.RefreshSearchFinds | src/console.rs:57-72 | after typing in search leaves a non-empty query in the slot, the cursor moves to the newest entry older than the scan start that contains the query and the editable line becomes it; when none does, the cursor stays and the line is emptied |
| Editor.RefreshSearch | src/console.rs:56-73 | after typing in search, the query is re-read from the slot and spliced into the prompt, the cursor is dropped when the query is empty, the history is kept, and the invariant holds |
| Editor.DrawSpec | src/console.rs:45-89 | one call of `draw` keeps the invariant; without focus no keys are handled or consumed, no command is returned and the history is kept; with focus the consumed keys and the history are those of `handle_kb`, and a command is returned exactly when `handle_kb` returns one, with the same line |
| Editor.DrawSubmits | src/console.rs:45-89 | a focused frame returns a command exactly when one of its events is an Enter press, and the command is then the newest history entry |
| Console.ConsoleWindow.constructor | src/console.rs:29-44 | a new console is `Editor.New` with completion inactive |
| Console.ConsoleWindow.SyncResponse | src/console.rs:91-94 | the object moves as `Editor.Respond` says, and completion state is untouched |
| Console.ConsoleWindow.AsyncMessage | src/console.rs:96-99 | the same as `sync_response` |
| Console.ConsoleWindow.LoadHistory | src/console.rs:101-104 | the object moves as `Editor.LoadHistory` over the lines of the saved text says, and keeps the invariant |
| Console.ConsoleWindow.GetHistory | src/console.rs:106-108 | returns the history as it is |
| Console.ConsoleWindow.DrawPrompt | src/console.rs:404-409 | the text becomes the text with the prompt drawn (see `Transcript.DrawPromptShape`) |
| Console.ConsoleWindow.RedrawPrompt | src/console.rs:391-393 | the text is cut back to the start of its last line and the current prompt is drawn |
| Console.ConsoleWindow.EnterSearchMode | src/console.rs:387-395 | the search prompt with an empty query replaces the last line and `new_line` is set |
| Console.ConsoleWindow.ExitSearchMode | src/console.rs:396-403 | the saved prompt replaces the last line, search ends and `new_line` is set |
| Console.ConsoleWindow.LeaveSearchMode | src/console.rs:223-225 | the object moves as `Editor.LeaveSearch` says |
| Console.ConsoleWindow.PushCommand | src/console.rs:258-264 | the history becomes `History.Push` of the line, browsing stops and `new_line` is set; nothing else changes |
| Console.ConsoleWindow.HistoryBack | src/console.rs:345-381 | the object moves as `Editor.HistoryBack` says |
| Console.ConsoleWindow.ScanBack | src/console.rs:347-373 | the reverse loop returns the entry found and the cursor to store, as the scan `History.SearchBack` determines |
| Console.ConsoleWindow.ReplaceLine | src/console.rs:374-380 | the editable line is stripped and the found entry appended |
| Console.ConsoleWindow.ClearLine | src/console.rs:228-229 | the text becomes the text with the editable line stripped, or "" when stripping fails |
| Console.ConsoleWindow.HandleKey | src/console.rs:212-343 | the consume flag, the command and the new state are those of `Editor.KeyStep` |
| Console.ConsoleWindow.ArrowDownArm | src/console.rs:221-241 | the object leaves search and then steps forward |
| Console.ConsoleWindow.HistoryForward | src/console.rs:226-239 | the object moves as `Editor.HistoryForward` says |
| Console.ConsoleWindow.ForwardPick | src/console.rs:227-238 | returns the line and cursor the forward step picks from the cursor |
| Console.ConsoleWindow.ArrowUpArm | src/console.rs:242-252 | on an empty history nothing changes; otherwise the object leaves search and runs `history_back` |
| Console.ConsoleWindow.EnterArm | src/console.rs:253-266 | state and returned line are those of `Editor.Submit` |
| Console.ConsoleWindow.EscapeArm | src/console.rs:312-318 | the object leaves search and stops browsing |
| Console.ConsoleWindow.CtrlRArm | src/console.rs:320-338 | outside search the object enters search; inside, it runs `history_back` |
| Console.ConsoleWindow.StartSearch | src/console.rs:331-333 | the object moves as `Editor.EnterSearch` says |
| Console.ConsoleWindow.HandleKb | src/console.rs:411-462 | the new state, the list of keys to consume and the event returned are those of `Editor.KbSpec` |
| Console.ConsoleWindow.FixCaret | src/console.rs:137-169 | the forced caret and the new `new_line` are those of `Transcript.CaretCorrection` |
| Console.ConsoleWindow.SearchCaret | src/console.rs:137-156 | the search-mode caret fix is that of `Transcript.CaretCorrection` |
| Console.ConsoleWindow.PromptCaret | src/console.rs:157-169 | the normal-mode caret fix and the clearing of `new_line` are those of `Transcript.CaretCorrection` |
| Console.ConsoleWindow.UpdateSearch | src/console.rs:57-72 | the object moves as `Editor.RefreshSearch` says |
| Console.ConsoleWindow.Draw | src/console.rs:45-89 | the new state, event, consumed keys and forced caret are those of `Editor.DrawSpec` |
| Console.ConsoleWindow.TabComplete | src/tab.rs:5-61 | always consumes the key without a command; text, `new_line` and completion fields move as `Tab.TabStep` says |
| Console.ConsoleWindow.BeginTab | src/tab.rs:6-21 | returns whether there is a prefix to complete, exactly when `Tab.TabBegin` gives one, and the completion fields become that; without one only `tab_quoted` is cleared |
| Console.ConsoleWindow.CycleTab | src/tab.rs:22-59 | text, `new_line` and completion fields move as `Tab.TabCycle` says |
| Tab.JoinSpaceCons | src/tab.rs:72-73 | joining with single spaces distributes over a first token |
| Tab.JoinedWordsFit | src/tab.rs:64 | the words of a line rejoined with single spaces are no longer than the line |
| Tab.TokenFitsJoin | src/tab.rs:63-80 | every token is no longer than the tokens joined |
| Tab.DigestAsWritten | src/tab.rs:63-80 | `digest_line` as written, with the out-of-range `result[i-1]` as failure (see Findings) |
| Tab.Digest | src/tab.rs:63-80 | the corrected tokenizer yields one token per chunk, minus one per merge |
| Tab.JoinSpaceMergeLast | src/tab.rs:72-73 | appending " " and a chunk to the last token extends the join as adding the chunk as a token would |
| Tab.MergeCountBelowLength | src/tab.rs:68-75 | fewer merges than chunks: the first chunk never merges |
| Tab.DigestKeepsJoin | src/tab.rs:63-80 | the tokens rejoined with single spaces are the chunks rejoined: merging only restores the space between two chunks |
| Tab.DigestNonEmpty | src/tab.rs:63-80 | at least one chunk gives at least one token, and every token is non-empty |
| Tab.DigestAsWrittenFailsOnSecondMerge | src/tab.rs:67-77 | the as-written tokenizer fails exactly when more than one chunk merges, and otherwise agrees with the corrected one |
| Tab.DigestWithoutQuotes | src/tab.rs:67-78 | chunks without quote characters come back unchanged |
| Tab.DigestLine | src/tab.rs:63-80 | the loop builds the corrected tokenization of the line's whitespace-separated chunks |
| Tab.DigestLineWithoutQuotes | src/tab.rs:63-80 | on a line without quotes `digest_line` equals `split_ascii_whitespace` |
| Tab.TokensFitLine | src/tab.rs:63-80 | every token is no longer than the line |
| Tab.SplitCons | src/tab.rs:64 | a word, a space and the rest split as the word followed by the rest's words |
| Tab.SplitThree | src/tab.rs:64 | three words joined by single spaces split back into those three words |
| Tab.DigestLinePlain | src/tab.rs:151-152 | `"cd foo"` gives `["cd", "foo"]` |
| Tab.DigestLineQuotedPair | src/tab.rs:153-154 | `cd "foo bar"` gives `cd` and `"foo bar"` |
| Tab.DigestLineOpenQuote | src/tab.rs:155-156 | `cd "foo bar` gives `cd`, `"foo` and `bar` |
| Tab.DigestLineCloseQuoteOnly | src/tab.rs:157-158 | `cd foo bar"` gives `cd`, `foo` and `bar"` |
| Tab.DigestLineQuoteSpansThree | src/tab.rs:159-160 | `"cd foo bar"` gives `"cd`, `foo` and `bar"`: only two adjacent chunks ever merge |
| Tab.DigestLineQuoteAfterWord | src/tab.rs:161-162 | `cd" foo bar"` gives `cd"`, `foo` and `bar"` |
| Tab.DigestThree | src/tab.rs:67-78 | three words: the third merges into the second exactly under the merge test, the second into the first likewise, and never both |
| Tab.TwoQuotedArgumentsPanic | src/tab.rs:68-73 | `cd "a b" "c d"` makes the as-written tokenizer fail, where the corrected one gives `cd`, `"a b"` and `"c d"` |
| Tab.DigestFiveTwoMerges | src/tab.rs:67-77 | any five words where the third and fifth merge make the as-written tokenizer fail; the corrected one gives three tokens |
| Tab.SplitFive | src/tab.rs:64 | five words joined by single spaces split back into those five |
| Tab.TwoMergesOfFive | src/tab.rs:67-77 | two merges among five chunks: as written it fails, corrected it gives the first chunk and the two merged pairs |
| Tab.Rendered | src/tab.rs:123-126 | with the "./" added, an entry renders exactly when it starts with "./", and "./" followed by the rendering is the entry; otherwise the entry renders as itself |
| Tab.Select | src/tab.rs:120-146 | a selected path starts with the prefix |
| Tab.FsSelect | src/tab.rs:118-146 | a completion starts with the prefix; an unreadable directory gives none |
| Tab.Matching | src/tab.rs:120-146 | the rendered entries that start with the prefix, in listing order, are no more than the entries |
| Tab.SelectIsNthMatch | src/tab.rs:120-146 | on a listing whose entries all render, the selection is the `nth` (from 0) match, or nothing when fewer match |
| Tab.FsTabComplete | src/tab.rs:118-146 | the loop that counts `nth` down over the entries returns the selection |
| Tab.TabPick | src/tab.rs:22-59 | the retry loop: a picked path starts with the prefix; with none picked the count is 0; the count is kept or reset to 0 |
| Tab.TabPickCycles | src/tab.rs:22-59 | with K matches, `nth` below K picks match `nth`; any later `nth` wraps to the first match with the count reset; with no match, nothing |
| Tab.Quote | src/tab.rs:26-35 | a completion holding a space is wrapped in quotes, any other is written as is |
| Tab.BlankLinePanics | src/tab.rs:10-11 | on a line of only whitespace the first Tab panics (`args.len() - 1` underflows) |
| Tab.BlankLineHasNoWords | src/tab.rs:9-10 | a line of only whitespace has no words |
| Tab.AsWrittenNeverNoToken | src/tab.rs:12-14 | the `is_empty` early return of the first Tab is unreachable: a token is never empty |
| Tab.LastToken | src/tab.rs:8-11 | the last token is missing exactly when the line has no words; when present it is non-empty and no longer than the line |
| Tab.LastArg | src/tab.rs:8-11 | the method tokenizes the line and returns its last token, or none |
| Tab.LastTokenAgrees | src/tab.rs:8-14 | where the as-written first Tab does not panic it starts from the same token as the corrected one; where only the corrected one has a token, the tokenizer is what failed |
| Tab.TabBegin | src/tab.rs:6-21 | a repeat Tab only advances `tab_nth`; a first Tab that finds a token stores a non-empty prefix starting within the text |
| Tab.TabCycle | src/tab.rs:22-59 | the loop keeps prefix and offset and keeps or resets the count. Either nothing but the count changes, or the caret is forced to the end and the text becomes the text cut at `tab_offset` followed by a quoted match, with `tab_quoted` recording whether quotes were added |
| Tab.TabStep | src/tab.rs:5-61 | a repeat Tab keeps prefix and offset and advances or wraps the count. Either the text is kept or it becomes the text cut at the offset followed by a quoted match of the prefix, with the caret forced to the end |
| Tab.FirstTabBegins | src/tab.rs:6-18 | a first Tab on a line with last token `tok` stores `tok`, count 0, offset `|text| - |tok|`, and clears `tab_quoted` |
| Tab.FirstTabStarts | src/tab.rs:6-51 | a first Tab writes the first match (quoted if needed) from the token's start, forcing the caret to the end, or changes nothing when there is no match |
| Tab.FirstTokenAsWritten | src/tab.rs:8-14 | the first Tab as written panics exactly when the tokenizer panics or the line has no word |
| Tab.CutBeforeSuffix | src/tab.rs:18 | when the text ends with the token, cutting at `|text| - |tok|` and putting the token back gives the text |
| Tab.TrailingSpaceKeepsTokenHead | src/tab.rs:16-18 | with a space after the last token, `tab_offset` lands one past the token's start, so the token's first character stays before the completion |
| Tab.CutAfterTokenHead | src/tab.rs:46 | cutting `pre + tok + " "` one past the token's start keeps `pre` and the token's first character |
| Tab.RepeatTabCycles | src/tab.rs:19-59 | a repeat Tab moves to the next match of the same prefix, wraps to the first after the last, and without matches writes nothing and resets the count |
| RustStr.StripPrefix | src/console.rs:192 | `strip_prefix` succeeds exactly on a prefix, and the prefix followed by the result is the string |
| RustStr.StripSuffix | src/console.rs:377 | `strip_suffix` succeeds exactly on a suffix, and the result followed by the suffix is the string |
| RustStr.Truncate | src/console.rs:392 | `truncate` keeps the first `n` characters, or the whole string when it is shorter |
| RustStr.RFind | src/console.rs:385 | `rfind` finds the last occurrence of the character, and none exactly when it does not occur |
| RustStr.FindFrom | src/console.rs:200-205 | the first occurrence of a character at or after an index, and none exactly when there is none |
| RustStr.SplitAsciiWhitespace | src/tab.rs:64 | `split_ascii_whitespace` yields non-empty words free of ASCII whitespace |

## Left out

- Rendering, focus and widget plumbing are left out: `ScrollArea`, `TextEdit::show`, loading and storing the widget state, `scroll_to_cursor`, the `EventFilter` and focus locking. `Draw` receives focus, the widget's edited text and its caret as parameters.
- `Console.ConsoleWindow.HandleKb`: the caret `handle_kb` reads from the widget state (and the `unwrap` that panics when there is none) becomes the parameter `cursor`. The `consume_key` calls are left out; the method returns the list of keys they would consume.
- `println!` debug output is left out.
- Directory resolution and `read_dir` in `fs_tab_complete` are I/O: the `is_dir`/`parent` walk, the `".."` rewrite, the Windows backslash switch and read errors. They become a parameter `listingFor: string -> Option<Listing>`: the entries the resolved directory lists, in order, and whether "./" was added. An entry that fails to read is taken to be absent from the listing.
- `path.to_str().unwrap()` on a path that is not valid UTF-8 is left out, because paths are strings here.
- The ASCII assumption: `prompt_len` counts characters while `len`, `rfind` and `truncate` count bytes. Strings are sequences of characters, so multi-byte text is not modelled.
- `Transcript.CaretCorrection`: follows release-build `usize` wrapping when `last_off` and `prompt_len` are both 0; a debug build panics there instead (for example a console created with an empty prompt, whose text has no '\n').
- `Tab.TabStep`: does not model the `usize` wrap-around of `tab_nth += 1`, because the count is an unbounded `nat`.
- `Console.ConsoleWindow.TabComplete`: models the corrected first Tab, which returns on a line without a token where the source panics, and uses the corrected tokenizer. The as-written behaviour is `Tab.FirstTokenAsWritten` and `Tab.DigestAsWritten` (see Findings).
- `Editor.LoadHistory`: does not enforce `history_size` on the loaded lines, because the source does not either.
- The field `id`, `scrollback_size` and `ConsoleEvent::CtrlC` are left out: they are declared but not used by the editor logic. `cursor_at_end` is `CursorAt` at the text length.
- The demo application (`demo/src/app.rs`, `demo/src/clap.rs`) is GUI and command-dispatch glue and is not part of this model.

## Findings

| source | as written | input that shows it | evidently intended | confidence | as-written member | corrected member |
|---|---|---|---|---|---|---|
| src/tab.rs:68-73 | a merging chunk is appended to `result[i-1]`, where `i` is the index among the raw chunks; after an earlier merge `result` is shorter than that, so the index is out of range and the program panics | the line `cd "a b" "c d"` (Tab pressed after it) | append the chunk to the last token produced so far, giving `cd`, `"a b"`, `"c d"` | not executed | Tab.TwoQuotedArgumentsPanic | Tab.DigestKeepsJoin |
| src/tab.rs:10-11 | the first Tab takes `args[args.len() - 1]`; on a line without words `args` is empty, the subtraction underflows and the program panics, and the `is_empty` test after it can never succeed | an empty editable line, or one of spaces only, then Tab | return without completing when the line has no token | not executed | Tab.BlankLinePanics | Tab.LastToken |
