/** The helpers of `ConsoleWindow` that only read the transcript: everything
    about "the current line" is recomputed from the one flat `text` buffer. */
module Transcript {
  import opened RustStr

  /** The reverse-i-search prompt; the query is spliced in at index
      SEARCH_PROMPT_SLOT_OFF + 1, just before the ':'. */
  const SEARCH_PROMPT: string := "(reverse-i-search) :"
  const SEARCH_PROMPT_SLOT_OFF: nat := 18

  predicate NoNewline(s: string) {
    '\n' !in s
  }

  /** `last_line_offset`: one past the last '\n', or 0 when there is none. */
  function LastLineOffset(t: string): (r: nat)
    ensures r <= |t|
    ensures r == 0 || t[r - 1] == '\n'
    ensures NoNewline(t[r..])
  {
    match RFind(t, '\n')
    case None => 0
    case Some(k) => k + 1
  }

  /** The three facts above pin `LastLineOffset` down. */
  lemma LastLineOffsetUnique(t: string, r: nat)
    requires r <= |t| && (r == 0 || t[r - 1] == '\n') && NoNewline(t[r..])
    ensures LastLineOffset(t) == r
  {
  }

  lemma LastLineOffsetAppend(a: string, b: string)
    requires |a| > 0 && a[|a| - 1] == '\n'
    ensures LastLineOffset(a + b) == |a| + LastLineOffset(b)
  {
    var t, r := a + b, |a| + LastLineOffset(b);
    assert t[r..] == b[LastLineOffset(b)..];
    if LastLineOffset(b) > 0 {
      assert t[r - 1] == b[LastLineOffset(b) - 1];
    }
    LastLineOffsetUnique(t, r);
  }

  /** Drops the '\r' of a "\r\n" line ending. */
  function StripCr(l: string): string {
    if |l| > 0 && l[|l| - 1] == '\r' then l[..|l| - 1] else l
  }

  /** Reference definition of Rust's `str::lines()`: split after each '\n',
      drop the "\n" or "\r\n" ending; a final line without '\n' is kept as
      it is, and a trailing '\n' does not start an empty last line. */
  function Lines(t: string): seq<string>
    decreases |t|
  {
    if t == [] then []
    else match FindFrom(t, '\n', 0)
      case None => [t]
      case Some(k) => [StripCr(t[..k])] + Lines(t[k + 1..])
  }

  /** `text.lines().last().unwrap_or("")`, computed from the end. */
  function LastLine(t: string): (r: string)
    ensures |r| <= |t|
    ensures NoNewline(r)
  {
    if t == [] then []
    else if t[|t| - 1] == '\n' then
      var body := t[..|t| - 1];
      StripCr(body[LastLineOffset(body)..])
    else t[LastLineOffset(t)..]
  }

  /** The last line ignores everything up to a '\n'. */
  lemma LastLineAppend(a: string, b: string)
    requires |a| > 0 && a[|a| - 1] == '\n' && b != []
    ensures LastLine(a + b) == LastLine(b)
  {
    if b[|b| - 1] == '\n' {
      LastLineAppendClosed(a, b);
    } else {
      LastLineAppendOpen(a, b);
    }
  }

  lemma LastLineAppendClosed(a: string, b: string)
    requires |a| > 0 && a[|a| - 1] == '\n' && b != [] && b[|b| - 1] == '\n'
    ensures LastLine(a + b) == LastLine(b)
  {
    var t := a + b;
    var bb := b[..|b| - 1];
    var body := t[..|t| - 1];
    assert t[|t| - 1] == '\n';
    assert body == a + bb;
    LastLineOffsetAppend(a, bb);
    var ob := LastLineOffset(bb);
    DropAfterPrefix(a, bb, ob);
    assert LastLine(t) == StripCr(body[|a| + ob..]);
    assert LastLine(b) == StripCr(bb[ob..]);
  }

  lemma DropAfterPrefix(a: string, x: string, k: nat)
    requires k <= |x|
    ensures (a + x)[|a| + k..] == x[k..]
  {
  }

  lemma LastLineAppendOpen(a: string, b: string)
    requires |a| > 0 && a[|a| - 1] == '\n' && b != [] && b[|b| - 1] != '\n'
    ensures LastLine(a + b) == LastLine(b)
  {
    var t := a + b;
    assert t[|t| - 1] == b[|b| - 1];
    LastLineOffsetAppend(a, b);
    assert t[LastLineOffset(t)..] == b[LastLineOffset(b)..];
  }

  lemma LastLineOfOneLine(l: string)
    requires NoNewline(l)
    ensures LastLineOffset(l) == 0
    ensures LastLine(l) == l
  {
    assert l[0..] == l;
    LastLineOffsetUnique(l, 0);
  }

  lemma LastLineOfTerminatedLine(l: string)
    requires NoNewline(l)
    ensures LastLine(l + "\n") == StripCr(l)
  {
    var t := l + "\n";
    assert t[..|t| - 1] == l;
    LastLineOfOneLine(l);
  }

  /** `LastLine` is the last element of `Lines`, or "" when there is none. */
  lemma {:induction false} LastLineIsLastOfLines(t: string)
    ensures LastLine(t) == if Lines(t) == [] then [] else Lines(t)[|Lines(t)| - 1]
    decreases |t|
  {
    if t != [] {
      match FindFrom(t, '\n', 0)
      case None =>
        assert Lines(t) == [t];
        LastLineOfOneLine(t);
      case Some(k) =>
        var rest := t[k + 1..];
        assert Lines(t) == [StripCr(t[..k])] + Lines(rest);
        assert NoNewline(t[..k]) by {
          forall i | 0 <= i < k ensures t[..k][i] != '\n' { assert t[..k][i] == t[i]; }
        }
        if rest == [] {
          LastLineOfFirstLine(t, k);
        } else {
          LastLineIsLastOfLines(rest);
          assert Lines(rest) != [];
          LastLineSkipsFirstLine(t, k);
        }
    }
  }

  lemma LastLineOfFirstLine(t: string, k: nat)
    requires k == |t| - 1 && t[k] == '\n' && NoNewline(t[..k])
    ensures LastLine(t) == StripCr(t[..k])
  {
    assert t == t[..k] + "\n";
    LastLineOfTerminatedLine(t[..k]);
  }

  lemma LastLineSkipsFirstLine(t: string, k: nat)
    requires k < |t| - 1 && t[k] == '\n'
    ensures LastLine(t) == LastLine(t[k + 1..])
  {
    assert t == t[..k + 1] + t[k + 1..];
    LastLineAppend(t[..k + 1], t[k + 1..]);
  }

  /** `get_last_line`: the last line with the prompt stripped, or "" when
      the last line does not start with the prompt. */
  function GetLastLine(t: string, prompt: string): (r: string)
    ensures StartsWith(LastLine(t), prompt) ==> prompt + r == LastLine(t)
    ensures !StartsWith(LastLine(t), prompt) ==> r == []
    ensures |r| <= |t| && NoNewline(r)
  {
    UnwrapOr(StripPrefix(LastLine(t), prompt), [])
  }

  /** The search prompt with query `q` spliced into its slot. */
  function SearchPrompt(q: string): (r: string)
    ensures |r| == |SEARCH_PROMPT| + |q|
    ensures r[SEARCH_PROMPT_SLOT_OFF + 1..SEARCH_PROMPT_SLOT_OFF + 1 + |q|] == q
    ensures r[|r| - 1] == ':'
  {
    SEARCH_PROMPT[..SEARCH_PROMPT_SLOT_OFF + 1] + q + SEARCH_PROMPT[SEARCH_PROMPT_SLOT_OFF + 1..]
  }

  /** The query slot of a search-prompt line: from index 19 up to (not
      including) the first ':' found at index 20 or later. Index 19 itself is
      never tested, and a line of at most 20 characters has no query. */
  function SearchTextOf(line: string): (r: string)
    ensures r != [] ==>
              SEARCH_PROMPT_SLOT_OFF + 2 < |line| && SEARCH_PROMPT_SLOT_OFF + 1 + |r| < |line|
              && r == line[SEARCH_PROMPT_SLOT_OFF + 1..SEARCH_PROMPT_SLOT_OFF + 1 + |r|]
              && line[SEARCH_PROMPT_SLOT_OFF + 1 + |r|] == ':'
              && forall i :: SEARCH_PROMPT_SLOT_OFF + 2 <= i < SEARCH_PROMPT_SLOT_OFF + 1 + |r| ==> line[i] != ':'
    ensures r == [] <==>
              |line| <= SEARCH_PROMPT_SLOT_OFF + 2
              || forall i :: SEARCH_PROMPT_SLOT_OFF + 2 <= i < |line| ==> line[i] != ':'
  {
    var start := SEARCH_PROMPT_SLOT_OFF + 1;
    if |line| <= start then []
    else match FindFrom(line, ':', start + 1)
      case None => []
      case Some(e) => line[start..e]
  }

  /** `get_search_text`: the query slot of the last line, from index 19 up to
      the first ':' after it; empty when there is no such ':'. */
  function GetSearchText(t: string): (r: string)
    ensures var line := LastLine(t);
            r != [] ==>
              SEARCH_PROMPT_SLOT_OFF + 1 + |r| < |line|
              && r == line[SEARCH_PROMPT_SLOT_OFF + 1..SEARCH_PROMPT_SLOT_OFF + 1 + |r|]
              && line[SEARCH_PROMPT_SLOT_OFF + 1 + |r|] == ':'
    ensures var line := LastLine(t);
            r == [] <==>
              |line| <= SEARCH_PROMPT_SLOT_OFF + 2
              || forall i :: SEARCH_PROMPT_SLOT_OFF + 2 <= i < |line| ==> line[i] != ':'
    ensures |r| <= |t| && NoNewline(r)
  {
    SearchTextOf(LastLine(t))
  }

  /** A query without ':' (past its first character) reads back intact. */
  lemma SearchTextOfSearchPrompt(q: string, rest: string)
    requires q != []
    requires forall i :: 1 <= i < |q| ==> q[i] != ':'
    ensures SearchTextOf(SearchPrompt(q) + rest) == q
  {
    var line := SearchPrompt(q) + rest;
    var e := SEARCH_PROMPT_SLOT_OFF + 1 + |q|;
    assert line[e] == ':';
    forall i | SEARCH_PROMPT_SLOT_OFF + 2 <= i < e ensures line[i] != ':' {
      assert line[i] == q[i - (SEARCH_PROMPT_SLOT_OFF + 1)];
    }
    assert FindFrom(line, ':', SEARCH_PROMPT_SLOT_OFF + 2) == Some(e);
    assert line[SEARCH_PROMPT_SLOT_OFF + 1..e] == SearchPrompt(q)[SEARCH_PROMPT_SLOT_OFF + 1..e];
  }

  /** A query holding a ':' past its first character is cut at that ':'. */
  lemma SearchTextTruncatesAtColon(a: string, b: string, rest: string)
    requires a != []
    requires forall i :: 1 <= i < |a| ==> a[i] != ':'
    ensures SearchTextOf(SearchPrompt(a + ":" + b) + rest) == a
  {
    var q := a + ":" + b;
    var line := SearchPrompt(q) + rest;
    var e := SEARCH_PROMPT_SLOT_OFF + 1 + |a|;
    assert line[SEARCH_PROMPT_SLOT_OFF + 1..SEARCH_PROMPT_SLOT_OFF + 1 + |q|] == q;
    assert line[e] == q[|a|] == ':';
    forall i | SEARCH_PROMPT_SLOT_OFF + 2 <= i < e ensures line[i] != ':' {
      assert line[i] == q[i - (SEARCH_PROMPT_SLOT_OFF + 1)] == a[i - (SEARCH_PROMPT_SLOT_OFF + 1)];
    }
    assert FindFrom(line, ':', SEARCH_PROMPT_SLOT_OFF + 2) == Some(e);
    assert line[SEARCH_PROMPT_SLOT_OFF + 1..e] == q[..|a|] == a;
  }

  /** With an empty query the ':' of the prompt sits at index 19, which is not
      tested, so the slot runs on into the text after the prompt up to its
      first ':' (and is empty only when that text has none). */
  lemma SearchTextOfEmptyQuery(rest: string)
    ensures SearchTextOf(SEARCH_PROMPT + rest) ==
              match FindFrom(rest, ':', 0)
              case None => []
              case Some(k) => [':'] + rest[..k]
  {
    var line := SEARCH_PROMPT + rest;
    var s := SEARCH_PROMPT_SLOT_OFF + 1;
    assert |line| > s && line[s] == ':';
    match FindFrom(rest, ':', 0)
    case None =>
      forall i | s + 1 <= i < |line| ensures line[i] != ':' {
        assert line[i] == rest[i - |SEARCH_PROMPT|];
      }
    case Some(k) =>
      assert line[s + 1 + k] == rest[k];
      forall i | s + 1 <= i < s + 1 + k ensures line[i] != ':' {
        assert line[i] == rest[i - |SEARCH_PROMPT|];
      }
      assert FindFrom(line, ':', s + 1) == Some(s + 1 + k);
      assert line[s..s + 1 + k] == [':'] + rest[..k];
  }

  /** `cursor_at`: a caret position capped at the end of the text. */
  function CursorAt(t: string, loc: nat): (r: nat)
    ensures r <= |t|
    ensures r == loc || (loc >= |t| && r == |t|)
  {
    if loc >= |t| then |t| else loc
  }

  /** `draw_prompt` on the text: start a new line unless the text is empty or
      already ends with one, then write the prompt. `DrawPromptShape` states
      what it produces. */
  function DrawPromptOn(t: string, prompt: string): string {
    (if |t| > 0 && t[|t| - 1] != '\n' then t + "\n" else t) + prompt
  }

  /** The drawn text extends the old one, ends with the prompt, puts a line
      break right before the prompt (unless the prompt is all there is), and
      so makes the prompt the start of the last line. */
  lemma DrawPromptShape(t: string, prompt: string)
    ensures var r := DrawPromptOn(t, prompt);
            && StartsWith(r, t) && EndsWith(r, prompt)
            && |r| == |t| + |prompt| + (if |t| > 0 && t[|t| - 1] != '\n' then 1 else 0)
            && (|r| > |prompt| ==> r[|r| - |prompt| - 1] == '\n')
            && (NoNewline(prompt) ==> LastLineOffset(r) == |r| - |prompt|)
  {
    var r := DrawPromptOn(t, prompt);
    assert r[|r| - |prompt|..] == prompt;
    PromptStartsLastLine(r, prompt);
  }

  lemma PromptStartsLastLine(r: string, prompt: string)
    requires |prompt| <= |r| && r[|r| - |prompt|..] == prompt
    requires |r| == |prompt| || r[|r| - |prompt| - 1] == '\n'
    ensures NoNewline(prompt) ==> LastLineOffset(r) == |r| - |prompt|
  {
    if NoNewline(prompt) {
      LastLineOffsetUnique(r, |r| - |prompt|);
    }
  }

  /** The text effect of `enter_search_mode` / `exit_search_mode`: cut the
      text back to the start of its last line and draw `prompt` there. */
  function Redraw(t: string, prompt: string): (r: string)
    ensures r == t[..LastLineOffset(t)] + prompt
  {
    DrawPromptShape(Truncate(t, LastLineOffset(t)), prompt);
    DrawPromptOn(Truncate(t, LastLineOffset(t)), prompt)
  }

  /** A prompt without a line break redrawn on the last line leaves that
      line starting where it did. */
  lemma RedrawKeepsLastLine(t: string, prompt: string)
    requires NoNewline(prompt)
    ensures LastLineOffset(Redraw(t, prompt)) == LastLineOffset(t)
  {
    DrawPromptShape(Truncate(t, LastLineOffset(t)), prompt);
  }

  /** Entering search and leaving it again puts the saved prompt on the last
      line and drops whatever followed the old prompt there. */
  lemma SearchRoundTripDropsLine(t: string, saved: string)
    ensures Redraw(Redraw(t, SEARCH_PROMPT), saved) == t[..LastLineOffset(t)] + saved
  {
    assert NoNewline(SEARCH_PROMPT);
    RedrawKeepsLastLine(t, SEARCH_PROMPT);
  }

  /** A non-empty prompt without a line break, redrawn on the last line,
      leaves the editable line empty. */
  lemma RedrawnLineIsEmpty(t: string, prompt: string)
    requires prompt != [] && NoNewline(prompt)
    ensures GetLastLine(Redraw(t, prompt), prompt) == []
  {
    var off := LastLineOffset(t);
    LastLineOfOneLine(prompt);
    if off > 0 {
      LastLineAppend(t[..off], prompt);
    } else {
      assert Redraw(t, prompt) == prompt;
    }
    assert prompt[..|prompt|] == prompt;
  }

  /** Entering search and leaving it again while the last line is exactly the
      saved prompt gives back the text unchanged. */
  lemma SearchRoundTripText(t: string, saved: string)
    requires t[LastLineOffset(t)..] == saved
    ensures Redraw(Redraw(t, SEARCH_PROMPT), saved) == t
  {
    assert NoNewline(SEARCH_PROMPT);
    RedrawKeepsLastLine(t, SEARCH_PROMPT);
  }

  /** The text left when `history_back` / ArrowDown remove the editable line:
      `text.strip_suffix(get_last_line()).unwrap_or("")`. */
  function ClearEditable(t: string, prompt: string): string {
    UnwrapOr(StripSuffix(t, GetLastLine(t, prompt)), [])
  }

  /** What clearing leaves: the text up to and including the prompt when the
      last line is an open prompt line; the text itself when the last line
      does not start with the prompt; nothing when the text ends with a line
      break and the editable part is not empty. */
  lemma ClearEditableShape(t: string, prompt: string)
    ensures var r := ClearEditable(t, prompt);
            && ((t == [] || t[|t| - 1] != '\n') && StartsWith(LastLine(t), prompt) ==>
                  r == t[..LastLineOffset(t)] + prompt)
            && (!StartsWith(LastLine(t), prompt) ==> r == t)
            && (t != [] && t[|t| - 1] == '\n' && GetLastLine(t, prompt) != [] ==> r == [])
  {
    EditableIsSuffix(t, prompt);
  }

  /** Where the editable line can be stripped off the text, and where not. */
  lemma EditableIsSuffix(t: string, prompt: string)
    ensures (t == [] || t[|t| - 1] != '\n') && StartsWith(LastLine(t), prompt) ==>
              t == t[..LastLineOffset(t)] + prompt + GetLastLine(t, prompt)
    ensures t != [] && t[|t| - 1] == '\n' && GetLastLine(t, prompt) != [] ==>
              !EndsWith(t, GetLastLine(t, prompt))
  {
    if (t == [] || t[|t| - 1] != '\n') && StartsWith(LastLine(t), prompt) {
      EditableAfterPrompt(t, prompt);
    }
    if t != [] && t[|t| - 1] == '\n' && GetLastLine(t, prompt) != [] {
      EditableNotAfterBreak(t, prompt);
    }
  }

  lemma EditableAfterPrompt(t: string, prompt: string)
    requires (t == [] || t[|t| - 1] != '\n') && StartsWith(LastLine(t), prompt)
    ensures t == t[..LastLineOffset(t)] + prompt + GetLastLine(t, prompt)
  {
    var off, line, g := LastLineOffset(t), LastLine(t), GetLastLine(t, prompt);
    assert line == t[off..];
    assert prompt + g == line;
    assert t == t[..off] + line;
    assert t[..off] + prompt + g == t[..off] + (prompt + g);
  }

  lemma EditableNotAfterBreak(t: string, prompt: string)
    requires t != [] && t[|t| - 1] == '\n' && GetLastLine(t, prompt) != []
    ensures !EndsWith(t, GetLastLine(t, prompt))
  {
    var g := GetLastLine(t, prompt);
    assert NoNewline(g) && g[|g| - 1] != '\n';
    assert |g| <= |t| ==> t[|t| - |g|..][|g| - 1] == t[|t| - 1];
  }

  /** After `sync_response` appends a block and a fresh (non-empty,
      single-line) prompt, the editable line is empty. */
  lemma FreshPromptLineIsEmpty(t: string, data: string, prompt: string)
    requires prompt != [] && NoNewline(prompt)
    ensures GetLastLine(t + "\n" + data + "\n" + prompt, prompt) == []
  {
    var a := t + "\n" + data + "\n";
    assert a + prompt == t + "\n" + data + "\n" + prompt;
    LastLineAppend(a, prompt);
    LastLineOffsetUnique(prompt, 0);
    assert LastLine(prompt) == prompt[0..];
  }

  datatype Correction = Correction(cursor: Option<nat>, newLine: bool)

  /** `cursor < last_off + prompt_len - 1` in `usize` as a release build
      computes it: when both terms are 0 the subtraction wraps around and
      every caret is below the bound (a debug build panics there instead). */
  predicate BeforePrompt(lastOff: nat, promptLen: nat, caret: nat) {
    if lastOff + promptLen == 0 then true else caret < lastOff + promptLen - 1
  }

  /** The caret fix-up of `ConsoleWindow::ui`, lifted out of the widget code:
      given the caret the widget reports (if any), the caret to force (if
      any) and the new value of the `new_line` flag. */
  function CaretCorrection(t: string, promptLen: nat, search: Option<string>, newLine: bool,
                           caret: Option<nat>): (r: Correction)
    ensures r.cursor.Some? ==> r.cursor.value <= |t|
    ensures search.None? ==> !r.newLine
    ensures search.None? && newLine ==> r.cursor == Some(|t|)
    ensures search.None? && !newLine ==>
              (r.cursor.Some? <==> caret.Some? && BeforePrompt(LastLineOffset(t), promptLen, caret.value))
    ensures search.None? && r.cursor.Some? ==> r.cursor == Some(|t|)
    ensures search.Some? ==> r.newLine == newLine
    ensures search.Some? ==>
              var lo := LastLineOffset(t) + SEARCH_PROMPT_SLOT_OFF + 1;
              var hi := LastLineOffset(t) + |SEARCH_PROMPT| + |GetSearchText(t)|;
              && (r.cursor.None? <==> caret.None? || lo <= caret.value <= hi)
              && (caret.Some? && caret.value < lo ==> r.cursor == Some(CursorAt(t, lo)))
              && (caret.Some? && caret.value > hi ==> r.cursor == Some(CursorAt(t, hi - 1)))
  {
    var off := LastLineOffset(t);
    match search
    case Some(_) =>
      var fix :=
        match caret
        case None => None
        case Some(c) =>
          if c < off + SEARCH_PROMPT_SLOT_OFF + 1 then Some(CursorAt(t, off + SEARCH_PROMPT_SLOT_OFF + 1))
          else
            var st := GetSearchText(t);
            if c > off + |SEARCH_PROMPT| + |st| then Some(CursorAt(t, off + SEARCH_PROMPT_SLOT_OFF + |st| + 1))
            else None;
      Correction(fix, newLine)
    case None =>
      var fix :=
        match caret
        case None => None
        case Some(c) => if BeforePrompt(off, promptLen, c) then Some(|t|) else None;
      if newLine then Correction(Some(|t|), false) else Correction(fix, false)
  }
}
