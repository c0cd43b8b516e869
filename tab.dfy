/** Tab completion of `ConsoleWindow`: the quote-aware tokenizer
    `digest_line`, the n-th match selection of `fs_tab_complete` over a
    directory listing, and the cycling state machine of `tab_complete`. */
module Tab {
  import opened RustStr
  import opened Transcript

  /** `tab_quote`. */
  const QUOTE: char := '"'

  /** Rejoin tokens with single spaces (the inverse the tokenizer respects). */
  function JoinSpace(xs: seq<string>): string
    decreases |xs|
  {
    if xs == [] then []
    else if |xs| == 1 then xs[0]
    else JoinSpace(xs[..|xs| - 1]) + " " + xs[|xs| - 1]
  }

  /** Joining a first token in front of a non-empty list. */
  lemma {:induction false} JoinSpaceCons(a: string, xs: seq<string>)
    requires xs != []
    ensures JoinSpace([a] + xs) == a + " " + JoinSpace(xs)
    decreases |xs|
  {
    var ys := [a] + xs;
    if |xs| == 1 {
      assert ys[..1] == [a];
    } else {
      var init := xs[..|xs| - 1];
      assert ys[..|ys| - 1] == [a] + init;
      JoinSpaceCons(a, init);
    }
  }

  /** Rejoining the words of a line with single spaces never makes it
      longer: each gap between two words holds at least one whitespace. */
  lemma {:induction false} JoinedWordsFit(s: string)
    ensures |JoinSpace(SplitAsciiWhitespace(s))| <= |s|
    decreases |s|
  {
    if s != [] {
      if IsAsciiWhitespace(s[0]) {
        JoinedWordsFit(s[1..]);
      } else {
        var n := WordLength(s);
        var rest := SplitAsciiWhitespace(s[n..]);
        assert SplitAsciiWhitespace(s) == [s[..n]] + rest;
        if rest == [] {
          assert [s[..n]] + rest == [s[..n]];
        } else {
          assert s[n..] != [] && IsAsciiWhitespace(s[n..][0]);
          assert s[n..][1..] == s[n + 1..];
          JoinedWordsFit(s[n + 1..]);
          JoinSpaceCons(s[..n], rest);
        }
      }
    }
  }

  /** Every token is no longer than the tokens rejoined. */
  lemma {:induction false} TokenFitsJoin(xs: seq<string>, k: nat)
    requires k < |xs|
    ensures |xs[k]| <= |JoinSpace(xs)|
    decreases |xs|
  {
    if k < |xs| - 1 {
      TokenFitsJoin(xs[..|xs| - 1], k);
    }
  }

  /** The merge test of `digest_line` for raw chunk `i`: it ends with the
      quote but does not start with one, and the previous raw chunk starts
      with the quote but does not end with one. */
  predicate MergesWithPrevious(chunks: seq<string>, i: nat)
    requires i < |chunks|
  {
    && EndsWithChar(chunks[i], QUOTE) && !StartsWithChar(chunks[i], QUOTE) && i > 0
    && StartsWithChar(chunks[i - 1], QUOTE) && !EndsWithChar(chunks[i - 1], QUOTE)
  }

  /** How many chunks merge into their predecessor. */
  function MergeCount(chunks: seq<string>): nat
    decreases |chunks|
  {
    if chunks == [] then 0
    else MergeCount(chunks[..|chunks| - 1]) + if MergesWithPrevious(chunks, |chunks| - 1) then 1 else 0
  }

  /** `digest_line` as written, over the chunks of the line: a merging chunk
      is appended to `result[i-1]`, with `i` the RAW chunk index; `None` is
      the out-of-range panic of that index. */
  function DigestAsWritten(chunks: seq<string>): Option<seq<string>>
    decreases |chunks|
  {
    if chunks == [] then Some([])
    else
      var i := |chunks| - 1;
      match DigestAsWritten(chunks[..i])
      case None => None
      case Some(res) =>
        if MergesWithPrevious(chunks, i) then
          if i - 1 < |res| then Some(res[i - 1 := res[i - 1] + " " + chunks[i]]) else None
        else Some(res + [chunks[i]])
  }

  /** `digest_line` with the merge going into the last token produced, which
      is what `result[i-1]` addresses as long as nothing has merged yet. */
  function Digest(chunks: seq<string>): (r: seq<string>)
    ensures |r| == |chunks| - MergeCount(chunks)
    decreases |chunks|
  {
    if chunks == [] then []
    else
      var i := |chunks| - 1;
      var res := Digest(chunks[..i]);
      if MergesWithPrevious(chunks, i) then
        res[..|res| - 1] + [res[|res| - 1] + " " + chunks[i]]
      else res + [chunks[i]]
  }

  lemma {:induction false} JoinSpaceSnoc(xs: seq<string>, y: string)
    requires xs != []
    ensures JoinSpace(xs + [y]) == JoinSpace(xs) + " " + y
  {
    assert (xs + [y])[..|xs|] == xs;
  }

  /** Appending a chunk to the last token, after a space, extends the join
      the same way as adding the chunk as a token of its own. */
  lemma {:induction false} JoinSpaceMergeLast(res: seq<string>, c: string)
    requires res != []
    ensures JoinSpace(res[..|res| - 1] + [res[|res| - 1] + " " + c]) == JoinSpace(res) + " " + c
  {
    var m := |res| - 1;
    var x := res[m] + " " + c;
    if m > 0 {
      assert res == res[..m] + [res[m]];
      var a := JoinSpace(res[..m]);
      JoinSpaceSnoc(res[..m], res[m]);
      JoinSpaceSnoc(res[..m], x);
      assert a + " " + x == (a + " " + res[m]) + " " + c;
    } else {
      assert res[..m] + [x] == [x];
    }
  }

  lemma MergeCountBelowLength(chunks: seq<string>)
    requires chunks != []
    ensures MergeCount(chunks) < |chunks|
  {
    if |chunks| > 1 {
      MergeCountBelowLength(chunks[..|chunks| - 1]);
    }
  }

  /** Tokens rejoined with single spaces give the chunks rejoined: merging
      only puts back the single space between two chunks. */
  lemma {:induction false} DigestKeepsJoin(chunks: seq<string>)
    ensures JoinSpace(Digest(chunks)) == JoinSpace(chunks)
    decreases |chunks|
  {
    if |chunks| == 1 {
      assert chunks[..0] == [];
    } else if chunks != [] {
      var i := |chunks| - 1;
      var c := chunks[i];
      var res := Digest(chunks[..i]);
      DigestKeepsJoin(chunks[..i]);
      MergeCountBelowLength(chunks[..i]);
      assert chunks == chunks[..i] + [c];
      JoinSpaceSnoc(chunks[..i], c);
      if MergesWithPrevious(chunks, i) {
        JoinSpaceMergeLast(res, c);
      } else {
        JoinSpaceSnoc(res, c);
      }
    }
  }

  /** Non-empty chunks give non-empty tokens, and at least one token. */
  lemma {:induction false} DigestNonEmpty(chunks: seq<string>)
    requires forall k :: 0 <= k < |chunks| ==> chunks[k] != []
    ensures chunks != [] ==> Digest(chunks) != []
    ensures forall k :: 0 <= k < |Digest(chunks)| ==> Digest(chunks)[k] != []
    decreases |chunks|
  {
    if chunks != [] {
      var i := |chunks| - 1;
      DigestNonEmpty(chunks[..i]);
    }
  }

  /** The as-written tokenizer fails exactly when a second chunk merges,
      and agrees with `Digest` whenever it does not fail. */
  lemma {:induction false} DigestAsWrittenFailsOnSecondMerge(chunks: seq<string>)
    ensures DigestAsWritten(chunks).Some? <==> MergeCount(chunks) <= 1
    ensures DigestAsWritten(chunks).Some? ==> DigestAsWritten(chunks).value == Digest(chunks)
    decreases |chunks|
  {
    if chunks != [] {
      var i := |chunks| - 1;
      DigestAsWrittenFailsOnSecondMerge(chunks[..i]);
      match DigestAsWritten(chunks[..i])
      case None =>
      case Some(res) =>
        if MergesWithPrevious(chunks, i) && i - 1 < |res| {
          assert |res| == i && MergeCount(chunks[..i]) == 0;
          assert res[i - 1 := res[i - 1] + " " + chunks[i]] == res[..i - 1] + [res[i - 1] + " " + chunks[i]];
        }
    }
  }

  /** Chunks without any quote character are returned as they are. */
  lemma {:induction false} DigestWithoutQuotes(chunks: seq<string>)
    requires forall k, j :: 0 <= k < |chunks| && 0 <= j < |chunks[k]| ==> chunks[k][j] != QUOTE
    ensures Digest(chunks) == chunks
    decreases |chunks|
  {
    if chunks != [] {
      var i := |chunks| - 1;
      DigestWithoutQuotes(chunks[..i]);
      if |chunks[i]| > 0 {
        assert chunks[i][|chunks[i]| - 1] != QUOTE;
      }
      assert !MergesWithPrevious(chunks, i);
      assert chunks[..i] + [chunks[i]] == chunks;
    }
  }

  /** `digest_line` (with the merge target corrected). */
  method DigestLine(line: string) returns (result: seq<string>)
    ensures result == Digest(SplitAsciiWhitespace(line))
  {
    var chunks := SplitAsciiWhitespace(line);
    result := [];
    var i := 0;
    while i < |chunks|
      invariant i <= |chunks|
      invariant result == Digest(chunks[..i])
    {
      var chunk := chunks[i];
      assert chunks[..i + 1][..i] == chunks[..i];
      assert MergesWithPrevious(chunks[..i + 1], i) == MergesWithPrevious(chunks, i);
      ghost var next := Digest(chunks[..i + 1]);
      if EndsWithChar(chunk, QUOTE) && !StartsWithChar(chunk, QUOTE) && i > 0
         && StartsWithChar(chunks[i - 1], QUOTE) && !EndsWithChar(chunks[i - 1], QUOTE) {
        result := result[..|result| - 1] + [result[|result| - 1] + " " + chunk];
      } else {
        result := result + [chunk];
      }
      assert result == next;
      i := i + 1;
    }
    assert chunks[..i] == chunks;
  }

  /** A line without quotes tokenizes as `split_ascii_whitespace`. */
  lemma DigestLineWithoutQuotes(line: string)
    requires forall j :: 0 <= j < |line| ==> line[j] != QUOTE
    ensures Digest(SplitAsciiWhitespace(line)) == SplitAsciiWhitespace(line)
  {
    DigestWithoutQuotes(SplitAsciiWhitespace(line));
  }

  /** The tokens of a line are never longer than the line. */
  lemma TokensFitLine(line: string, k: nat)
    requires k < |Digest(SplitAsciiWhitespace(line))|
    ensures |Digest(SplitAsciiWhitespace(line))[k]| <= |line|
  {
    TokenFitsJoin(Digest(SplitAsciiWhitespace(line)), k);
    DigestKeepsJoin(SplitAsciiWhitespace(line));
    JoinedWordsFit(line);
  }

  lemma {:induction false} WordLengthOfWord(w: string, rest: string)
    requires forall i :: 0 <= i < |w| ==> !IsAsciiWhitespace(w[i])
    requires rest == [] || IsAsciiWhitespace(rest[0])
    ensures WordLength(w + rest) == |w|
    decreases |w|
  {
    if w != [] {
      assert (w + rest)[1..] == w[1..] + rest;
      WordLengthOfWord(w[1..], rest);
    }
  }

  /** A word followed by whitespace (or nothing) is split off whole. */
  lemma {:induction false} SplitWord(w: string, rest: string)
    requires w != [] && forall i :: 0 <= i < |w| ==> !IsAsciiWhitespace(w[i])
    requires rest == [] || IsAsciiWhitespace(rest[0])
    ensures SplitAsciiWhitespace(w + rest) == [w] + SplitAsciiWhitespace(rest)
  {
    WordLengthOfWord(w, rest);
    assert (w + rest)[..|w|] == w && (w + rest)[|w|..] == rest;
  }

  lemma {:induction false} SplitSpace(rest: string)
    ensures SplitAsciiWhitespace(" " + rest) == SplitAsciiWhitespace(rest)
  {
    assert (" " + rest)[1..] == rest;
  }

  /** A word, a space, and the rest of the line. */
  lemma {:induction false} SplitCons(w: string, rest: string)
    requires w != [] && forall i :: 0 <= i < |w| ==> !IsAsciiWhitespace(w[i])
    ensures SplitAsciiWhitespace(w + " " + rest) == [w] + SplitAsciiWhitespace(rest)
  {
    SplitWord(w, " " + rest);
    SplitSpace(rest);
    assert w + " " + rest == w + (" " + rest);
  }

  lemma {:induction false} SplitOne(w: string)
    requires w != [] && forall i :: 0 <= i < |w| ==> !IsAsciiWhitespace(w[i])
    ensures SplitAsciiWhitespace(w) == [w]
  {
    SplitWord(w, []);
    assert w + [] == w;
  }

  /** Splits a line of three words separated by single spaces. */
  lemma {:induction false} SplitThree(a: string, b: string, c: string)
    requires a != [] && forall i :: 0 <= i < |a| ==> !IsAsciiWhitespace(a[i])
    requires b != [] && forall i :: 0 <= i < |b| ==> !IsAsciiWhitespace(b[i])
    requires c != [] && forall i :: 0 <= i < |c| ==> !IsAsciiWhitespace(c[i])
    ensures SplitAsciiWhitespace(a + " " + b + " " + c) == [a, b, c]
  {
    SplitOne(c);
    SplitCons(b, c);
    SplitCons(a, b + " " + c);
    assert a + " " + b + " " + c == a + " " + (b + " " + c);
  }

  /** `digest_line` test case: no quotes: plain words. */
  lemma DigestLinePlain()
    ensures Digest(SplitAsciiWhitespace("cd foo")) == ["cd", "foo"]
  {
    DigestTwoNoMerge("cd foo", "cd", "foo");
  }

  lemma {:induction false} DigestTwoNoMerge(line: string, a: string, b: string)
    requires line == a + " " + b
    requires a != [] && forall i :: 0 <= i < |a| ==> !IsAsciiWhitespace(a[i])
    requires b != [] && forall i :: 0 <= i < |b| ==> !IsAsciiWhitespace(b[i])
    requires !MergesWithPrevious([a, b], 1)
    ensures Digest(SplitAsciiWhitespace(line)) == [a, b]
  {
    SplitOne(b);
    SplitCons(a, b);
    DigestOfTwo(a, b);
  }

  lemma DigestOfTwo(a: string, b: string)
    requires !MergesWithPrevious([a, b], 1)
    ensures Digest([a, b]) == [a, b]
  {
    assert [a, b][..1] == [a] && [a][..0] == [];
  }

  /** `digest_line` test case: a quoted argument with a space is one token. */
  lemma DigestLineQuotedPair()
    ensures Digest(SplitAsciiWhitespace("cd \"foo bar\"")) == ["cd", "\"foo bar\""]
  {
    DigestThreeMergeLast("cd \"foo bar\"", "cd", "\"foo", "bar\"", "\"foo bar\"");
  }

  /** `digest_line` test case: an unclosed quote does not merge. */
  lemma DigestLineOpenQuote()
    ensures Digest(SplitAsciiWhitespace("cd \"foo bar")) == ["cd", "\"foo", "bar"]
  {
    DigestThreeNoMerge("cd \"foo bar", "cd", "\"foo", "bar");
  }

  /** `digest_line` test case: a closing quote without an opening one does not merge. */
  lemma DigestLineCloseQuoteOnly()
    ensures Digest(SplitAsciiWhitespace("cd foo bar\"")) == ["cd", "foo", "bar\""]
  {
    DigestThreeNoMerge("cd foo bar\"", "cd", "foo", "bar\"");
  }

  /** `digest_line` test case: only two adjacent chunks ever merge. */
  lemma DigestLineQuoteSpansThree()
    ensures Digest(SplitAsciiWhitespace("\"cd foo bar\"")) == ["\"cd", "foo", "bar\""]
  {
    DigestThreeNoMerge("\"cd foo bar\"", "\"cd", "foo", "bar\"");
  }

  /** `digest_line` test case: a quote at the end of a chunk does not open a quote. */
  lemma DigestLineQuoteAfterWord()
    ensures Digest(SplitAsciiWhitespace("cd\" foo bar\"")) == ["cd\"", "foo", "bar\""]
  {
    DigestThreeNoMerge("cd\" foo bar\"", "cd\"", "foo", "bar\"");
  }

  /** Three words, none merging. */
  lemma {:induction false} DigestThreeNoMerge(line: string, a: string, b: string, c: string)
    requires line == a + " " + b + " " + c
    requires a != [] && forall i :: 0 <= i < |a| ==> !IsAsciiWhitespace(a[i])
    requires b != [] && forall i :: 0 <= i < |b| ==> !IsAsciiWhitespace(b[i])
    requires c != [] && forall i :: 0 <= i < |c| ==> !IsAsciiWhitespace(c[i])
    requires !MergesWithPrevious([a, b, c], 1) && !MergesWithPrevious([a, b, c], 2)
    ensures Digest(SplitAsciiWhitespace(line)) == [a, b, c]
  {
    DigestThree(a, b, c);
  }

  /** Three words, the last merging into the middle one. */
  lemma {:induction false} DigestThreeMergeLast(line: string, a: string, b: string, c: string, bc: string)
    requires line == a + " " + b + " " + c && bc == b + " " + c
    requires a != [] && forall i :: 0 <= i < |a| ==> !IsAsciiWhitespace(a[i])
    requires b != [] && forall i :: 0 <= i < |b| ==> !IsAsciiWhitespace(b[i])
    requires c != [] && forall i :: 0 <= i < |c| ==> !IsAsciiWhitespace(c[i])
    requires MergesWithPrevious([a, b, c], 2)
    ensures Digest(SplitAsciiWhitespace(line)) == [a, bc]
  {
    DigestThree(a, b, c);
  }

  /** The tokens of three words: the last one merges into the middle one
      exactly under the merge test. */
  lemma {:induction false} DigestThree(a: string, b: string, c: string)
    requires a != [] && forall i :: 0 <= i < |a| ==> !IsAsciiWhitespace(a[i])
    requires b != [] && forall i :: 0 <= i < |b| ==> !IsAsciiWhitespace(b[i])
    requires c != [] && forall i :: 0 <= i < |c| ==> !IsAsciiWhitespace(c[i])
    ensures var chunks := [a, b, c];
            Digest(SplitAsciiWhitespace(a + " " + b + " " + c)) ==
              if !MergesWithPrevious(chunks, 1) && MergesWithPrevious(chunks, 2) then [a, b + " " + c]
              else if !MergesWithPrevious(chunks, 1) then [a, b, c]
              else [a + " " + b, c]
  {
    SplitThree(a, b, c);
    DigestOfThree(a, b, c);
  }

  lemma DigestOfThree(a: string, b: string, c: string)
    ensures var chunks := [a, b, c];
            Digest(chunks) ==
              if !MergesWithPrevious(chunks, 1) && MergesWithPrevious(chunks, 2) then [a, b + " " + c]
              else if !MergesWithPrevious(chunks, 1) then [a, b, c]
              else [a + " " + b, c]
  {
    var chunks := [a, b, c];
    assert chunks[..2] == [a, b] && [a, b][..1] == [a] && [a][..0] == [];
    assert Digest([a]) == [a];
    assert MergesWithPrevious([a, b], 1) == MergesWithPrevious(chunks, 1);
    assert Digest([a, b]) == if MergesWithPrevious(chunks, 1) then [a + " " + b] else [a, b];
    assert !MergesWithPrevious(chunks, 1) || !MergesWithPrevious(chunks, 2);
  }

  /** Two quoted arguments in a row: the second merge indexes past the end
      of the result, so the source panics where one more token was meant. */
  lemma TwoQuotedArgumentsPanic()
    ensures DigestAsWritten(SplitAsciiWhitespace("cd \"a b\" \"c d\"")).None?
    ensures Digest(SplitAsciiWhitespace("cd \"a b\" \"c d\"")) == ["cd", "\"a b\"", "\"c d\""]
  {
    DigestFiveTwoMerges("cd \"a b\" \"c d\"", "cd", "\"a", "b\"", "\"c", "d\"", "\"a b\"", "\"c d\"");
  }

  /** Five words where the third and the fifth merge: the as-written
      tokenizer fails on the second merge. */
  lemma {:induction false} DigestFiveTwoMerges(line: string, a: string, b: string, c: string, d: string, e: string,
                                               bc: string, de: string)
    requires line == a + " " + (b + " " + (c + " " + d + " " + e))
    requires bc == b + " " + c && de == d + " " + e
    requires a != [] && forall i :: 0 <= i < |a| ==> !IsAsciiWhitespace(a[i])
    requires b != [] && forall i :: 0 <= i < |b| ==> !IsAsciiWhitespace(b[i])
    requires c != [] && forall i :: 0 <= i < |c| ==> !IsAsciiWhitespace(c[i])
    requires d != [] && forall i :: 0 <= i < |d| ==> !IsAsciiWhitespace(d[i])
    requires e != [] && forall i :: 0 <= i < |e| ==> !IsAsciiWhitespace(e[i])
    requires var cs := [a, b, c, d, e];
             !MergesWithPrevious(cs, 1) && MergesWithPrevious(cs, 2) && !MergesWithPrevious(cs, 3)
             && MergesWithPrevious(cs, 4)
    ensures DigestAsWritten(SplitAsciiWhitespace(line)).None?
    ensures Digest(SplitAsciiWhitespace(line)) == [a, bc, de]
  {
    SplitFive(a, b, c, d, e);
    TwoMergesOfFive([a, b, c, d, e], bc, de);
  }

  lemma {:induction false} SplitFive(a: string, b: string, c: string, d: string, e: string)
    requires a != [] && forall i :: 0 <= i < |a| ==> !IsAsciiWhitespace(a[i])
    requires b != [] && forall i :: 0 <= i < |b| ==> !IsAsciiWhitespace(b[i])
    requires c != [] && forall i :: 0 <= i < |c| ==> !IsAsciiWhitespace(c[i])
    requires d != [] && forall i :: 0 <= i < |d| ==> !IsAsciiWhitespace(d[i])
    requires e != [] && forall i :: 0 <= i < |e| ==> !IsAsciiWhitespace(e[i])
    ensures SplitAsciiWhitespace(a + " " + (b + " " + (c + " " + d + " " + e))) == [a, b, c, d, e]
  {
    var cde := c + " " + d + " " + e;
    SplitThree(c, d, e);
    SplitCons(b, cde);
    assert [b] + [c, d, e] == [b, c, d, e];
    SplitCons(a, b + " " + cde);
    assert [a] + [b, c, d, e] == [a, b, c, d, e];
  }

  lemma {:induction false} TwoMergesOfFive(cs: seq<string>, bc: string, de: string)
    requires |cs| == 5 && bc == cs[1] + " " + cs[2] && de == cs[3] + " " + cs[4]
    requires !MergesWithPrevious(cs, 1) && MergesWithPrevious(cs, 2) && !MergesWithPrevious(cs, 3)
             && MergesWithPrevious(cs, 4)
    ensures DigestAsWritten(cs).None?
    ensures Digest(cs) == [cs[0], bc, de]
  {
    var c1, c2, c3, c4 := cs[..1], cs[..2], cs[..3], cs[..4];
    assert c4[..3] == c3 && c3[..2] == c2 && c2[..1] == c1 && c1[..0] == [];
    assert Digest(c1) == [cs[0]] && MergeCount(c1) == 0;
    assert Digest(c2) == [cs[0], cs[1]] && MergeCount(c2) == 0;
    assert Digest(c3) == [cs[0], bc] && MergeCount(c3) == 1;
    assert Digest(c4) == [cs[0], bc, cs[3]] && MergeCount(c4) == 1;
    assert MergeCount(cs) == 2;
    DigestAsWrittenFailsOnSecondMerge(cs);
  }

  /** A directory listing as `read_dir` yields it: the entry paths in order,
      and whether the directory was reached by falling back to "./". */
  datatype Listing = Listing(entries: seq<string>, addedDot: bool)

  const DOT_DIR: string := "./"

  /** The path an entry is compared and returned as: without the "./" when
      that was added; `None` when it cannot be stripped. */
  function Rendered(path: string, addedDot: bool): (r: Option<string>)
    ensures addedDot ==> (r.Some? <==> StartsWith(path, DOT_DIR))
    ensures addedDot && r.Some? ==> DOT_DIR + r.value == path
    ensures !addedDot ==> r == Some(path)
  {
    if addedDot then StripPrefix(path, DOT_DIR) else Some(path)
  }

  /** The selection loop of `fs_tab_complete`: the `nth` (from 0) entry whose
      rendered path starts with `search`; an entry that cannot be rendered
      ends the search with nothing. */
  function Select(entries: seq<string>, addedDot: bool, search: string, nth: nat): (r: Option<string>)
    ensures r.Some? ==> StartsWith(r.value, search)
    decreases |entries|
  {
    if entries == [] then None
    else match Rendered(entries[0], addedDot)
      case None => None
      case Some(p) =>
        if StartsWith(p, search) then
          if nth == 0 then Some(p) else Select(entries[1..], addedDot, search, nth - 1)
        else Select(entries[1..], addedDot, search, nth)
  }

  /** `fs_tab_complete` once the directory is resolved and read; `None` for
      a directory that does not resolve or cannot be read. */
  function FsSelect(listing: Option<Listing>, search: string, nth: nat): (r: Option<string>)
    ensures r.Some? ==> StartsWith(r.value, search)
  {
    match listing
    case None => None
    case Some(l) => Select(l.entries, l.addedDot, search, nth)
  }

  /** Every entry can be rendered (as `read_dir("./")` guarantees). */
  predicate WellFormed(l: Listing) {
    l.addedDot ==> forall k :: 0 <= k < |l.entries| ==> StartsWith(l.entries[k], DOT_DIR)
  }

  /** The rendered entries that start with `search`, in listing order. */
  function Matching(entries: seq<string>, addedDot: bool, search: string): (r: seq<string>)
    requires addedDot ==> forall k :: 0 <= k < |entries| ==> StartsWith(entries[k], DOT_DIR)
    ensures |r| <= |entries|
    ensures forall k :: 0 <= k < |r| ==> StartsWith(r[k], search)
    decreases |entries|
  {
    if entries == [] then []
    else
      var p := Rendered(entries[0], addedDot).value;
      (if StartsWith(p, search) then [p] else []) + Matching(entries[1..], addedDot, search)
  }

  /** On a listing whose entries all render, the selection is the `nth`
      match, and nothing once the matches run out. */
  lemma {:induction false} SelectIsNthMatch(entries: seq<string>, addedDot: bool, search: string, nth: nat)
    requires addedDot ==> forall k :: 0 <= k < |entries| ==> StartsWith(entries[k], DOT_DIR)
    ensures var m := Matching(entries, addedDot, search);
            Select(entries, addedDot, search, nth) == if nth < |m| then Some(m[nth]) else None
    decreases |entries|
  {
    if entries != [] {
      var p := Rendered(entries[0], addedDot).value;
      if StartsWith(p, search) {
        if nth > 0 {
          SelectIsNthMatch(entries[1..], addedDot, search, nth - 1);
        }
      } else {
        SelectIsNthMatch(entries[1..], addedDot, search, nth);
      }
    }
  }

  /** `fs_tab_complete` from the listing on: the loop counts `nth` down over
      the matching entries. */
  method FsTabComplete(listing: Option<Listing>, search: string, nth: nat) returns (r: Option<string>)
    ensures r == FsSelect(listing, search, nth)
  {
    if listing.None? {
      return None;
    }
    var entries, addedDot := listing.value.entries, listing.value.addedDot;
    var n := nth;
    var k := 0;
    while k < |entries|
      invariant k <= |entries|
      invariant Select(entries, addedDot, search, nth) == Select(entries[k..], addedDot, search, n)
    {
      assert entries[k..][1..] == entries[k + 1..];
      var retPath := entries[k];
      if addedDot {
        var stripped := StripPrefix(retPath, DOT_DIR);
        if stripped.None? {
          return None;
        }
        retPath := stripped.value;
      }
      if StartsWith(retPath, search) {
        if n == 0 {
          return Some(retPath);
        }
        n := n - 1;
      }
      k := k + 1;
    }
    return None;
  }

  datatype Pick = Pick(path: Option<string>, nth: nat)

  /** The retry loop of `tab_complete`: look up the `nth` match; when there
      is none and `nth` is not 0, wrap around and look up the first. */
  function TabPick(listing: Option<Listing>, search: string, nth: nat): (r: Pick)
    ensures r.path.Some? ==> StartsWith(r.path.value, search)
    ensures r.path.None? ==> r.nth == 0
    ensures r.nth == nth || r.nth == 0
  {
    match FsSelect(listing, search, nth)
    case Some(p) => Pick(Some(p), nth)
    case None => if nth == 0 then Pick(None, 0) else Pick(FsSelect(listing, search, 0), 0)
  }

  /** Cycling: with K matches, presses 0..K-1 pick the matches in order and
      any later `nth` wraps around to the first; with none, nothing. */
  lemma TabPickCycles(l: Listing, search: string, nth: nat)
    requires WellFormed(l)
    ensures var m := Matching(l.entries, l.addedDot, search);
            TabPick(Some(l), search, nth) ==
              if nth < |m| then Pick(Some(m[nth]), nth)
              else if m == [] then Pick(None, 0)
              else Pick(Some(m[0]), 0)
  {
    SelectIsNthMatch(l.entries, l.addedDot, search, nth);
    SelectIsNthMatch(l.entries, l.addedDot, search, 0);
  }

  /** How a completion is written into the buffer: wrapped in the quote
      when it holds a space. */
  function Quote(path: string): (r: string)
    ensures ' ' in path ==> r == [QUOTE] + path + [QUOTE]
    ensures ' ' !in path ==> r == path
  {
    if ' ' in path then [QUOTE] + path + [QUOTE] else path
  }

  /** The token `tab_complete` completes on the first press, as written:
      `args[args.len() - 1]` panics when the line has no token (and the
      tokenizer may panic before); the `is_empty` test after it. */
  datatype TabStart = Panicked | NoToken | Start(token: string)

  function FirstTokenAsWritten(line: string): (r: TabStart)
    ensures r.Panicked? <==>
              DigestAsWritten(SplitAsciiWhitespace(line)).None? || SplitAsciiWhitespace(line) == []
  {
    var chunks := SplitAsciiWhitespace(line);
    DigestAsWrittenFailsOnSecondMerge(chunks);
    DigestNonEmpty(chunks);
    match DigestAsWritten(chunks)
    case None => Panicked
    case Some(args) =>
      if |args| == 0 then Panicked
      else if args[|args| - 1] == [] then NoToken
      else Start(args[|args| - 1])
  }

  /** A line with nothing but whitespace makes the first Tab panic. */
  lemma BlankLinePanics(line: string)
    requires forall j :: 0 <= j < |line| ==> IsAsciiWhitespace(line[j])
    ensures FirstTokenAsWritten(line) == Panicked
  {
    BlankLineHasNoWords(line);
  }

  lemma {:induction false} BlankLineHasNoWords(line: string)
    requires forall j :: 0 <= j < |line| ==> IsAsciiWhitespace(line[j])
    ensures SplitAsciiWhitespace(line) == []
    decreases |line|
  {
    if line != [] {
      BlankLineHasNoWords(line[1..]);
    }
  }

  /** The `is_empty` test of the first press never succeeds: every token is
      non-empty, so the early return it guards is unreachable. */
  lemma AsWrittenNeverNoToken(line: string)
    ensures !FirstTokenAsWritten(line).NoToken?
  {
    var chunks := SplitAsciiWhitespace(line);
    DigestAsWrittenFailsOnSecondMerge(chunks);
    DigestNonEmpty(chunks);
  }

  /** The last token of the editable line, or `None` when it has none
      (where the source panics instead). */
  function LastToken(line: string): (r: Option<string>)
    ensures r.None? <==> SplitAsciiWhitespace(line) == []
    ensures r.Some? ==> r.value != [] && |r.value| <= |line|
  {
    var args := Digest(SplitAsciiWhitespace(line));
    DigestNonEmpty(SplitAsciiWhitespace(line));
    if args == [] then None
    else
      TokensFitLine(line, |args| - 1);
      Some(args[|args| - 1])
  }

  /** The first-press lookup of `tab_complete`: tokenize the editable line
      with `digest_line` and take its last token, if any. */
  method LastArg(line: string) returns (tok: Option<string>)
    ensures tok == LastToken(line)
  {
    var args := DigestLine(line);
    if args == [] {
      return None;
    }
    tok := Some(args[|args| - 1]);
  }

  /** Where the as-written first press does not panic, it starts from the
      same token as the corrected one. */
  lemma LastTokenAgrees(line: string)
    ensures FirstTokenAsWritten(line).Start? ==> LastToken(line) == Some(FirstTokenAsWritten(line).token)
    ensures FirstTokenAsWritten(line).Panicked? && LastToken(line).Some? ==>
              DigestAsWritten(SplitAsciiWhitespace(line)).None?
  {
    DigestAsWrittenFailsOnSecondMerge(SplitAsciiWhitespace(line));
  }

  /** The completion fields of `ConsoleWindow`. */
  datatype TabState = TabState(tabString: string, tabNth: nat, tabOffset: nat, tabQuoted: bool)

  datatype TabOutcome = TabOutcome(text: string, forceEnd: bool, tab: TabState)

  /** Two completion states with the same fields are the same. */
  lemma TabStateEq(a: TabState, b: TabState)
    requires a.tabString == b.tabString && a.tabNth == b.tabNth
    requires a.tabOffset == b.tabOffset && a.tabQuoted == b.tabQuoted
    ensures a == b
  {
  }

  /** The part of `tab_complete` before its loop: the first press (empty
      `tab_string`) takes the last token of the editable line as the prefix
      and remembers where it starts, or gives up when the line has no token;
      a later press asks for the next match. */
  function TabBegin(text: string, prompt: string, t: TabState): (r: Option<TabState>)
    ensures t.tabString != [] ==> r == Some(t.(tabNth := t.tabNth + 1))
    ensures t.tabString == [] && r.Some? ==> r.value.tabString != [] && r.value.tabOffset <= |text|
  {
    if t.tabString != [] then Some(t.(tabNth := t.tabNth + 1))
    else
      var tok := LastToken(GetLastLine(text, prompt));
      if tok.None? then None
      else Some(TabState(tok.value, 0, |text| - |tok.value|, false))
  }

  /** The loop of `tab_complete`: write the match `tab_nth` asks for (or,
      when there is none, the first one) from `tab_offset` on, quoted when
      it holds a space; without any match nothing changes but the count. */
  function TabCycle(text: string, forceEnd: bool, t: TabState,
                    listingFor: string -> Option<Listing>): (r: TabOutcome)
    ensures r.tab.tabString == t.tabString && r.tab.tabOffset == t.tabOffset
    ensures r.tab.tabNth == t.tabNth || r.tab.tabNth == 0
    ensures (r.text == text && r.forceEnd == forceEnd && r.tab.tabQuoted == t.tabQuoted)
            || (r.forceEnd
                && exists p :: StartsWith(p, t.tabString)
                               && r.text == Truncate(text, t.tabOffset) + Quote(p)
                               && r.tab.tabQuoted == (' ' in p))
  {
    var pick := TabPick(listingFor(t.tabString), t.tabString, t.tabNth);
    match pick.path
    case None => TabOutcome(text, forceEnd, t.(tabNth := pick.nth))
    case Some(p) =>
      TabOutcome(Truncate(text, t.tabOffset) + Quote(p), true, t.(tabNth := pick.nth, tabQuoted := ' ' in p))
  }

  /** `tab_complete` (with the blank-line case returning instead of
      panicking, and the tokenizer corrected). A match replaces everything
      from `tab_offset` on. */
  function TabStep(text: string, prompt: string, forceEnd: bool, t: TabState,
                   listingFor: string -> Option<Listing>): (r: TabOutcome)
    ensures t.tabString != [] ==>
              r.tab.tabString == t.tabString && r.tab.tabOffset == t.tabOffset
              && r.tab.tabNth in {t.tabNth + 1, 0}
    ensures t.tabString == [] ==> !r.tab.tabQuoted || r.text != text
    ensures (r.text == text && r.forceEnd == forceEnd)
            || (r.forceEnd
                && exists p :: StartsWith(p, r.tab.tabString)
                               && r.text == Truncate(text, r.tab.tabOffset) + Quote(p)
                               && r.tab.tabQuoted == (' ' in p))
  {
    match TabBegin(text, prompt, t)
    case None => TabOutcome(text, forceEnd, t.(tabQuoted := false))
    case Some(t1) => TabCycle(text, forceEnd, t1, listingFor)
  }

  /** The first press on a line with a last token starts a cycle on that
      token, from the text length minus the token length. */
  lemma FirstTabBegins(text: string, prompt: string, t: TabState, tok: string)
    requires t.tabString == [] && LastToken(GetLastLine(text, prompt)) == Some(tok)
    ensures |tok| <= |text|
    ensures TabBegin(text, prompt, t) == Some(TabState(tok, 0, |text| - |tok|, false))
  {
    var b := TabBegin(text, prompt, t);
    assert b.Some?;
    var v := b.value;
    assert v.tabString == tok && v.tabNth == 0 && v.tabOffset == |text| - |tok| && !v.tabQuoted;
    assert v == TabState(tok, 0, |text| - |tok|, false);
  }

  /** The first press on a line with a last token: the token becomes the
      prefix, `tab_offset` is the text length minus the token length (the
      start of the token when the text ends with it), and the first match
      (if any) is written from there. */
  lemma FirstTabStarts(text: string, prompt: string, forceEnd: bool, t: TabState,
                       listingFor: string -> Option<Listing>, tok: string, l: Listing)
    requires t.tabString == [] && LastToken(GetLastLine(text, prompt)) == Some(tok)
    requires listingFor(tok) == Some(l) && WellFormed(l)
    ensures var r := TabStep(text, prompt, forceEnd, t, listingFor);
            var m := Matching(l.entries, l.addedDot, tok);
            && r.tab.tabString == tok && r.tab.tabOffset == |text| - |tok| && r.tab.tabNth == 0
            && (m != [] ==> r.text == Truncate(text, |text| - |tok|) + Quote(m[0]) && r.forceEnd
                            && r.tab.tabQuoted == (' ' in m[0]))
            && (m == [] ==> r.text == text && r.forceEnd == forceEnd && !r.tab.tabQuoted)
    ensures EndsWith(text, tok) ==> Truncate(text, |text| - |tok|) + tok == text
  {
    FirstTabBegins(text, prompt, t, tok);
    var t1 := TabState(tok, 0, |text| - |tok|, false);
    assert TabStep(text, prompt, forceEnd, t, listingFor) == TabCycle(text, forceEnd, t1, listingFor);
    TabPickCycles(l, tok, 0);
    CutBeforeSuffix(text, tok);
  }

  /** Cutting a text in front of a suffix and putting the suffix back. */
  lemma CutBeforeSuffix(text: string, tok: string)
    ensures EndsWith(text, tok) ==> Truncate(text, |text| - |tok|) + tok == text
  {
    if EndsWith(text, tok) {
      assert text == text[..|text| - |tok|] + text[|text| - |tok|..];
    }
  }

  /** With whitespace after the last token, `tab_offset` lands one past the
      token's start, so the token's first character stays in front of the
      completion. */
  lemma TrailingSpaceKeepsTokenHead(text: string, prompt: string, forceEnd: bool, t: TabState,
                                    listingFor: string -> Option<Listing>, pre: string, tok: string)
    requires t.tabString == [] && LastToken(GetLastLine(text, prompt)) == Some(tok)
    requires text == pre + tok + " "
    ensures var r := TabStep(text, prompt, forceEnd, t, listingFor);
            r.tab.tabOffset == |pre| + 1 && Truncate(text, r.tab.tabOffset) == pre + tok[..1]
  {
    FirstTabBegins(text, prompt, t, tok);
    var r := TabStep(text, prompt, forceEnd, t, listingFor);
    assert r.tab.tabOffset == |pre| + 1;
    CutAfterTokenHead(pre, tok);
  }

  /** Cutting `pre + tok + " "` one past the start of `tok`. */
  lemma CutAfterTokenHead(pre: string, tok: string)
    requires tok != []
    ensures Truncate(pre + tok + " ", |pre| + 1) == pre + tok[..1]
  {
    assert (pre + tok + " ")[..|pre| + 1] == pre + tok[..1];
  }

  /** A later press moves to the next match of the same prefix, and after
      the last one wraps around to the first; without matches nothing is
      written and the count restarts. */
  lemma RepeatTabCycles(text: string, prompt: string, forceEnd: bool, t: TabState,
                        listingFor: string -> Option<Listing>, l: Listing)
    requires t.tabString != [] && listingFor(t.tabString) == Some(l) && WellFormed(l)
    ensures var r := TabStep(text, prompt, forceEnd, t, listingFor);
            var m := Matching(l.entries, l.addedDot, t.tabString);
            var n := t.tabNth + 1;
            && r.tab.tabString == t.tabString && r.tab.tabOffset == t.tabOffset
            && (n < |m| ==> r.tab.tabNth == n && r.text == Truncate(text, t.tabOffset) + Quote(m[n]))
            && (n >= |m| && m != [] ==> r.tab.tabNth == 0 && r.text == Truncate(text, t.tabOffset) + Quote(m[0]))
            && (m == [] ==> r.tab.tabNth == 0 && r.text == text && r.forceEnd == forceEnd)
  {
    RepeatTabIsCycle(text, prompt, forceEnd, t, listingFor);
    TabPickCycles(l, t.tabString, t.tabNth + 1);
  }

  /** A later press skips the tokenizer and cycles with the count advanced. */
  lemma RepeatTabIsCycle(text: string, prompt: string, forceEnd: bool, t: TabState,
                         listingFor: string -> Option<Listing>)
    requires t.tabString != []
    ensures TabStep(text, prompt, forceEnd, t, listingFor)
            == TabCycle(text, forceEnd, t.(tabNth := t.tabNth + 1), listingFor)
  {
  }
}
