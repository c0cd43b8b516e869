/** The command history of `ConsoleWindow`: a bounded, oldest-first list of
    submitted lines, and the backward scan that browsing and reverse search
    share. */
module History {
  import opened RustStr

  /** The capacity `ConsoleWindow::new` gives the history. */
  const HISTORY_SIZE: nat := 5

  /** What Enter does to the history: drop the oldest entry when the history
      is at (or above) capacity, then append the line; no deduplication. */
  function Push(h: seq<string>, size: nat, line: string): (r: seq<string>)
    ensures |r| == if |h| >= size && |h| > 0 then |h| else |h| + 1
    ensures r[|r| - 1] == line
    ensures r[..|r| - 1] == h[|h| + 1 - |r|..]
  {
    (if |h| >= size && |h| > 0 then h[1..] else h) + [line]
  }

  /** The history after pushing `lines` one after the other. */
  function PushAll(h: seq<string>, size: nat, lines: seq<string>): seq<string>
    decreases |lines|
  {
    if lines == [] then h
    else Push(PushAll(h, size, lines[..|lines| - 1]), size, lines[|lines| - 1])
  }

  /** The newest `size` elements of `all`, in order. */
  function Newest(all: seq<string>, size: nat): (r: seq<string>)
    ensures |r| == if |all| > size then size else |all|
  {
    all[if |all| > size then |all| - size else 0..]
  }

  /** Pushing onto the newest `size` lines of `before` gives the newest
      `size` lines of `before` followed by the pushed line. */
  lemma PushOntoNewest(before: seq<string>, size: nat, x: string)
    requires 0 < size
    ensures Push(Newest(before, size), size, x) == Newest(before + [x], size)
  {
    var p := Newest(before, size);
    if |before| >= size {
      assert p[1..] == before[|before| - size + 1..];
      assert (before + [x])[|before| + 1 - size..] == before[|before| - size + 1..] + [x];
    } else {
      assert p == before;
    }
  }

  /** A history within its capacity keeps, after any pushes, exactly the
      newest `size` lines of everything it has seen, in order. */
  lemma {:induction false} PushAllKeepsNewest(h: seq<string>, size: nat, lines: seq<string>)
    requires 0 < size && |h| <= size
    ensures PushAll(h, size, lines) == Newest(h + lines, size)
    decreases |lines|
  {
    if lines == [] {
      assert h + lines == h;
    } else {
      var init, x := lines[..|lines| - 1], lines[|lines| - 1];
      PushAllKeepsNewest(h, size, init);
      assert h + lines == (h + init) + [x];
      PushOntoNewest(h + init, size, x);
    }
  }

  /** Starting from an empty history, after more pushes than the capacity the
      history holds exactly the last `size` lines pushed. */
  lemma HistoryHoldsLastPushes(size: nat, lines: seq<string>)
    requires 0 < size < |lines|
    ensures PushAll([], size, lines) == lines[|lines| - size..]
    ensures |PushAll([], size, lines)| == size
  {
    PushAllFromEmpty(size, lines);
  }

  lemma PushAllFromEmpty(size: nat, lines: seq<string>)
    requires 0 < size
    ensures PushAll([], size, lines) == Newest(lines, size)
  {
    var empty: seq<string> := [];
    assert empty + lines == lines;
    PushAllKeepsNewest(empty, size, lines);
  }

  /** Whether a history entry is a candidate: any entry when browsing
      (`None`), an entry containing the query when searching. */
  predicate Matches(entry: string, query: Option<string>) {
    query.None? || Contains(entry, query.value)
  }

  datatype BackResult = Found(index: nat) | EmptyQuery | NotFound

  /** The scan of `history_back` over indices `start-1` down to 0: the first
      candidate wins; an empty query stops the scan at once (when there is
      anything to scan); running out of indices finds nothing. */
  function SearchBack(h: seq<string>, start: nat, query: Option<string>): (r: BackResult)
    requires start <= |h|
    ensures r.EmptyQuery? <==> start > 0 && query == Some([])
    ensures r.Found? ==> r.index < start && Matches(h[r.index], query)
    ensures r.Found? ==> forall j :: r.index < j < start ==> !Matches(h[j], query)
    ensures r.NotFound? ==> forall j :: 0 <= j < start ==> !Matches(h[j], query)
    decreases start
  {
    if start == 0 then NotFound
    else if query == Some([]) then EmptyQuery
    else if Matches(h[start - 1], query) then Found(start - 1)
    else SearchBack(h, start - 1, query)
  }
}
