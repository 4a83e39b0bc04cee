/**
 The in-memory line source of the PO parser (`StringHandler`): the whole
 input text is split into lines once, at construction, and a cursor walks
 over those lines. Reading past the last line yields PHP's `false`,
 modelled as `NoLine`; `close` rewinds the cursor and `save` does nothing.

 The handler is modelled as an immutable state value; every operation is a
 function from the state before the call to the state after it (together
 with the call's return value).
 */
module StringHandler {
  import opened Explode

  /** What `getNextLine` returns: a line, or `false` once past the end. */
  datatype NextLine = Line(text: string) | NoLine

  /** The handler's three fields: the lines, their count and the cursor. */
  datatype Handler = Handler(strings: seq<string>, total: nat, line: nat)
  {
    /** The cached count is the number of lines and the cursor stays within
        `0 <= line <= total`. */
    predicate Valid() {
      total == |strings| && line <= total
    }
  }

  /** The state after a `getNextLine` call, and the value the call returned. */
  datatype Step = Step(handler: Handler, result: NextLine)

  /** The calls a parser can make on a handler; `Ended` is a query. */
  datatype Call = GetNextLine | Ended | Close | Save(output: string, params: map<string, string>)

  /** The constructor: the cursor starts at line 0 and the lines are the
      line-feed separated pieces of `s`. */
  function New(s: string): (h: Handler)
    ensures h.Valid()
    ensures h.line == 0
    ensures Join(h.strings) == s
    ensures NoSeparators(h.strings)
    ensures h.total == Separators(s) + 1
    ensures !IsEnded(h)
  {
    var pieces := Split(s);
    JoinSplit(s);
    SplitCount(s);
    Handler(pieces, |pieces|, 0)
  }

  /** The empty text still yields one, empty, line, so a fresh handler over
      it is not ended and its first read returns "" rather than `false`. */
  lemma EmptyInputOneLine()
    ensures New("").strings == [""] && New("").total == 1
    ensures NextLineOf(New("")).result == Line("")
  {
  }

  /** `getNextLine`: the line under the cursor, advancing the cursor past
      it, or `NoLine` with the state untouched when there is none. The
      guard is the source's `isset` on the array, i.e. an index bound on
      the lines themselves rather than on the cached count. */
  function NextLineOf(h: Handler): (r: Step)
    ensures r.result.Line? <==> h.line < |h.strings|
    ensures r.result.Line? ==> r.result.text == h.strings[h.line]
    ensures r.result.Line? ==> r.handler == h.(line := h.line + 1)
    ensures r.result.NoLine? ==> r.handler == h
    ensures h.Valid() ==> r.handler.Valid()
  {
    if h.line < |h.strings| then
      Step(h.(line := h.line + 1), Line(h.strings[h.line]))
    else
      Step(h, NoLine)
  }

  /** `ended`: the cursor has reached the cached line count. On a valid
      handler this is exactly the state in which `getNextLine` returns
      `false`. */
  function IsEnded(h: Handler): (r: bool)
    ensures h.Valid() ==> (r <==> NextLineOf(h).result.NoLine?)
  {
    h.line >= h.total
  }

  /** `close`: rewinds the cursor to the first line and reports success. */
  function CloseOf(h: Handler): (r: (Handler, bool))
    ensures r.1
    ensures r.0.line == 0
    ensures r.0.strings == h.strings && r.0.total == h.total
    ensures h.Valid() ==> r.0.Valid()
  {
    (h.(line := 0), true)
  }

  /** `save`: an in-memory source has nowhere to write to, so the output
      and its parameters are ignored and the state does not change. */
  function SaveOf(h: Handler, output: string, params: map<string, string>): (r: Handler)
    ensures r == h
  {
    h
  }

  /** The state after one call. */
  function Apply(h: Handler, c: Call): Handler {
    match c
    case GetNextLine => NextLineOf(h).handler
    case Ended => h
    case Close => CloseOf(h).0
    case Save(output, params) => SaveOf(h, output, params)
  }

  /** The state after a sequence of calls, in order. */
  function Run(h: Handler, calls: seq<Call>): Handler
    decreases |calls|
  {
    if |calls| == 0 then h else Run(Apply(h, calls[0]), calls[1..])
  }

  /** Every call keeps the handler valid and never touches its lines. */
  lemma ApplyPreserves(h: Handler, c: Call)
    requires h.Valid()
    ensures Apply(h, c).Valid()
    ensures Apply(h, c).strings == h.strings && Apply(h, c).total == h.total
  {
  }

  /** Any sequence of calls keeps the handler valid and its lines fixed. */
  lemma {:induction false} RunPreserves(h: Handler, calls: seq<Call>)
    requires h.Valid()
    ensures Run(h, calls).Valid()
    ensures Run(h, calls).strings == h.strings && Run(h, calls).total == h.total
    decreases |calls|
  {
    if |calls| > 0 {
      ApplyPreserves(h, calls[0]);
      RunPreserves(Apply(h, calls[0]), calls[1..]);
    }
  }

  /** Every state a handler built from `s` can reach is valid and still holds
      the line-feed separated pieces of `s`. */
  lemma ReachableInvariant(s: string, calls: seq<Call>)
    ensures Run(New(s), calls).Valid()
    ensures Join(Run(New(s), calls).strings) == s
    ensures NoSeparators(Run(New(s), calls).strings)
    ensures Run(New(s), calls).strings == Split(s)
    ensures Run(New(s), calls).total == Separators(s) + 1
  {
    RunPreserves(New(s), calls);
  }

  /** On a valid handler `ended` holds exactly when `getNextLine` would
      return `false`. */
  lemma EndedIffNoLine(h: Handler)
    requires h.Valid()
    ensures IsEnded(h) <==> NextLineOf(h).result == NoLine
  {
  }

  /** Once ended, `getNextLine` is a fixed point: it keeps returning
      `false` and never moves the cursor. */
  lemma EndedIsFixedPoint(h: Handler)
    requires h.Valid() && IsEnded(h)
    ensures NextLineOf(h) == Step(h, NoLine)
    ensures NextLineOf(NextLineOf(h).handler) == Step(h, NoLine)
  {
  }

  /** Results of `k` consecutive `getNextLine` calls, and the final state. */
  function Pull(h: Handler, k: nat): (r: (seq<NextLine>, Handler))
    ensures |r.0| == k
    decreases k
  {
    if k == 0 then ([], h)
    else
      var step := NextLineOf(h);
      var rest := Pull(step.handler, k - 1);
      ([step.result] + rest.0, rest.1)
  }

  /** `k` consecutive reads from a valid handler return the next `k` lines
      while any remain and `false` after that, leaving the cursor at the
      earlier of `line + k` and the end. */
  lemma {:induction false} PullReads(h: Handler, k: nat)
    requires h.Valid()
    ensures forall i :: 0 <= i < k ==>
      Pull(h, k).0[i] == (if h.line + i < h.total then Line(h.strings[h.line + i]) else NoLine)
    ensures Pull(h, k).1 == h.(line := if h.line + k <= h.total then h.line + k else h.total)
    decreases k
  {
    if k > 0 {
      var step := NextLineOf(h);
      PullReads(step.handler, k - 1);
      var r := Pull(h, k);
      assert r.0 == [step.result] + Pull(step.handler, k - 1).0;
      forall i | 0 <= i < k
        ensures r.0[i] == (if h.line + i < h.total then Line(h.strings[h.line + i]) else NoLine)
      {
        if i > 0 {
          assert r.0[i] == Pull(step.handler, k - 1).0[i - 1];
        }
      }
    }
  }

  /** Reads until `ended`, as a consumer of the source does: the lines read
      and the final state. */
  function Drain(h: Handler): (r: (seq<string>, Handler))
    requires h.Valid()
    ensures r.0 == h.strings[h.line..]
    ensures r.1 == h.(line := h.total)
    ensures IsEnded(r.1) && r.1.Valid()
    decreases h.total - h.line
  {
    if IsEnded(h) then ([], h)
    else
      var step := NextLineOf(h);
      var rest := Drain(step.handler);
      ([step.result.text] + rest.0, rest.1)
  }

  /** Reading a fresh handler to the end yields lines that join back to the
      input text. */
  lemma ReadBackInput(s: string)
    ensures Join(Drain(New(s)).0) == s
    ensures |Drain(New(s)).0| == Separators(s) + 1
  {
  }

  /** After `close`, reading to the end replays exactly the lines the
      handler holds, from the first, wherever the cursor was before. */
  lemma ReplayAfterClose(h: Handler)
    requires h.Valid()
    ensures Drain(CloseOf(h).0).0 == h.strings
    ensures Drain(CloseOf(Drain(h).1).0) == Drain(CloseOf(h).0)
  {
  }

  /** A handler read to the end and closed is indistinguishable from a
      fresh handler over the same text. */
  lemma CloseRestoresFresh(s: string, calls: seq<Call>)
    ensures CloseOf(Run(New(s), calls)).0 == New(s)
  {
    RunPreserves(New(s), calls);
  }
}
