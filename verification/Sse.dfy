/**
 * Server-Sent Events framing.
 *
 * `Feed` is the byte-at-a-time parser as a function of its state; `SseParser` is the object that
 * updates that state in place. `ReadBatch` is an independent reading of a whole byte string that
 * cuts it into lines first and folds the lines afterwards.
 *
 * UTF-8 validity of a line is a parameter: every result holds for any such predicate.
 */
module Sse {
  import opened Prelude

  const LF: byte := 10
  const CR: byte := 13
  const SPACE: byte := 32
  const COLON: byte := 58
  const EVENT: Bytes := [101, 118, 101, 110, 116]
  const DATA: Bytes := [100, 97, 116, 97]

  datatype Config = Config(utf8: Bytes -> bool, maxLine: nat, maxType: nat, maxData: nat)

  datatype LimitKind = Line | EventType | EventData

  datatype Error = InvalidUtf8 | LimitExceeded(kind: LimitKind, value: nat, max: nat)

  datatype Item = Comment | Event(eventType: Option<Bytes>, data: Bytes)

  datatype State = State(pending: Bytes, eventType: Option<Bytes>, dataLines: seq<Bytes>, dataBytes: nat, sawCr: bool)

  const NEW := State([], None, [], 0, false)

  /** A state reached, the items completed on the way, and the error that stopped it, if any. */
  datatype Outcome = Outcome(state: State, items: seq<Item>, error: Option<Error>)

  // ---------------------------------------------------------------------------------------------
  // One line
  // ---------------------------------------------------------------------------------------------

  /** The LF-joined data lines. */
  function Join(lines: seq<Bytes>): Bytes {
    if lines == [] then []
    else if |lines| == 1 then lines[0]
    else Join(lines[..|lines| - 1]) + [LF] + lines[|lines| - 1]
  }

  /** The index of the first colon, or the length of the line. */
  function ColonAt(line: Bytes): (i: nat)
    ensures i <= |line|
    ensures i < |line| ==> line[i] == COLON
    ensures forall k :: 0 <= k < i ==> line[k] != COLON
  {
    if line == [] || line[0] == COLON then 0 else 1 + ColonAt(line[1..])
  }

  function FieldOf(line: Bytes): Bytes {
    line[..ColonAt(line)]
  }

  /** The text after the first colon, without one leading space. */
  function ValueOf(line: Bytes): Bytes {
    var i := ColonAt(line);
    if i == |line| then []
    else if i + 1 < |line| && line[i + 1] == SPACE then line[i + 2..]
    else line[i + 1..]
  }

  /** The data counter after another data line. */
  function CountData(s: State, value: Bytes): nat {
    SaturatingAdd(s.dataBytes, if s.dataLines == [] then |value| else SaturatingAdd(|value|, 1))
  }

  function FinishLine(c: Config, s: State): Outcome {
    var line := s.pending;
    var t := s.(pending := []);
    if line == [] then
      Outcome(t.(eventType := None, dataLines := [], dataBytes := 0), [Event(s.eventType, Join(s.dataLines))], None)
    else if !c.utf8(line) then Outcome(t, [], Some(InvalidUtf8))
    else if line[0] == COLON then Outcome(t, [Comment], None)
    else
      var field, value := FieldOf(line), ValueOf(line);
      if field == EVENT then
        if |value| > c.maxType then Outcome(t, [], Some(LimitExceeded(EventType, |value|, c.maxType)))
        else Outcome(t.(eventType := Some(value)), [], None)
      else if field == DATA then
        var next := CountData(s, value);
        if next > c.maxData then Outcome(t, [], Some(LimitExceeded(EventData, next, c.maxData)))
        else Outcome(t.(dataBytes := next, dataLines := s.dataLines + [value]), [], None)
      else Outcome(t, [], None)
  }

  // ---------------------------------------------------------------------------------------------
  // Byte at a time
  // ---------------------------------------------------------------------------------------------

  /** A byte outside a pending CR. */
  function FeedPlain(c: Config, s: State, b: byte): Outcome {
    if b == LF then FinishLine(c, s)
    else if b == CR then Outcome(s.(sawCr := true), [], None)
    else if |s.pending| >= c.maxLine then
      Outcome(s, [], Some(LimitExceeded(Line, SaturatingAdd(|s.pending|, 1), c.maxLine)))
    else Outcome(s.(pending := s.pending + [b]), [], None)
  }

  function FeedByte(c: Config, s: State, b: byte): Outcome {
    if !s.sawCr then FeedPlain(c, s, b)
    else
      var ended := FinishLine(c, s.(sawCr := false));
      if ended.error.Some? || b == LF then ended
      else
        var o := FeedPlain(c, ended.state, b);
        o.(items := ended.items + o.items)
  }

  /** Feed bytes until they run out or one fails. */
  function Feed(c: Config, s: State, bytes: Bytes): Outcome
    decreases bytes
  {
    if bytes == [] then Outcome(s, [], None)
    else
      var first := FeedByte(c, s, bytes[0]);
      if first.error.Some? then first
      else
        var rest := Feed(c, first.state, bytes[1..]);
        rest.(items := first.items + rest.items)
  }

  /** Continue after `o` with more bytes, unless it failed. */
  function Then(c: Config, o: Outcome, bytes: Bytes): Outcome {
    if o.error.Some? then o
    else
      var rest := Feed(c, o.state, bytes);
      rest.(items := o.items + rest.items)
  }

  /** Feeding a concatenation is feeding its parts in turn. */
  lemma {:induction false} FeedConcat(c: Config, s: State, a: Bytes, b: Bytes)
    ensures Feed(c, s, a + b) == Then(c, Feed(c, s, a), b)
    decreases a
  {
    if a == [] {
      assert a + b == b;
    } else {
      var first := FeedByte(c, s, a[0]);
      assert (a + b)[0] == a[0] && (a + b)[1..] == a[1..] + b;
      if first.error.None? {
        var rest := Feed(c, first.state, a[1..]);
        FeedConcat(c, first.state, a[1..], b);
        ThenPrepended(c, first.items, rest, b);
      }
    }
  }

  /** Items completed earlier stay in front. */
  lemma ThenPrepended(c: Config, items: seq<Item>, o: Outcome, b: Bytes)
    ensures
      var later := Then(c, o, b);
      Then(c, o.(items := items + o.items), b) == later.(items := items + later.items)
  {
    if o.error.None? {
      var rest := Feed(c, o.state, b);
      assert (items + o.items) + rest.items == items + (o.items + rest.items);
    }
  }

  function Flatten(chunks: seq<Bytes>): Bytes {
    if chunks == [] then [] else chunks[0] + Flatten(chunks[1..])
  }

  /** Push chunk after chunk until one fails. */
  function FeedChunks(c: Config, s: State, chunks: seq<Bytes>): Outcome
    decreases chunks
  {
    if chunks == [] then Outcome(s, [], None)
    else
      var first := Feed(c, s, chunks[0]);
      if first.error.Some? then first
      else
        var rest := FeedChunks(c, first.state, chunks[1..]);
        rest.(items := first.items + rest.items)
  }

  /** However bytes are split into chunks, the state, the items and the first error are those of one push. */
  lemma {:induction false} ChunkingIsInvisible(c: Config, s: State, chunks: seq<Bytes>)
    ensures FeedChunks(c, s, chunks) == Feed(c, s, Flatten(chunks))
    decreases chunks
  {
    if chunks != [] {
      FeedConcat(c, s, chunks[0], Flatten(chunks[1..]));
      var first := Feed(c, s, chunks[0]);
      if first.error.None? {
        ChunkingIsInvisible(c, first.state, chunks[1..]);
      }
    }
  }

  // ---------------------------------------------------------------------------------------------
  // Whole-string reading
  // ---------------------------------------------------------------------------------------------

  /** The index of the first CR or LF, or the length. */
  function BreakAt(bytes: Bytes): (i: nat)
    ensures i <= |bytes|
    ensures i < |bytes| ==> bytes[i] == CR || bytes[i] == LF
    ensures forall k :: 0 <= k < i ==> bytes[k] != CR && bytes[k] != LF
  {
    if bytes == [] || bytes[0] == CR || bytes[0] == LF then 0 else 1 + BreakAt(bytes[1..])
  }

  /** Complete lines, the unfinished last line, and whether a trailing CR holds it back. */
  datatype Cut = Cut(lines: seq<Bytes>, rest: Bytes, held: bool)

  /** Cut at CRLF, LF or lone CR; a trailing CR ends nothing until another byte follows. */
  function CutLines(bytes: Bytes): Cut
    decreases |bytes|
  {
    var i := BreakAt(bytes);
    var line := bytes[..i];
    if i == |bytes| then Cut([], line, false)
    else if bytes[i] == CR && i + 1 == |bytes| then Cut([], line, true)
    else
      var next := if bytes[i] == CR && bytes[i + 1] == LF then i + 2 else i + 1;
      var more := CutLines(bytes[next..]);
      more.(lines := [line] + more.lines)
  }

  /** An over-long line fails with its first bytes still pending. */
  function TooLong(c: Config, s: State, line: Bytes): Outcome
    requires |line| > c.maxLine
  {
    Outcome(s.(pending := line[..c.maxLine]), [], Some(LimitExceeded(Line, SaturatingAdd(c.maxLine, 1), c.maxLine)))
  }

  function ReadLine(c: Config, s: State, line: Bytes): Outcome {
    if |line| > c.maxLine then TooLong(c, s, line) else FinishLine(c, s.(pending := line))
  }

  function ReadLines(c: Config, s: State, lines: seq<Bytes>): Outcome
    decreases lines
  {
    if lines == [] then Outcome(s, [], None)
    else
      var first := ReadLine(c, s, lines[0]);
      if first.error.Some? then first
      else
        var rest := ReadLines(c, first.state, lines[1..]);
        rest.(items := first.items + rest.items)
  }

  /** Read the lines of a cut, then keep its unfinished rest. */
  function ReadCut(c: Config, s: State, cut: Cut): Outcome {
    var done := ReadLines(c, s, cut.lines);
    if done.error.Some? then done
    else if |cut.rest| > c.maxLine then TooLong(c, done.state, cut.rest).(items := done.items)
    else done.(state := done.state.(pending := cut.rest, sawCr := cut.held))
  }

  function ReadBatch(c: Config, s: State, bytes: Bytes): Outcome {
    ReadCut(c, s, CutLines(bytes))
  }

  predicate AtLineStart(s: State) {
    s.pending == [] && !s.sawCr
  }

  /** Bytes without a line end only lengthen the pending line. */
  lemma {:induction false} FeedWithoutBreak(c: Config, s: State, bytes: Bytes)
    requires !s.sawCr && |s.pending| <= c.maxLine
    requires forall k :: 0 <= k < |bytes| ==> bytes[k] != CR && bytes[k] != LF
    ensures Feed(c, s, bytes) ==
      if |s.pending| + |bytes| <= c.maxLine then Outcome(s.(pending := s.pending + bytes), [], None)
      else TooLong(c, s, s.pending + bytes)
    decreases bytes
  {
    hide FinishLine;
    if bytes == [] {
      assert s.pending + bytes == s.pending;
    } else if |s.pending| < c.maxLine {
      var t := s.(pending := s.pending + [bytes[0]]);
      FeedWithoutBreak(c, t, bytes[1..]);
      assert t.pending + bytes[1..] == s.pending + bytes;
    } else {
      assert (s.pending + bytes)[..c.maxLine] == s.pending;
    }
  }

  /** Feeding a line and its end reads that line. */
  lemma FeedLine(c: Config, s: State, bytes: Bytes, i: nat)
    requires AtLineStart(s) && i == BreakAt(bytes) && i < |bytes|
    requires bytes[i] == CR ==> i + 1 < |bytes|
    ensures
      var next := if bytes[i] == CR && bytes[i + 1] == LF then i + 2 else i + 1;
      Feed(c, s, bytes) == Then(c, ReadLine(c, s, bytes[..i]), bytes[next..])
  {
    var line, tail := bytes[..i], bytes[i..];
    assert bytes == line + tail;
    FeedConcat(c, s, line, tail);
    FeedWithoutBreak(c, s, line);
    assert s.pending + line == line;
    if i <= c.maxLine {
      var t := s.(pending := line);
      assert tail[1..] == bytes[i + 1..];
      if bytes[i] == CR {
        var held := t.(sawCr := true);
        assert Feed(c, t, tail) == Feed(c, held, tail[1..]);
        assert tail[1..][0] == bytes[i + 1] && tail[1..][1..] == bytes[i + 2..];
        assert held.(sawCr := false) == t;
        FeedHeld(c, held, tail[1..]);
      }
    }
  }

  /** After a held CR the line ends, and a following LF belongs to it. */
  lemma FeedHeld(c: Config, s: State, bytes: Bytes)
    requires s.sawCr && bytes != []
    ensures Feed(c, s, bytes) ==
      Then(c, FinishLine(c, s.(sawCr := false)), if bytes[0] == LF then bytes[1..] else bytes)
  {
    var ended := FinishLine(c, s.(sawCr := false));
    assert !ended.state.sawCr;
    if ended.error.None? && bytes[0] != LF {
      var o := FeedPlain(c, ended.state, bytes[0]);
      assert FeedByte(c, ended.state, bytes[0]) == o;
      if o.error.None? {
        var rest := Feed(c, o.state, bytes[1..]);
        assert (ended.items + o.items) + rest.items == ended.items + (o.items + rest.items);
      }
    }
  }

  /** A string without a line end stays pending. */
  lemma FeedUnfinished(c: Config, s: State, bytes: Bytes)
    requires AtLineStart(s) && BreakAt(bytes) == |bytes|
    ensures Feed(c, s, bytes) == ReadBatch(c, s, bytes)
  {
    FeedWithoutBreak(c, s, bytes);
    assert s.pending + bytes == bytes == bytes[..|bytes|];
  }

  /** The line before a trailing CR is held back. */
  lemma FeedHeldBack(c: Config, s: State, line: Bytes)
    requires AtLineStart(s)
    requires forall k :: 0 <= k < |line| ==> line[k] != CR && line[k] != LF
    ensures Feed(c, s, line + [CR]) == ReadCut(c, s, Cut([], line, true))
  {
    FeedConcat(c, s, line, [CR]);
    FeedWithoutBreak(c, s, line);
    assert s.pending + line == line;
    if |line| <= c.maxLine {
      var t := s.(pending := line);
      assert [CR][1..] == [];
      assert Feed(c, t, [CR]) == Outcome(t.(sawCr := true), [], None);
    }
  }

  lemma ReadCutCons(c: Config, s: State, line: Bytes, cut: Cut)
    ensures
      var first := ReadLine(c, s, line);
      var rest := ReadCut(c, first.state, cut);
      ReadCut(c, s, cut.(lines := [line] + cut.lines)) ==
        if first.error.Some? then first else rest.(items := first.items + rest.items)
  {
    assert ([line] + cut.lines)[1..] == cut.lines;
  }

  lemma LineLeavesStart(c: Config, s: State, line: Bytes)
    requires AtLineStart(s)
    ensures ReadLine(c, s, line).error.None? ==> AtLineStart(ReadLine(c, s, line).state)
  {
  }

  /** Byte at a time and line by line agree, with limits, errors and a held-back last line. */
  lemma {:induction false} FeedIsReadBatch(c: Config, s: State, bytes: Bytes)
    requires AtLineStart(s)
    ensures Feed(c, s, bytes) == ReadBatch(c, s, bytes)
    decreases |bytes|
  {
    var i := BreakAt(bytes);
    if i == |bytes| {
      FeedUnfinished(c, s, bytes);
    } else if bytes[i] == CR && i + 1 == |bytes| {
      assert bytes == bytes[..i] + [CR];
      FeedHeldBack(c, s, bytes[..i]);
    } else {
      var next := if bytes[i] == CR && bytes[i + 1] == LF then i + 2 else i + 1;
      hide ReadLine;
      hide ReadCut;
      var first, more := ReadLine(c, s, bytes[..i]), bytes[next..];
      LineLeavesStart(c, s, bytes[..i]);
      FeedLine(c, s, bytes, i);
      ReadCutCons(c, s, bytes[..i], CutLines(more));
      if first.error.None? {
        FeedIsReadBatch(c, first.state, more);
      }
    }
  }

  // ---------------------------------------------------------------------------------------------
  // What a block of lines dispatches
  // ---------------------------------------------------------------------------------------------

  /** The values of the data fields, in order. */
  function DataValues(lines: seq<Bytes>): seq<Bytes> {
    if lines == [] then []
    else (if FieldOf(lines[0]) == DATA then [ValueOf(lines[0])] else []) + DataValues(lines[1..])
  }

  /** The value of the last event field, or what was set before. */
  function TypeAfter(before: Option<Bytes>, lines: seq<Bytes>): Option<Bytes>
    decreases lines
  {
    if lines == [] then before
    else TypeAfter(if FieldOf(lines[0]) == EVENT then Some(ValueOf(lines[0])) else before, lines[1..])
  }

  /** One item per comment line. */
  function Comments(lines: seq<Bytes>): seq<Item> {
    if lines == [] then []
    else (if lines[0] != [] && lines[0][0] == COLON then [Comment] else []) + Comments(lines[1..])
  }

  /** What one non-blank line that causes no error adds. */
  lemma LineCollects(c: Config, s: State, line: Bytes)
    requires AtLineStart(s) && line != [] && ReadLine(c, s, line).error.None?
    ensures
      var o := ReadLine(c, s, line);
      && AtLineStart(o.state)
      && o.state.dataLines == s.dataLines + (if FieldOf(line) == DATA then [ValueOf(line)] else [])
      && o.state.eventType == (if FieldOf(line) == EVENT then Some(ValueOf(line)) else s.eventType)
      && o.items == if line[0] == COLON then [Comment] else []
  {
    assert line[0] == COLON ==> FieldOf(line) == [];
    assert s.dataLines + [] == s.dataLines;
  }

  /** Non-blank lines that cause no error collect data values and the last event type, and yield only comments. */
  lemma {:induction false} LinesCollect(c: Config, s: State, lines: seq<Bytes>)
    requires AtLineStart(s)
    requires forall i :: 0 <= i < |lines| ==> lines[i] != []
    requires ReadLines(c, s, lines).error.None?
    ensures AtLineStart(ReadLines(c, s, lines).state)
    ensures ReadLines(c, s, lines).state.dataLines == s.dataLines + DataValues(lines)
    ensures ReadLines(c, s, lines).state.eventType == TypeAfter(s.eventType, lines)
    ensures ReadLines(c, s, lines).items == Comments(lines)
    decreases lines
  {
    hide ReadLine;
    if lines != [] {
      var first := ReadLine(c, s, lines[0]);
      LineCollects(c, s, lines[0]);
      LinesCollect(c, first.state, lines[1..]);
      var own := if FieldOf(lines[0]) == DATA then [ValueOf(lines[0])] else [];
      assert (s.dataLines + own) + DataValues(lines[1..]) == s.dataLines + (own + DataValues(lines[1..]));
    }
  }

  /**
   * A blank line after them dispatches one event with that type and the LF-joined data values,
   * even when there is neither, and leaves the parser empty.
   */
  lemma BlankLineDispatches(c: Config, s: State, lines: seq<Bytes>)
    requires AtLineStart(s)
    requires forall i :: 0 <= i < |lines| ==> lines[i] != []
    requires ReadLines(c, s, lines).error.None?
    ensures
      var o := ReadLines(c, s, lines + [[]]);
      && o.error.None?
      && o.items == Comments(lines) + [Event(TypeAfter(s.eventType, lines), Join(s.dataLines + DataValues(lines)))]
      && o.state == NEW
  {
    LinesCollect(c, s, lines);
    ReadLinesConcat(c, s, lines, [[]]);
  }

  lemma {:induction false} ReadLinesConcat(c: Config, s: State, a: seq<Bytes>, b: seq<Bytes>)
    ensures
      var first := ReadLines(c, s, a);
      ReadLines(c, s, a + b) ==
        if first.error.Some? then first
        else ReadLines(c, first.state, b).(items := first.items + ReadLines(c, first.state, b).items)
    decreases a
  {
    if a == [] {
      assert a + b == b;
    } else {
      assert (a + b)[0] == a[0] && (a + b)[1..] == a[1..] + b;
      hide ReadLine;
      var one := ReadLine(c, s, a[0]);
      if one.error.None? {
        ReadLinesConcat(c, one.state, a[1..], b);
        var first := ReadLines(c, one.state, a[1..]);
        var rest := ReadLines(c, first.state, b);
        assert (one.items + first.items) + rest.items == one.items + (first.items + rest.items);
      }
    }
  }

  // ---------------------------------------------------------------------------------------------
  // Limits
  // ---------------------------------------------------------------------------------------------

  ghost predicate WithinLimits(c: Config, s: State) {
    && |s.pending| <= c.maxLine
    && (s.eventType.Some? ==> |s.eventType.value| <= c.maxType)
    && s.dataBytes <= c.maxData
    && s.dataBytes == Min(|Join(s.dataLines)|, USIZE_MAX)
  }

  ghost predicate Fits(c: Config, item: Item) {
    item.Event? ==>
      && (item.eventType.Some? ==> |item.eventType.value| <= c.maxType)
      && Min(|item.data|, USIZE_MAX) <= c.maxData
  }

  lemma JoinOfNone()
    ensures Join([]) == []
  {
  }

  lemma JoinLength(lines: seq<Bytes>, value: Bytes)
    ensures |Join(lines + [value])| == |Join(lines)| + |value| + if lines == [] then 0 else 1
  {
    var longer := lines + [value];
    assert longer[..|longer| - 1] == lines;
  }

  /** The counter counts the joined data, up to saturation. */
  lemma CountDataIs(s: State, value: Bytes)
    requires s.dataBytes == Min(|Join(s.dataLines)|, USIZE_MAX)
    ensures CountData(s, value) == Min(|Join(s.dataLines + [value])|, USIZE_MAX)
  {
    JoinLength(s.dataLines, value);
  }

  lemma FinishKeepsLimits(c: Config, s: State)
    requires WithinLimits(c, s)
    ensures WithinLimits(c, FinishLine(c, s).state)
    ensures forall item :: item in FinishLine(c, s).items ==> Fits(c, item)
  {
    hide Join;
    hide CountData;
    hide FieldOf;
    hide ValueOf;
    CountDataIs(s, ValueOf(s.pending));
    JoinOfNone();
  }

  lemma {:induction false} FeedKeepsLimits(c: Config, s: State, bytes: Bytes)
    requires WithinLimits(c, s)
    ensures WithinLimits(c, Feed(c, s, bytes).state)
    ensures forall item :: item in Feed(c, s, bytes).items ==> Fits(c, item)
    decreases bytes
  {
    if bytes != [] {
      hide FeedByte;
      FeedByteKeepsLimits(c, s, bytes[0]);
      var first := FeedByte(c, s, bytes[0]);
      if first.error.None? { FeedKeepsLimits(c, first.state, bytes[1..]); }
    }
  }

  lemma FeedByteKeepsLimits(c: Config, s: State, b: byte)
    requires WithinLimits(c, s)
    ensures WithinLimits(c, FeedByte(c, s, b).state)
    ensures forall item :: item in FeedByte(c, s, b).items ==> Fits(c, item)
  {
    hide FinishLine;
    var t := s.(sawCr := false);
    FinishKeepsLimits(c, t);
    FinishKeepsLimits(c, s);
    FinishKeepsLimits(c, FinishLine(c, t).state);
  }

  /** The state after any sequence of pushes, failed ones included. */
  function AfterPushes(c: Config, s: State, chunks: seq<Bytes>): State
    decreases chunks
  {
    if chunks == [] then s else AfterPushes(c, Feed(c, s, chunks[0]).state, chunks[1..])
  }

  /**
   * After any sequence of pushes, failed or not, the pending line, the event type and the counted
   * data are within their limits, as is every event a further push dispatches. Unless the data
   * limit is the largest 64-bit number, the counter is the exact length of the joined data.
   */
  lemma LimitsAlwaysHold(c: Config, chunks: seq<Bytes>, next: Bytes)
    ensures WithinLimits(c, AfterPushes(c, NEW, chunks))
    ensures forall item :: item in Feed(c, AfterPushes(c, NEW, chunks), next).items ==> Fits(c, item)
    ensures c.maxData < USIZE_MAX ==>
      var s := AfterPushes(c, NEW, chunks);
      && s.dataBytes == |Join(s.dataLines)| <= c.maxData
      && forall item :: item in Feed(c, s, next).items && item.Event? ==> |item.data| <= c.maxData
  {
    PushesKeepLimits(c, NEW, chunks);
    FeedKeepsLimits(c, AfterPushes(c, NEW, chunks), next);
  }

  lemma {:induction false} PushesKeepLimits(c: Config, s: State, chunks: seq<Bytes>)
    requires WithinLimits(c, s)
    ensures WithinLimits(c, AfterPushes(c, s, chunks))
    decreases chunks
  {
    if chunks != [] {
      FeedKeepsLimits(c, s, chunks[0]);
      PushesKeepLimits(c, Feed(c, s, chunks[0]).state, chunks[1..]);
    }
  }

  // ---------------------------------------------------------------------------------------------
  // What lines and texts mean, byte for byte
  // ---------------------------------------------------------------------------------------------

  /** No CR or LF. */
  predicate OneLine(bytes: Bytes) {
    forall k :: 0 <= k < |bytes| ==> bytes[k] != 10 && bytes[k] != 13
  }

  /** A line end is LF, CR LF, or a CR that something else than LF follows; a trailing CR is held back. */
  lemma LinesEndExactly(line: Bytes, rest: Bytes)
    requires OneLine(line)
    ensures CutLines(line) == Cut([], line, false)
    ensures CutLines(line + [13]) == Cut([], line, true)
    ensures CutLines(line + [10] + rest) == CutLines(rest).(lines := [line] + CutLines(rest).lines)
    ensures CutLines(line + [13, 10] + rest) == CutLines(rest).(lines := [line] + CutLines(rest).lines)
    ensures rest != [] && rest[0] != 10 ==>
      CutLines(line + [13] + rest) == CutLines(rest).(lines := [line] + CutLines(rest).lines)
  {
    BreakFound(line, []);
    assert line + [] == line && line[..|line|] == line;
    BreakFound(line, [13]);
    assert (line + [13])[..|line|] == line;
    CutFirst(line, [10], rest);
    CutFirst(line, [13, 10], rest);
    if rest != [] && rest[0] != 10 { CutFirst(line, [13], rest); }
  }

  lemma BreakFound(line: Bytes, more: Bytes)
    requires OneLine(line) && (more == [] || more[0] == 10 || more[0] == 13)
    ensures BreakAt(line + more) == |line|
  {
    var all := line + more;
    assert forall k :: 0 <= k < |line| ==> all[k] == line[k];
    assert more != [] ==> all[|line|] == more[0];
  }

  lemma CutFirst(line: Bytes, end: Bytes, rest: Bytes)
    requires OneLine(line)
    requires end == [10] || end == [13, 10] || (end == [13] && rest != [] && rest[0] != 10)
    ensures CutLines(line + end + rest) == CutLines(rest).(lines := [line] + CutLines(rest).lines)
  {
    var all := line + end + rest;
    assert all == line + (end + rest);
    BreakFound(line, end + rest);
    assert all[..|line|] == line && all[|line|] == end[0];
    assert end[0] == 13 ==> all[|line| + 1] == (end + rest)[1];
    assert all[|line| + |end|..] == rest;
  }

  /** A field is what precedes the first colon; its value follows, less one space after the colon. */
  lemma FieldsAreExactly(field: Bytes, v: Bytes)
    requires forall k :: 0 <= k < |field| ==> field[k] != 58
    ensures FieldOf(field) == field && ValueOf(field) == []
    ensures FieldOf(field + [58] + v) == field && FieldOf(field + [58, 32] + v) == field
    ensures ValueOf(field + [58, 32] + v) == v
    ensures v == [] || v[0] != 32 ==> ValueOf(field + [58] + v) == v
  {
    ColonFound(field, []);
    assert field + [] == field;
    var spaced, plain := field + [58, 32] + v, field + [58] + v;
    assert spaced == field + ([58, 32] + v) && plain == field + ([58] + v);
    ColonFound(field, [58, 32] + v);
    ColonFound(field, [58] + v);
    assert spaced[|field| + 1] == 32 && spaced[|field| + 2..] == v && spaced[..|field|] == field;
    assert plain[|field| + 1..] == v && plain[..|field|] == field;
    assert v != [] ==> plain[|field| + 1] == v[0];
  }

  lemma ColonFound(field: Bytes, more: Bytes)
    requires (forall k :: 0 <= k < |field| ==> field[k] != 58) && (more == [] || more[0] == 58)
    ensures ColonAt(field + more) == |field|
  {
    var all := field + more;
    assert forall k :: 0 <= k < |field| ==> all[k] == field[k];
    assert more != [] ==> all[|field|] == more[0];
  }

  /** Cut at every LF. */
  function SplitLf(bytes: Bytes): (parts: seq<Bytes>)
    ensures parts != []
  {
    if bytes == [] then [[]]
    else
      var before := SplitLf(bytes[..|bytes| - 1]);
      var n, last := |before| - 1, bytes[|bytes| - 1];
      if last == 10 then before + [[]] else before[..n] + [before[n] + [last]]
  }

  lemma SplitNext(bytes: Bytes, b: byte)
    ensures
      var before := SplitLf(bytes);
      var n := |before| - 1;
      SplitLf(bytes + [b]) == if b == 10 then before + [[]] else before[..n] + [before[n] + [b]]
  {
    assert (bytes + [b])[..|bytes|] == bytes;
  }

  /** Bytes without LF extend the last part. */
  lemma {:induction false} SplitExtends(bytes: Bytes, part: Bytes, before: seq<Bytes>)
    requires OneLine(part) && SplitLf(bytes) == before + [[]]
    ensures SplitLf(bytes + part) == before + [part]
    decreases |part|
  {
    hide SplitLf;
    if part == [] {
      assert bytes + part == bytes;
    } else {
      var n := |part| - 1;
      var most, last := part[..n], part[n];
      SplitExtends(bytes, most, before);
      SplitNext(bytes + most, last);
      assert (bytes + most) + [last] == bytes + part;
      assert most + [last] == part;
      assert (before + [most])[..|before|] == before;
    }
  }

  lemma SplitAppends(bytes: Bytes, part: Bytes)
    requires OneLine(part)
    ensures SplitLf(bytes + [10] + part) == SplitLf(bytes) + [part]
  {
    SplitNext(bytes, 10);
    SplitExtends(bytes + [10], part, SplitLf(bytes));
  }

  /** Cutting joined data at LF gives the values back. */
  lemma {:induction false} JoinedSplits(values: seq<Bytes>)
    requires values != [] && forall i :: 0 <= i < |values| ==> OneLine(values[i])
    ensures SplitLf(Join(values)) == values
  {
    var n := |values| - 1;
    if n == 0 {
      OnePart(values[0]);
      assert values == [values[0]];
    } else {
      hide SplitLf;
      JoinedSplits(values[..n]);
      SplitAppends(Join(values[..n]), values[n]);
      assert values[..n] + [values[n]] == values;
    }
  }

  lemma OnePart(part: Bytes)
    requires OneLine(part)
    ensures SplitLf(part) == [part]
  {
    var none: Bytes, no: seq<Bytes> := [], [];
    assert SplitLf(none) == no + [none];
    SplitExtends(none, part, no);
    assert none + part == part && no + [part] == [part];
  }

  /** The error a non-blank line calls for. */
  ghost predicate FailsWith(c: Config, s: State, line: Bytes, error: Option<Error>) {
    var field, value := FieldOf(line), ValueOf(line);
    var data := Min(|Join(s.dataLines + [value])|, USIZE_MAX);
    if |line| > c.maxLine then error == Some(LimitExceeded(Line, Min(c.maxLine + 1, USIZE_MAX), c.maxLine))
    else if !c.utf8(line) then error == Some(InvalidUtf8)
    else if field == [101, 118, 101, 110, 116] && |value| > c.maxType then
      error == Some(LimitExceeded(EventType, |value|, c.maxType))
    else if field == [100, 97, 116, 97] && data > c.maxData then error == Some(LimitExceeded(EventData, data, c.maxData))
    else error.None?
  }

  /** A non-blank line fails exactly past a limit or when it is not UTF-8, in that order, and no line fails otherwise. */
  lemma LinesFailExactly(c: Config, s: State, line: Bytes)
    requires AtLineStart(s) && WithinLimits(c, s)
    ensures line == [] ==> ReadLine(c, s, line).error.None?
    ensures line != [] ==> FailsWith(c, s, line, ReadLine(c, s, line).error)
  {
    hide Join, CountData;
    CountDataIs(s.(pending := line), ValueOf(line));
    if line != [] && line[0] == 58 {
      assert line == [] + [58] + line[1..];
      FieldsAreExactly([], line[1..]);
    }
  }

  /** Lines of one event: an optional type, then one data line per value. */
  function EventLines(eventType: Option<Bytes>, values: seq<Bytes>): seq<Bytes> {
    (if eventType.Some? then [[101, 118, 101, 110, 116, 58, 32] + eventType.value] else []) + DataLines(values)
  }

  function DataLines(values: seq<Bytes>): seq<Bytes> {
    seq(|values|, i requires 0 <= i < |values| => [100, 97, 116, 97, 58, 32] + values[i])
  }

  /** Every line, and a blank one, each with this line end. */
  function Text(lines: seq<Bytes>, end: Bytes): Bytes {
    if lines == [] then end else lines[0] + end + Text(lines[1..], end)
  }

  lemma CutNothing()
    ensures CutLines([]) == Cut([], [], false)
  {
  }

  lemma {:induction false} TextCuts(lines: seq<Bytes>, end: Bytes)
    requires (end == [10] || end == [13, 10]) && forall i :: 0 <= i < |lines| ==> OneLine(lines[i])
    ensures CutLines(Text(lines, end)) == Cut(lines + [[]], [], false)
    decreases lines
  {
    CutNothing();
    hide CutLines;
    if lines == [] {
      assert end == [] + end + [];
      CutFirst([], end, []);
    } else {
      TextCuts(lines[1..], end);
      CutFirst(lines[0], end, Text(lines[1..], end));
      assert [lines[0]] + (lines[1..] + [[]]) == lines + [[]];
    }
  }

  /** The event's lines and its joined data are within the limits. */
  ghost predicate EventFits(c: Config, eventType: Option<Bytes>, values: seq<Bytes>) {
    && (forall i :: 0 <= i < |EventLines(eventType, values)| ==>
          |EventLines(eventType, values)[i]| <= c.maxLine && c.utf8(EventLines(eventType, values)[i]))
    && (eventType.Some? ==> OneLine(eventType.value) && |eventType.value| <= c.maxType)
    && (forall i :: 0 <= i < |values| ==> OneLine(values[i]))
    && |Join(values)| <= c.maxData
  }

  lemma JoinGrows(values: seq<Bytes>, n: nat)
    requires n <= |values|
    ensures |Join(values[..n])| <= |Join(values)|
    decreases |values| - n
  {
    if n < |values| {
      JoinLength(values[..n], values[n]);
      assert values[..n] + [values[n]] == values[..n + 1];
      JoinGrows(values, n + 1);
    } else {
      assert values[..n] == values;
    }
  }

  /** Data lines are collected one by one. */
  lemma {:induction false} DataIsCollected(c: Config, s: State, eventType: Option<Bytes>, values: seq<Bytes>, n: nat)
    requires EventFits(c, eventType, values) && n <= |values|
    requires AtLineStart(s) && WithinLimits(c, s) && s.dataLines == values[..n]
    ensures
      var o := ReadLines(c, s, DataLines(values[n..]));
      && o.error.None? && o.items == [] && AtLineStart(o.state)
      && o.state.dataLines == values && o.state.eventType == s.eventType
    decreases |values| - n
  {
    var lines := DataLines(values[n..]);
    if n == |values| {
      assert values[..n] == values && lines == [];
    } else {
      var line := lines[0];
      var o := ReadLine(c, s, line);
      DataLineIs(c, s, eventType, values, n);
      assert lines[1..] == DataLines(values[n + 1..]);
      DataIsCollected(c, o.state, eventType, values, n + 1);
    }
  }

  lemma DataLineIs(c: Config, s: State, eventType: Option<Bytes>, values: seq<Bytes>, n: nat)
    requires EventFits(c, eventType, values) && n < |values|
    requires AtLineStart(s) && WithinLimits(c, s) && s.dataLines == values[..n]
    ensures
      var o := ReadLine(c, s, [100, 97, 116, 97, 58, 32] + values[n]);
      && o.error.None? && o.items == [] && AtLineStart(o.state) && WithinLimits(c, o.state)
      && o.state.dataLines == values[..n + 1] && o.state.eventType == s.eventType
  {
    var line := [100, 97, 116, 97, 58, 32] + values[n];
    var all := EventLines(eventType, values);
    assert line == all[|all| - |values| + n];
    assert line == [100, 97, 116, 97] + [58, 32] + values[n];
    FieldsAreExactly([100, 97, 116, 97], values[n]);
    assert values[..n] + [values[n]] == values[..n + 1];
    JoinGrows(values, n + 1);
    LinesFailExactly(c, s, line);
    LineCollects(c, s, line);
    FinishKeepsLimits(c, s.(pending := line));
  }

  /**
   * What a stream means, byte for byte: the lines of an event within the limits, and a blank line,
   * ended by LF or by CR LF, make a new parser dispatch exactly that type and those values, and
   * leave it new. The values are what cutting the data at LF gives.
   */
  lemma EventTextDispatches(c: Config, eventType: Option<Bytes>, values: seq<Bytes>, end: Bytes) returns (data: Bytes)
    requires EventFits(c, eventType, values) && (end == [10] || end == [13, 10])
    ensures Feed(c, NEW, Text(EventLines(eventType, values), end)) == Outcome(NEW, [Event(eventType, data)], None)
    ensures if values == [] then data == [] else SplitLf(data) == values
  {
    data := Join(values);
    if values != [] { JoinedSplits(values); }
    hide Join, SplitLf, EventLines, EventFits, Feed, ReadLines, Text;
    var lines := EventLines(eventType, values);
    forall i | 0 <= i < |lines| ensures OneLine(lines[i]) { EventLinesAreLines(c, eventType, values, i); }
    TextCuts(lines, end);
    FeedIsReadBatch(c, NEW, Text(lines, end));
    EventLinesDispatch(c, eventType, values);
  }

  lemma EventLinesDispatch(c: Config, eventType: Option<Bytes>, values: seq<Bytes>)
    requires EventFits(c, eventType, values)
    ensures ReadLines(c, NEW, EventLines(eventType, values) + [[]]) == Outcome(NEW, [Event(eventType, Join(values))], None)
  {
    EventIsCollected(c, eventType, values);
    hide Join, EventLines, EventFits;
    ReadLinesConcat(c, NEW, EventLines(eventType, values), [[]]);
  }

  lemma EventLinesAreLines(c: Config, eventType: Option<Bytes>, values: seq<Bytes>, i: nat)
    requires EventFits(c, eventType, values) && i < |EventLines(eventType, values)|
    ensures OneLine(EventLines(eventType, values)[i])
  {
    var line := EventLines(eventType, values)[i];
    if eventType.Some? && i == 0 {
      assert line == [101, 118, 101, 110, 116, 58, 32] + eventType.value;
    } else {
      var n := if eventType.Some? then i - 1 else i;
      assert line == [100, 97, 116, 97, 58, 32] + values[n];
    }
  }

  lemma EventIsCollected(c: Config, eventType: Option<Bytes>, values: seq<Bytes>)
    requires EventFits(c, eventType, values)
    ensures
      var o := ReadLines(c, NEW, EventLines(eventType, values));
      && o.error.None? && o.items == [] && AtLineStart(o.state)
      && o.state.dataLines == values && o.state.eventType == eventType
  {
    var all := EventLines(eventType, values);
    assert values[..0] == [] && values[0..] == values;
    JoinOfNone();
    if eventType.None? {
      assert all == DataLines(values);
      DataIsCollected(c, NEW, eventType, values, 0);
    } else {
      var t := eventType.value;
      var line := [101, 118, 101, 110, 116, 58, 32] + t;
      assert all[0] == line && all[1..] == DataLines(values);
      assert line == [101, 118, 101, 110, 116] + [58, 32] + t;
      FieldsAreExactly([101, 118, 101, 110, 116], t);
      LinesFailExactly(c, NEW, line);
      LineCollects(c, NEW, line);
      FinishKeepsLimits(c, NEW.(pending := line));
      var o := ReadLine(c, NEW, line);
      DataIsCollected(c, o.state, eventType, values, 0);
    }
  }

  // ---------------------------------------------------------------------------------------------
  // The parser object
  // ---------------------------------------------------------------------------------------------

  class SseParser {
    const config: Config
    var pending: Bytes
    var eventType: Option<Bytes>
    var dataLines: seq<Bytes>
    var dataBytes: nat
    var sawCr: bool

    function Abs(): State
      reads this
    {
      State(pending, eventType, dataLines, dataBytes, sawCr)
    }

    constructor (config: Config)
      ensures Abs() == NEW && this.config == config
    {
      this.config := config;
      pending, eventType, dataLines, dataBytes, sawCr := [], None, [], 0, false;
    }

    /** Take the event collected so far. */
    method DispatchEvent() returns (event: Item)
      modifies this`eventType, this`dataLines, this`dataBytes
      ensures event == Event(old(eventType), Join(old(dataLines)))
      ensures eventType == None && dataLines == [] && dataBytes == 0
    {
      event := Event(eventType, Join(dataLines));
      eventType, dataLines, dataBytes := None, [], 0;
    }

    /** End the pending line. */
    method EndLine() returns (item: Option<Item>, error: Option<Error>)
      modifies this`pending, this`eventType, this`dataLines, this`dataBytes
      ensures
        var o := FinishLine(config, old(Abs()));
        && Abs() == o.state && error == o.error
        && o.items == if item.Some? then [item.value] else []
    {
      item, error := None, None;
      var line := pending;
      pending := [];
      if line == [] {
        var event := DispatchEvent();
        return Some(event), None;
      }
      if !config.utf8(line) {
        return None, Some(InvalidUtf8);
      }
      if line[0] == COLON {
        return Some(Comment), None;
      }
      var field, value := FieldOf(line), ValueOf(line);
      if field == EVENT {
        if |value| > config.maxType {
          return None, Some(LimitExceeded(EventType, |value|, config.maxType));
        }
        eventType := Some(value);
      } else if field == DATA {
        var added := if dataLines == [] then |value| else SaturatingAdd(|value|, 1);
        var next := SaturatingAdd(dataBytes, added);
        if next > config.maxData {
          return None, Some(LimitExceeded(EventData, next, config.maxData));
        }
        dataBytes := next;
        dataLines := dataLines + [value];
      }
    }

    /** Feed a chunk; an error discards the items completed in this call. */
    method Push(chunk: Bytes) returns (result: Result<seq<Item>, Error>)
      modifies this
      ensures
        var o := Feed(config, old(Abs()), chunk);
        Abs() == o.state && result == if o.error.Some? then Err(o.error.value) else Ok(o.items)
    {
      var items := [];
      var i := 0;
      while i < |chunk|
        invariant 0 <= i <= |chunk|
        invariant Feed(config, old(Abs()), chunk[..i]) == Outcome(Abs(), items, None)
      {
        ghost var before := Abs();
        FeedSnoc(config, old(Abs()), chunk, i);
        var b := chunk[i];
        i := i + 1;
        if sawCr {
          sawCr := false;
          var item, error := EndLine();
          if error.Some? {
            return Err(error.value);
          }
          items := items + if item.Some? then [item.value] else [];
          if b == LF {
            continue;
          }
        }
        if b == LF {
          var item, error := EndLine();
          if error.Some? {
            return Err(error.value);
          }
          items := items + if item.Some? then [item.value] else [];
        } else if b == CR {
          sawCr := true;
        } else {
          if |pending| >= config.maxLine {
            return Err(LimitExceeded(Line, SaturatingAdd(|pending|, 1), config.maxLine));
          }
          pending := pending + [b];
        }
      }
      assert chunk[..i] == chunk;
      result := Ok(items);
    }
  }

  /** One more byte of a chunk that has not failed. */
  lemma FeedSnoc(c: Config, s: State, chunk: Bytes, i: nat)
    requires i < |chunk|
    requires Feed(c, s, chunk[..i]).error.None?
    ensures
      var before := Feed(c, s, chunk[..i]);
      var step := FeedByte(c, before.state, chunk[i]);
      && Feed(c, s, chunk[..i + 1]) == step.(items := before.items + step.items)
      && (step.error.Some? ==> Feed(c, s, chunk).error == step.error && Feed(c, s, chunk).state == step.state)
  {
    var before := Feed(c, s, chunk[..i]);
    var step := FeedByte(c, before.state, chunk[i]);
    assert chunk[..i + 1] == chunk[..i] + [chunk[i]];
    FeedConcat(c, s, chunk[..i], [chunk[i]]);
    FeedOne(c, before.state, chunk[i]);
    assert chunk == chunk[..i + 1] + chunk[i + 1..];
    FeedConcat(c, s, chunk[..i + 1], chunk[i + 1..]);
  }

  lemma FeedOne(c: Config, s: State, b: byte)
    ensures Feed(c, s, [b]) == FeedByte(c, s, b)
  {
    var first := FeedByte(c, s, b);
    assert [b][1..] == [];
    assert first.items + [] == first.items;
  }
}
