/** The incremental line framer of the serial capture (tools/nano_capture.py). */
module NanoCapture {
  import opened Words
  import opened Decimal
  import opened CaptureLines

  const MAX_LINE_BYTES := 4096

  /** A recording in progress: the unfinished line, or that it is being skipped as too long,
      or that a line ended the recording (its number is `session.lines`). */
  datatype Stream = Stream(session: Session, pending: Bytes, discarding: bool, failed: bool)

  /** The framer as a machine over single bytes. */
  function Step(split: Splitter, t: Stream, b: u8): Stream {
    if t.failed then t
    else if b == NEWLINE then
      if t.discarding then t.(pending := [], discarding := false)
      else
        var (s, fatal) := EndLine(split, t.session, t.pending);
        Stream(s, [], false, fatal)
    else if t.discarding then t
    else if |t.pending| >= MAX_LINE_BYTES then Stream(Oversize(t.session), [], true, false)
    else t.(pending := t.pending + [b])
  }

  function Run(split: Splitter, t: Stream, data: Bytes): Stream {
    if |data| == 0 then t else Step(split, Run(split, t, data[..|data| - 1]), data[|data| - 1])
  }

  lemma {:induction false} RunAppend(split: Splitter, t: Stream, a: Bytes, b: Bytes)
    ensures Run(split, t, a + b) == Run(split, Run(split, t, a), b)
  {
    hide Step;
    if |b| == 0 {
      assert a + b == a;
    } else {
      RunAppend(split, t, a, b[..|b| - 1]);
      assert (a + b)[..|a + b| - 1] == a + b[..|b| - 1];
    }
  }

  lemma {:induction false} RunFailed(split: Splitter, t: Stream, data: Bytes)
    requires t.failed
    ensures Run(split, t, data) == t
  {
    if |data| > 0 {
      RunFailed(split, t, data[..|data| - 1]);
    }
  }

  predicate Unbroken(line: Bytes) {
    NEWLINE !in line
  }

  /** Where bytes without a line end leave a stream. */
  function Partial(t: Stream, line: Bytes): Stream {
    if t.failed || t.discarding then t
    else if |t.pending| + |line| > MAX_LINE_BYTES then Stream(Oversize(t.session), [], true, false)
    else t.(pending := t.pending + line)
  }

  lemma {:induction false} RunUnbroken(split: Splitter, t: Stream, line: Bytes)
    requires Unbroken(line) && |t.pending| <= MAX_LINE_BYTES
    ensures Run(split, t, line) == Partial(t, line)
  {
    hide Oversize;
    if |line| == 0 {
      assert t.pending + line == t.pending;
    } else {
      var before, b := line[..|line| - 1], line[|line| - 1];
      RunUnbroken(split, t, before);
      assert t.pending + line == (t.pending + before) + [b];
    }
  }

  /** A whole line taken from the start of a line, as the program takes it. */
  function TakeLine(split: Splitter, s: Session, discarding: bool, line: Bytes): Stream {
    if discarding then Stream(s, [], false, false)
    else if |line| > MAX_LINE_BYTES then Stream(Oversize(s), [], false, false)
    else
      var (t, fatal) := EndLine(split, s, line);
      Stream(t, [], false, fatal)
  }

  lemma RunLine(split: Splitter, s: Session, discarding: bool, line: Bytes, tail: Bytes)
    requires Unbroken(line)
    ensures Run(split, Stream(s, [], discarding, false), line + [NEWLINE] + tail) ==
            Run(split, TakeLine(split, s, discarding, line), tail)
  {
    hide Oversize, EndLine;
    var start := Stream(s, [], discarding, false);
    RunAppend(split, start, line + [NEWLINE], tail);
    RunUnbroken(split, start, line);
    assert [] + line == line;
    assert (line + [NEWLINE])[..|line|] == line;
  }

  /** Bytes held back from earlier calls count as if they came with the next ones; while a
      line is being skipped they do not matter at all. */
  lemma HeldBytes(split: Splitter, s: Session, discarding: bool, pending: Bytes, data: Bytes)
    requires Unbroken(pending) && |pending| <= MAX_LINE_BYTES
    ensures Run(split, Stream(s, [], discarding, false), pending) ==
            Stream(s, if discarding then [] else pending, discarding, false)
    ensures Run(split, Stream(s, if discarding then [] else pending, discarding, false), data) ==
            Run(split, Stream(s, [], discarding, false), pending + data)
  {
    hide Oversize;
    var start := Stream(s, [], discarding, false);
    RunAppend(split, start, pending, data);
    RunUnbroken(split, start, pending);
    assert [] + pending == pending;
  }

  // ---- chunking does not matter ----

  function Concat(chunks: seq<Bytes>): Bytes {
    if |chunks| == 0 then [] else Concat(chunks[..|chunks| - 1]) + chunks[|chunks| - 1]
  }

  function RunChunks(split: Splitter, t: Stream, chunks: seq<Bytes>): Stream {
    if |chunks| == 0 then t else Run(split, RunChunks(split, t, chunks[..|chunks| - 1]), chunks[|chunks| - 1])
  }

  /** Feeding a stream in any chunks leaves the same rows, readiness, counters and error line. */
  lemma {:induction false} ChunkingIsIrrelevant(split: Splitter, t: Stream, chunks: seq<Bytes>)
    ensures RunChunks(split, t, chunks) == Run(split, t, Concat(chunks))
  {
    hide Run;
    if |chunks| == 0 {
      NothingRuns(split, t);
    } else {
      var before := chunks[..|chunks| - 1];
      ChunkingIsIrrelevant(split, t, before);
      RunAppend(split, t, Concat(before), chunks[|chunks| - 1]);
    }
  }

  lemma NothingRuns(split: Splitter, t: Stream)
    ensures Run(split, t, []) == t
  {
  }

  /** In every reachable state that has not failed, every line was counted exactly once. */
  lemma {:induction false} AlwaysBalanced(split: Splitter, t: Stream, data: Bytes)
    requires !t.failed && Balanced(t.session)
    ensures Run(split, t, data).failed || Balanced(Run(split, t, data).session)
  {
    hide Balanced, EndLine, Oversize;
    if |data| > 0 {
      AlwaysBalanced(split, t, data[..|data| - 1]);
      var u := Run(split, t, data[..|data| - 1]);
      if !u.failed {
        EndLineBalances(split, u.session, u.pending);
      }
    }
  }

  /** Rows are only ever appended, and an error stops everything. */
  lemma {:induction false} RowsOnlyGrow(split: Splitter, t: Stream, data: Bytes)
    ensures t.session.out <= Run(split, t, data).session.out
  {
    hide EndLine;
    if |data| > 0 {
      RowsOnlyGrow(split, t, data[..|data| - 1]);
      var u := Run(split, t, data[..|data| - 1]);
      ReadinessGuardsSamples(split, u.session, u.pending);
    }
  }

  /** At the end of the input an unfinished line is malformed. */
  function Finish(t: Stream): Session {
    if |t.pending| > 0 && !t.discarding then
      t.session.(lines := t.session.lines + 1, malformed := t.session.malformed + 1)
    else t.session
  }

  lemma FinishBalances(t: Stream)
    requires Balanced(t.session)
    ensures Balanced(Finish(t))
  {
    hide Rows;
  }

  // ---- closing, after an error too ----

  /** The length of the shortest beginning of these bytes that ends the recording. */
  function FailAt(split: Splitter, t: Stream, data: Bytes): (m: nat)
    requires !t.failed && Run(split, t, data).failed
    ensures 0 < m <= |data|
  {
    if Run(split, t, data[..|data| - 1]).failed then FailAt(split, t, data[..|data| - 1]) else |data|
  }

  lemma {:induction false} FailAtPrefix(split: Splitter, t: Stream, a: Bytes, b: Bytes)
    requires !t.failed && Run(split, t, a).failed
    ensures Run(split, t, a + b) == Run(split, t, a) && FailAt(split, t, a + b) == FailAt(split, t, a)
    decreases |b|
  {
    hide Step;
    if |b| == 0 {
      assert a + b == a;
    } else {
      FailAtPrefix(split, t, a, b[..|b| - 1]);
      assert (a + b)[..|a + b| - 1] == a + b[..|b| - 1];
      RunAppend(split, t, a, b);
      RunFailed(split, Run(split, t, a), b);
    }
  }

  lemma {:induction false} FailAtAppend(split: Splitter, t: Stream, a: Bytes, b: Bytes)
    requires !t.failed && !Run(split, t, a).failed && Run(split, t, a + b).failed
    ensures Run(split, Run(split, t, a), b).failed
    ensures FailAt(split, t, a + b) == |a| + FailAt(split, Run(split, t, a), b)
    decreases |b|
  {
    hide Step;
    RunAppend(split, t, a, b);
    assert a + [] == a;
    if |b| > 0 {
      var c := b[..|b| - 1];
      assert (a + b)[..|a + b| - 1] == a + c;
      RunAppend(split, t, a, c);
      if Run(split, t, a + c).failed {
        FailAtAppend(split, t, a, c);
      }
    }
  }

  /** Closing after an error: bytes of the failing chunk that were not looked at count as one
      more malformed line. */
  function CloseFailed(s: Session, unread: nat): Session {
    if unread > 0 then Reject(NextLine(s), false) else s
  }

  /** What feeding these chunks, up to an error if there is one, and closing leaves. */
  function CloseChunks(split: Splitter, t: Stream, chunks: seq<Bytes>): Session
    requires !t.failed
    decreases |chunks|
  {
    if |chunks| == 0 then Finish(t)
    else
      var u := Run(split, t, chunks[0]);
      if u.failed then CloseFailed(u.session, |chunks[0]| - FailAt(split, t, chunks[0]))
      else CloseChunks(split, u, chunks[1..])
  }

  /** A chunk ends after exactly m bytes. */
  predicate EndsChunk(chunks: seq<Bytes>, m: nat)
    decreases |chunks|
  {
    m == 0 || (|chunks| > 0 && m >= |chunks[0]| && EndsChunk(chunks[1..], m - |chunks[0]|))
  }

  lemma JoinThree(a: Bytes, b: Bytes, c: Bytes)
    ensures (a + b) + c == a + (b + c)
  {
  }

  lemma {:induction false} ConcatFirst(chunks: seq<Bytes>)
    requires |chunks| > 0
    ensures Concat(chunks) == chunks[0] + Concat(chunks[1..])
    decreases |chunks|
  {
    var n := |chunks|;
    if n == 1 {
      assert chunks[..0] == [] && chunks[1..] == [];
    } else {
      ConcatFirst(chunks[..n - 1]);
      var front, rest := chunks[..n - 1], chunks[1..];
      assert front[0] == chunks[0] && front[1..] == rest[..n - 2] && rest[n - 2] == chunks[n - 1];
      JoinThree(chunks[0], Concat(front[1..]), chunks[n - 1]);
    }
  }

  /** Without an error closing does not depend on the chunks at all; after one it depends on
      them only by whether a chunk ended with the line that failed. */
  lemma {:induction false} ClosingByBoundary(split: Splitter, t: Stream, chunks: seq<Bytes>)
    requires !t.failed
    ensures var u := Run(split, t, Concat(chunks));
      CloseChunks(split, t, chunks) ==
      if !u.failed then Finish(u)
      else CloseFailed(u.session, if EndsChunk(chunks, FailAt(split, t, Concat(chunks))) then 0 else 1)
    decreases |chunks|
  {
    hide Run, Step, Finish;
    if |chunks| == 0 {
      NothingRuns(split, t);
    } else {
      var first, rest := chunks[0], Concat(chunks[1..]);
      var u := Run(split, t, first);
      ConcatFirst(chunks);
      RunAppend(split, t, first, rest);
      if u.failed {
        FailAtPrefix(split, t, first, rest);
      } else {
        ClosingByBoundary(split, u, chunks[1..]);
        if Run(split, t, first + rest).failed {
          FailAtAppend(split, t, first, rest);
        }
      }
    }
  }

  /** A recording closed without an error accounts for every line, the unfinished one included. */
  lemma ClosedIsBalanced(split: Splitter, t: Stream, chunks: seq<Bytes>)
    requires !t.failed && Balanced(t.session) && !Run(split, t, Concat(chunks)).failed
    ensures Balanced(CloseChunks(split, t, chunks))
  {
    hide Run, Finish, Balanced, CloseChunks, EndsChunk;
    ClosingByBoundary(split, t, chunks);
    AlwaysBalanced(split, t, Concat(chunks));
    FinishBalances(Run(split, t, Concat(chunks)));
  }

  /** Two chunkings of one stream close alike exactly when no line failed, or the failing line
      ends a chunk in both or in neither. */
  lemma ClosingAgrees(split: Splitter, t: Stream, xs: seq<Bytes>, ys: seq<Bytes>)
    requires !t.failed && Concat(xs) == Concat(ys)
    ensures CloseChunks(split, t, xs) == CloseChunks(split, t, ys) <==>
      !Run(split, t, Concat(xs)).failed ||
      (EndsChunk(xs, FailAt(split, t, Concat(xs))) <==> EndsChunk(ys, FailAt(split, t, Concat(xs))))
  {
    hide Run, Finish, EndsChunk, FailAt, CloseChunks;
    ClosingByBoundary(split, t, xs);
    ClosingByBoundary(split, t, ys);
  }

  /** Any line that fails, with one byte after it, cut in two ways. */
  lemma ChunkingShowsAtClose(split: Splitter, s: Session, line: Bytes, x: u8)
    requires Unbroken(line) && |line| <= MAX_LINE_BYTES && EndLine(split, s, line).1
    ensures var t := Stream(s, [], false, false);
      CloseChunks(split, t, [line + [NEWLINE] + [x]]) != CloseChunks(split, t, [line + [NEWLINE], [x]])
  {
    hide EndLine;
    var t := Stream(s, [], false, false);
    FailingLine(split, s, false, line);
    FailAtPrefix(split, t, line + [NEWLINE], [x]);
  }

  lemma FailingLine(split: Splitter, s: Session, discarding: bool, line: Bytes)
    requires Unbroken(line) && TakeLine(split, s, discarding, line).failed
    ensures var t := Stream(s, [], discarding, false);
      && Run(split, t, line + [NEWLINE]) == TakeLine(split, s, discarding, line)
      && FailAt(split, t, line + [NEWLINE]) == |line| + 1
  {
    hide EndLine, Oversize;
    var t := Stream(s, [], discarding, false);
    RunLine(split, s, discarding, line, []);
    NothingRuns(split, TakeLine(split, s, discarding, line));
    assert line + [NEWLINE] + [] == line + [NEWLINE];
    RunUnbroken(split, t, line);
    assert (line + [NEWLINE])[..|line|] == line;
  }

  const EMPTY := Session(None, false, {}, Counts(0, 0, 0, 0, 0), 0, 0, 0, 0, [])

  class Capture {
    const split: Splitter
    var cfg: Option<Config>
    var configured: bool
    var schemas: set<Tag>
    var counts: Counts
    var malformed: nat
    var beforeReady: nat
    var lines: nat
    var out: seq<OutRow>
    var raw: Bytes
    var pending: Bytes
    var discarding: bool
    ghost var blanks: nat
    ghost var failed: bool

    ghost function Recorded(): Session
      reads this
    {
      Session(cfg, configured, schemas, counts, malformed, beforeReady, lines, blanks, out)
    }

    /** Held bytes matter only while a line is being collected. */
    ghost function View(): Stream
      reads this
    {
      Stream(Recorded(), if failed || discarding then [] else pending, discarding, failed)
    }

    ghost predicate Valid()
      reads this
    {
      !failed ==> Unbroken(pending) && |pending| <= MAX_LINE_BYTES
    }

    constructor (split: Splitter)
      ensures Valid() && View() == Stream(EMPTY, [], false, false) && raw == [] && this.split == split
    {
      this.split := split;
      cfg, configured, schemas, counts := None, false, {}, Counts(0, 0, 0, 0, 0);
      malformed, beforeReady, lines, out := 0, 0, 0, [];
      raw, pending, discarding := [], [], false;
      blanks, failed := 0, false;
    }

    /** At the start of a line. */
    ghost function Fresh(): Stream
      reads this
    {
      Stream(Recorded(), [], discarding, false)
    }

    /** Every byte is kept in the raw log; a chunk, however cut, has the effect of its bytes
        one by one. If a line ends the recording the bytes after it stay unread. */
    method Feed(data: Bytes) returns (ok: bool)
      requires Valid() && !failed
      modifies this
      ensures Valid() && ok == !failed && raw == old(raw) + data
      ensures View() == Run(split, old(View()), data)
      ensures !ok ==> !discarding && pending == data[FailAt(split, old(View()), data)..]
    {
      hide Run, EndLine, Oversize, FailAt;
      ghost var start, from, held, gone := View(), Fresh(), pending, [];
      raw := raw + data;
      HeldBytes(split, Recorded(), discarding, pending, data);
      NothingRuns(split, from);
      pending := pending + data;
      while NEWLINE in pending
        invariant !failed && raw == old(raw) + data
        invariant gone + pending == held + data && Run(split, from, gone) == Fresh()
        decreases |pending|
      {
        ghost var clean, taken := Fresh(), [];
        ok, taken := TakeFirst();
        RunAppend(split, from, gone, taken);
        if !ok {
          StopsAt(split, from, start, held, data, gone, clean, taken, pending);
          return;
        }
        gone := gone + taken;
      }
      RunAppend(split, from, gone, pending);
      Overflow();
      ok := true;
    }

    /** One turn of the feed loop: the first complete line leaves the buffer. */
    method TakeFirst() returns (ok: bool, ghost taken: Bytes)
      requires !failed && NEWLINE in pending
      modifies this
      ensures ok == !failed && raw == old(raw) && taken != [] && old(pending) == taken + pending
      ensures Run(split, old(Fresh()), taken) == if failed then View() else Fresh()
      ensures !ok ==> !discarding && FailAt(split, old(Fresh()), taken) == |taken|
    {
      hide Run, EndLine, Oversize, FailAt;
      var i := IndexOf(pending, NEWLINE);
      var line, tail := pending[..i], pending[i + 1..];
      taken := line + [NEWLINE];
      assert pending == taken + tail;
      RunLine(split, Recorded(), discarding, line, []);
      assert line + [NEWLINE] + [] == taken;
      NothingRuns(split, TakeLine(split, Recorded(), discarding, line));
      ghost var before := Recorded();
      pending := tail;
      ok := true;
      if discarding {
        discarding := false;
      } else if |line| > MAX_LINE_BYTES {
        NoteOversize();
      } else {
        ok := Line(line);
        if !ok {
          FailingLine(split, before, false, line);
        }
      }
    }

    /** What remains after the last complete line is held, unless it is already too long. */
    method Overflow()
      requires !failed && Unbroken(pending)
      modifies this
      ensures Valid() && !failed && raw == old(raw)
      ensures View() == Run(split, old(Stream(Recorded(), [], discarding, false)), old(pending))
    {
      hide Run, EndLine, Oversize;
      RunUnbroken(split, Stream(Recorded(), [], discarding, false), pending);
      assert [] + pending == pending;
      if |pending| > MAX_LINE_BYTES {
        if !discarding {
          NoteOversize();
        }
        pending := [];
        discarding := true;
      }
    }

    method NoteOversize()
      modifies this`lines, this`malformed, this`configured, this`schemas
      ensures Recorded() == Oversize(old(Recorded()))
    {
      lines := lines + 1;
      malformed := malformed + 1;
      configured := false;
      schemas := {};
    }

    /** One complete line, counted; a malformed one is counted as such. */
    method Line(line: Bytes) returns (ok: bool)
      requires !failed
      modifies this`cfg, this`configured, this`schemas, this`counts, this`malformed, this`beforeReady, this`lines,
               this`out, this`blanks, this`failed
      ensures (Recorded(), failed) == EndLine(split, old(Recorded()), line) && ok == !failed
    {
      hide LineOf, LooksLikeMetadata;
      lines := lines + 1;
      var data := WithoutReturn(line);
      var verdict := Dispatch(data);
      if verdict == MALFORMED {
        if LooksLikeMetadata(data) {
          configured := false;
          schemas := {};
        }
        malformed := malformed + 1;
      }
      failed := verdict == FATAL;
      ok := verdict != FATAL;
    }

    method Dispatch(data: Bytes) returns (verdict: Verdict)
      modifies this`cfg, this`configured, this`schemas, this`counts, this`beforeReady, this`out, this`blanks
      ensures Matches(LineOf(split, old(Recorded()), data), verdict, old(Recorded()), Recorded())
    {
      hide CfgLine, SchemaLine, SampleLine, StatusLine;
      if |data| == 0 {
        blanks := blanks + 1;
        return OK;
      }
      var cols := split(data);
      if cols.None? || |cols.value| == 0 {
        return MALFORMED;
      }
      var tag, values := cols.value[0], cols.value[1..];
      if tag == "CFG" {
        verdict := Cfg(values);
      } else if tag == "SCH" {
        verdict := Schema(values, data);
      } else if TagOf(tag).Some? {
        verdict := Sample(TagOf(tag).value, values);
      } else if tag == "STS" {
        verdict := Status(values, data);
      } else {
        verdict := MALFORMED;
      }
    }

    method Cfg(values: seq<string>) returns (verdict: Verdict)
      modifies this`cfg, this`configured, this`counts, this`out
      ensures Matches(CfgLine(old(Recorded()), values), verdict, old(Recorded()), Recorded())
    {
      hide Supported, SameContract, FrequencyOk, Lookup;
      var parsed := Tokens(values);
      if parsed.None? || !Complete(parsed.value) || !FrequencyOk(Lookup(parsed.value, "nhz").value) {
        return MALFORMED;
      }
      if !Supported(parsed.value) || (cfg.Some? && !SameContract(parsed.value, cfg.value)) {
        return FATAL;
      }
      cfg := parsed;
      configured := true;
      var rows := CfgRows(lines, parsed.value);
      out := out + rows;
      counts := counts.(cfg := counts.cfg + 1);
      verdict := OK;
    }

    /** The token loop: each key=value pair is kept in order, unless one is malformed. */
    method Tokens(values: seq<string>) returns (parsed: Option<Config>)
      ensures parsed == ParseCfg(values)
    {
      hide TokenOk;
      var pairs: Config := [];
      assert values[..0] == [];
      for i := 0 to |values|
        invariant ParseCfg(values[..i]) == Some(pairs)
      {
        assert values[..i + 1][..i] == values[..i];
        if !TokenOk(pairs, values[i]) {
          ParseStops(values, i + 1);
          return None;
        }
        pairs := pairs + [PairOf(pairs, values[i])];
      }
      assert values[..|values|] == values;
      parsed := Some(pairs);
    }

    method Schema(values: seq<string>, data: Bytes) returns (verdict: Verdict)
      modifies this`schemas, this`counts, this`out
      ensures Matches(SchemaLine(old(Recorded()), values, data), verdict, old(Recorded()), Recorded())
    {
      hide Fields;
      if |values| < 3 {
        return MALFORMED;
      }
      var tag := TagOf(values[0]);
      if tag.None? || values[1] != SchemaId(tag.value) || values[2..] != Fields(tag.value) {
        return FATAL;
      }
      schemas := schemas + {tag.value};
      out := out + [SchemaRow(lines, tag.value, data)];
      counts := counts.(sch := counts.sch + 1);
      verdict := OK;
    }

    method Sample(tag: Tag, values: seq<string>) returns (verdict: Verdict)
      modifies this`beforeReady, this`counts, this`out
      ensures Matches(SampleLine(old(Recorded()), tag, values), verdict, old(Recorded()), Recorded())
    {
      hide Fields, FieldOk;
      if |values| != |Fields(tag)| {
        return MALFORMED;
      }
      for i := 0 to |values|
        invariant forall j :: 0 <= j < i ==> FieldOk(values[j], Limit(tag, j))
      {
        if !FieldOk(values[i], Limit(tag, i)) {
          return MALFORMED;
        }
      }
      verdict := OK;
      if !(configured && schemas == {CSW, CPS}) {
        beforeReady := beforeReady + 1;
        return;
      }
      out := out + [SampleRow(tag, values)];
      counts := CountSample(counts, tag);
    }

    method Status(values: seq<string>, data: Bytes) returns (verdict: Verdict)
      modifies this`counts, this`out
      ensures Matches(StatusLine(old(Recorded()), values, data), verdict, old(Recorded()), Recorded())
    {
      hide StatusOk, Join;
      if |values| == 0 || !StatusOk(values[0]) {
        return MALFORMED;
      }
      var family := if |values| > 1 then values[1] else "";
      var payload := if |values| > 2 then Join(values[2..]) else "";
      out := out + [StatusRow(lines, values[0], family, payload, data)];
      counts := counts.(sts := counts.sts + 1);
      verdict := OK;
    }

    /** A whole recording: chunks are fed until one fails, and then it is closed. */
    method Record(chunks: seq<Bytes>) returns (ok: bool)
      requires Valid() && !failed
      modifies this
      ensures Recorded() == CloseChunks(split, old(View()), chunks)
      ensures ok <==> !RunChunks(split, old(View()), chunks).failed
    {
      hide Run, FailAt, CloseChunks, RunChunks;
      ghost var start := View();
      NothingFed(split, start, chunks);
      var i := 0;
      while i < |chunks|
        invariant i <= |chunks| && Valid() && !failed
        invariant View() == RunChunks(split, start, chunks[..i])
        invariant CloseChunks(split, start, chunks) == CloseChunks(split, View(), chunks[i..])
      {
        NextChunk(split, start, chunks, i);
        ok := Feed(chunks[i]);
        if !ok {
          StaysFailed(split, start, chunks, i + 1);
          Close();
          return;
        }
        i := i + 1;
      }
      LastChunk(split, View(), chunks);
      Close();
      ok := true;
    }

    /** Closing the recording counts the bytes held back as a malformed line. */
    method Close()
      modifies this
      ensures var held := |old(pending)| > 0 && !old(discarding);
        Recorded() == if held then Reject(NextLine(old(Recorded())), false) else old(Recorded())
      ensures !old(failed) ==> Recorded() == Finish(old(View())) && View() == Stream(Recorded(), [], discarding, false)
      ensures raw == old(raw)
    {
      if |pending| > 0 && !discarding {
        lines := lines + 1;
        malformed := malformed + 1;
      }
      pending := [];
    }
  }

  ghost predicate Matches(r: LineResult, verdict: Verdict, before: Session, after: Session) {
    match r
    case Accepted(s) => verdict == OK && after == s
    case Rejected => verdict == MALFORMED && after == before
    case Fatal => verdict == FATAL && after == before
  }

  function PairOf(cfg: Config, token: string): (string, string)
    requires TokenOk(cfg, token)
  {
    TokenPair(token)
  }

  lemma {:induction false} ParseStops(values: seq<string>, i: nat)
    requires i <= |values| && ParseCfg(values[..i]) == None
    ensures ParseCfg(values) == None
    decreases |values| - i
  {
    if i == |values| {
      assert values[..i] == values;
    } else {
      assert values[..i + 1][..i] == values[..i];
      ParseStops(values, i + 1);
    }
  }

  lemma RestOfSecond(a: Bytes, b: Bytes, n: nat)
    requires n <= |b|
    ensures (a + b)[|a| + n..] == b[n..]
  {
  }

  lemma StopsAt(split: Splitter, from: Stream, start: Stream, held: Bytes, data: Bytes,
                gone: Bytes, clean: Stream, taken: Bytes, unread: Bytes)
    requires !from.failed && !start.failed && Run(split, from, held) == start && !clean.failed
    requires Run(split, from, gone) == clean
    requires Run(split, clean, taken).failed && FailAt(split, clean, taken) == |taken|
    requires held + data == gone + (taken + unread)
    ensures Run(split, start, data) == Run(split, clean, taken)
    ensures unread == data[FailAt(split, start, data)..]
  {
    hide Run, FailAt;
    RunAppend(split, from, gone, taken);
    FailAtAppend(split, from, gone, taken);
    JoinThree(gone, taken, unread);
    FailAtPrefix(split, from, gone + taken, unread);
    RunAppend(split, from, held, data);
    FailAtAppend(split, from, held, data);
    RestOfSecond(gone + taken, unread, 0);
    RestOfSecond(held, data, FailAt(split, start, data));
  }

  lemma NothingFed(split: Splitter, t: Stream, chunks: seq<Bytes>)
    ensures RunChunks(split, t, chunks[..0]) == t && chunks[0..] == chunks
  {
  }

  lemma NextChunk(split: Splitter, start: Stream, chunks: seq<Bytes>, i: nat)
    requires i < |chunks|
    ensures RunChunks(split, start, chunks[..i + 1]) == Run(split, RunChunks(split, start, chunks[..i]), chunks[i])
    ensures var t := RunChunks(split, start, chunks[..i]);
      !t.failed ==>
        var u := Run(split, t, chunks[i]);
        CloseChunks(split, t, chunks[i..]) ==
        if u.failed then CloseFailed(u.session, |chunks[i]| - FailAt(split, t, chunks[i]))
        else CloseChunks(split, u, chunks[i + 1..])
  {
    hide Run, FailAt;
    assert chunks[..i + 1][..i] == chunks[..i];
    assert chunks[i..][1..] == chunks[i + 1..];
  }

  lemma LastChunk(split: Splitter, t: Stream, chunks: seq<Bytes>)
    requires !t.failed
    ensures CloseChunks(split, t, chunks[|chunks|..]) == Finish(t) && chunks[..|chunks|] == chunks
  {
  }

  lemma {:induction false} StaysFailed(split: Splitter, start: Stream, chunks: seq<Bytes>, i: nat)
    requires i <= |chunks| && RunChunks(split, start, chunks[..i]).failed
    ensures RunChunks(split, start, chunks).failed
    decreases |chunks| - i
  {
    hide Run;
    if i < |chunks| {
      assert chunks[..i + 1][..i] == chunks[..i];
      RunFailed(split, RunChunks(split, start, chunks[..i]), chunks[i]);
      StaysFailed(split, start, chunks, i + 1);
    } else {
      assert chunks[..i] == chunks;
    }
  }
}
