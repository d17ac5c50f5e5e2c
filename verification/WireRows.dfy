/** Canonical rows on the wire: printed by the firmware (SerialParser.cpp), read back by the
    capture tool (tools/nano_capture.py). */
module WireRows {
  import opened Words
  import opened Decimal
  import opened CaptureLines
  import opened NanoCapture

  const CSV_LINE_MAX := 384

  datatype SwingSample = SwingSample(
    seqNo: u32, edge0: u32, edge1: u32, edge2: u32, edge3: u32, edge4: u32, dropIr: u32, dropPps: u32, dropSwing: u32)

  type GpsCode = x: int | 0 <= x < 4

  datatype PpsSample = PpsSample(
    seqNo: u32, edge: u32, gps: GpsCode, holdoverAge: u32, cap16: u16, latency16: u16, now32: u32, dropPps: u32)

  function SwingValues(s: SwingSample): seq<u32> {
    [s.seqNo, s.edge0, s.edge1, s.edge2, s.edge3, s.edge4, s.dropIr, s.dropPps, s.dropSwing]
  }

  function PpsValues(s: PpsSample): seq<u32> {
    [s.seqNo, s.edge, s.gps, s.holdoverAge, s.cap16, s.latency16, s.now32, s.dropPps]
  }

  /** A comma before each value. */
  function FieldsText(vs: seq<u32>): string {
    if |vs| == 0 then "" else "," + Text(vs[0]) + FieldsText(vs[1..])
  }

  lemma {:induction false} FieldsAppend(vs: seq<u32>, v: u32)
    ensures FieldsText(vs + [v]) == FieldsText(vs) + "," + Text(v)
  {
    hide Text;
    if |vs| == 0 {
      assert vs + [v] == [v];
      assert FieldsText([v][1..]) == "";
    } else {
      assert (vs + [v])[1..] == vs[1..] + [v];
      FieldsAppend(vs[1..], v);
    }
  }

  lemma {:induction false} FieldsLength(vs: seq<u32>)
    ensures |FieldsText(vs)| <= 11 * |vs|
  {
    hide Text;
    if |vs| > 0 {
      TextLength32(vs[0]);
      FieldsLength(vs[1..]);
    }
  }

  // ---- printing ----

  function Reversed(s: string): (r: string)
    ensures |r| == |s| && forall i :: 0 <= i < |s| ==> r[i] == s[|s| - 1 - i]
  {
    seq(|s|, i requires 0 <= i < |s| => s[|s| - 1 - i])
  }

  function Digits(v: nat): string {
    if v == 0 then "" else Text(v)
  }

  lemma ReversedAppend(low: string, c: char)
    ensures Reversed(low + [c]) == [c] + Reversed(low)
  {
  }

  lemma LowestDigit(v: nat, low: string)
    requires v > 0
    ensures Digits(v) + Reversed(low) == Digits(v / 10) + Reversed(low + [DigitChar(v % 10)])
  {
    hide Reversed;
    var c := DigitChar(v % 10);
    TextSplits(v);
    ReversedAppend(low, c);
    assert (Digits(v / 10) + [c]) + Reversed(low) == Digits(v / 10) + ([c] + Reversed(low));
  }

  lemma TextSplits(v: nat)
    ensures Text(v) == Digits(v / 10) + [DigitChar(v % 10)]
  {
  }

  /** The digit loop of u32ToDec: lowest digit first. */
  method LowestDigitsFirst(rev: array<char>, v: u32) returns (n: nat)
    requires rev.Length == 11
    modifies rev
    ensures n <= 10 && Text(v) == Reversed(rev[..n])
  {
    hide Text, Reversed, Digits;
    FirstDigit(v);
    rev[0] := DigitChar(v % 10);
    var rest := v / 10;
    n := 1;
    assert rev[..1] == [DigitChar(v % 10)];
    while rest != 0 && n < 11
      invariant 1 <= n <= 11 && 0 <= rest < TWO32 && Text(v) == Digits(rest) + Reversed(rev[..n])
      decreases rest
    {
      LowestDigit(rest, rev[..n]);
      ghost var low := rev[..n];
      rev[n] := DigitChar(rest % 10);
      assert rev[..n + 1] == low + [DigitChar(rest % 10)];
      n, rest := n + 1, rest / 10;
    }
    AllFound(v, rest, rev[..n]);
  }

  /** u32ToDec */
  method U32ToDec(out: array<char>, v: u32) returns (ok: bool)
    modifies out
    ensures out.Length >= 11 ==> ok
    ensures ok ==> |Text(v)| < out.Length && out[..|Text(v)|] == Text(v) && out[|Text(v)|] == '\0'
  {
    hide Text, Reversed;
    if out.Length < 2 {
      return false;
    }
    var rev := new char[11];
    var n := LowestDigitsFirst(rev, v);
    if n + 1 > out.Length {
      return false;
    }
    ghost var low := rev[..n];
    for i := 0 to n
      invariant rev[..n] == low && forall j :: 0 <= j < i ==> out[j] == low[n - 1 - j]
    {
      assert rev[n - 1 - i] == low[n - 1 - i];
      out[i] := rev[n - 1 - i];
    }
    out[n] := '\0';
    IsReversed(out[..n], low);
    ok := true;
  }

  lemma IsReversed(r: string, s: string)
    requires |r| == |s| && forall j :: 0 <= j < |s| ==> r[j] == s[|s| - 1 - j]
    ensures r == Reversed(s)
  {
  }

  lemma FirstDigit(v: u32)
    ensures Text(v) == Digits(v / 10) + Reversed([DigitChar(v % 10)])
  {
    hide Digits, Text;
    TextSplits(v);
    IsReversed([DigitChar(v % 10)], [DigitChar(v % 10)]);
  }

  lemma AllFound(v: u32, rest: nat, low: string)
    requires Text(v) == Digits(rest) + Reversed(low) && (rest == 0 || |low| >= 11)
    ensures rest == 0 && Text(v) == Reversed(low) && |low| <= 10
  {
    TextLength32(v);
  }

  /** The shared line buffer with its write position. */
  class LineWriter {
    const out: array<char>
    var pos: nat
    ghost var tag: string
    ghost var fields: seq<u32>

    ghost predicate Valid()
      reads this, out
    {
      pos < out.Length && out[..pos] == tag + FieldsText(fields)
    }

    constructor (out: array<char>)
      requires out.Length > 0
      ensures Valid() && this.out == out && pos == 0 && tag == "" && fields == []
    {
      this.out := out;
      pos, tag, fields := 0, "", [];
      new;
      assert out[..0] == "";
    }

    /** appendCStr: up to the terminator, or until the buffer is full. */
    method AppendCStr(s: array<char>, ghost n: nat) returns (ok: bool)
      requires s != out && n < s.Length && s[n] == '\0' && '\0' !in s[..n] && pos < out.Length
      modifies this`pos, out
      ensures pos < out.Length && (ok <==> old(pos) + n < out.Length)
      ensures ok ==> out[..pos] == old(out[..pos]) + s[..n]
      ensures out[..old(pos)] == old(out[..pos]) && old(pos) <= pos
    {
      var i := 0;
      while s[i] != '\0'
        invariant 0 <= i <= n && pos == old(pos) + i < out.Length
        invariant out[..pos] == old(out[..pos]) + s[..i]
        decreases n - i
      {
        assert s[i] in s[..n] || i == n;
        if pos + 1 >= out.Length {
          return false;
        }
        ghost var before := out[..pos];
        out[pos] := s[i];
        assert out[..pos + 1] == before + [s[i]] && s[..i + 1] == s[..i] + [s[i]];
        pos, i := pos + 1, i + 1;
      }
      assert i == n;
      ghost var all := out[..pos];
      out[pos] := '\0';
      assert out[..pos] == all;
      ok := true;
    }

    method AppendChar(c: char) returns (ok: bool)
      requires pos < out.Length
      modifies this`pos, out
      ensures pos < out.Length && (ok <==> old(pos) + 1 < out.Length)
      ensures out[..pos] == if ok then old(out[..pos]) + [c] else old(out[..pos])
    {
      if pos + 1 >= out.Length {
        return false;
      }
      ghost var before := out[..pos];
      out[pos] := c;
      pos := pos + 1;
      out[pos] := '\0';
      assert out[..pos] == before + [c];
      ok := true;
    }

    method AppendU32(v: u32) returns (ok: bool)
      requires pos < out.Length
      modifies this`pos, out
      ensures pos < out.Length && (ok <==> old(pos) + |Text(v)| < out.Length)
      ensures ok ==> out[..pos] == old(out[..pos]) + Text(v)
    {
      hide Text;
      var digits := new char[11];
      var converted := U32ToDec(digits, v);
      DigitsHaveNoTerminator(Text(v));
      ok := AppendCStr(digits, |Text(v)|);
    }

    /** A comma and a value; room for eleven more characters is always enough. */
    method AppendField(v: u32) returns (ok: bool)
      requires Valid()
      modifies this`pos, this`fields, out
      ensures pos <= old(pos) + 11 && (old(pos) + 11 < out.Length ==> ok)
      ensures ok ==> Valid() && tag == old(tag) && fields == old(fields) + [v]
    {
      hide Text, FieldsText;
      TextLength32(v);
      FieldsAppend(fields, v);
      ok := AppendChar(',');
      if ok {
        ok := AppendU32(v);
      }
      fields := fields + [v];
    }

    method AppendThree(a: u32, b: u32, c: u32) returns (ok: bool)
      requires Valid() && pos + 33 < out.Length
      modifies this`pos, this`fields, out
      ensures ok && Valid() && tag == old(tag) && fields == old(fields) + [a, b, c] && pos <= old(pos) + 33
    {
      hide Valid;
      ok := AppendField(a);
      if ok { ok := AppendField(b); }
      if ok { ok := AppendField(c); }
    }

    method EndRow() returns (ok: bool)
      requires Valid()
      modifies this`pos, out
      ensures pos < out.Length && (ok <==> old(pos) + 1 < out.Length)
      ensures ok ==> out[..pos] == tag + FieldsText(fields) + "\n"
    {
      hide FieldsText;
      ok := AppendChar('\n');
    }

    method AppendTag(name: array<char>, ghost n: nat) returns (ok: bool)
      requires Valid() && pos == 0 && fields == [] && tag == "" && n < out.Length
      requires name != out && n < name.Length && name[n] == '\0' && '\0' !in name[..n]
      modifies this`pos, this`tag, out
      ensures ok && Valid() && pos == n && tag == name[..n]
    {
      ok := AppendCStr(name, n);
      tag := name[..n];
    }
  }

  lemma DigitsHaveNoTerminator(s: string)
    requires AllDigits(s)
    ensures '\0' !in s
  {
  }

  function SwingText(s: SwingSample): string {
    "CSW" + FieldsText(SwingValues(s))
  }

  function PpsText(s: PpsSample): string {
    "CPS" + FieldsText(PpsValues(s))
  }

  /** sendCanonicalSwingSample up to the hand-over to the serial port: the row always fits. */
  method FormatSwing(out: array<char>, name: array<char>, s: SwingSample) returns (ok: bool, len: nat)
    requires out.Length == CSV_LINE_MAX && name != out && name.Length == 4 && name[..] == "CSW\0"
    modifies out
    ensures ok && len < CSV_LINE_MAX && out[..len] == SwingText(s) + "\n"
  {
    hide FieldsText, LineWriter.Valid;
    var w := new LineWriter(out);
    assert name[..3] == name[..][..3] == "CSW";
    ok := w.AppendTag(name, 3);
    if ok { ok := w.AppendThree(s.seqNo, s.edge0, s.edge1); }
    if ok { ok := w.AppendThree(s.edge2, s.edge3, s.edge4); }
    if ok { ok := w.AppendThree(s.dropIr, s.dropPps, s.dropSwing); }
    assert w.fields == SwingValues(s);
    if ok { ok := w.EndRow(); }
    len := w.pos;
  }

  /** sendCanonicalPpsSample */
  method FormatPps(out: array<char>, name: array<char>, s: PpsSample) returns (ok: bool, len: nat)
    requires out.Length == CSV_LINE_MAX && name != out && name.Length == 4 && name[..] == "CPS\0"
    modifies out
    ensures ok && len < CSV_LINE_MAX && out[..len] == PpsText(s) + "\n"
  {
    hide FieldsText, LineWriter.Valid;
    var w := new LineWriter(out);
    assert name[..3] == name[..][..3] == "CPS";
    ok := w.AppendTag(name, 3);
    if ok { ok := w.AppendThree(s.seqNo, s.edge, s.gps); }
    if ok { ok := w.AppendThree(s.holdoverAge, s.cap16, s.latency16); }
    if ok { ok := w.AppendField(s.now32); }
    if ok { ok := w.AppendField(s.dropPps); }
    assert w.fields == PpsValues(s);
    if ok { ok := w.EndRow(); }
    len := w.pos;
  }

  // ---- reading back ----

  function Encode(t: string): Bytes {
    seq(|t|, i requires 0 <= i < |t| => (t[i] as int) % 0x100)
  }

  predicate Plain(t: string) {
    |t| > 0 && forall i :: 0 <= i < |t| ==> ' ' < t[i] <= '~' && t[i] != '"'
  }

  function Commas(t: string): (parts: seq<string>)
    ensures |parts| > 0
  {
    var i := IndexOf(t, ',');
    if i == |t| then [t] else [t[..i]] + Commas(t[i + 1..])
  }

  /** On printable ASCII without quotes, decoding and CSV reading is splitting at commas. */
  ghost predicate SplitsPlainText(split: Splitter) {
    forall t: string :: Plain(t) ==> split(Encode(t)) == Some(Commas(t))
  }

  function Texts(vs: seq<u32>): (ts: seq<string>)
    ensures |ts| == |vs|
  {
    seq(|vs|, i requires 0 <= i < |vs| => Text(vs[i]))
  }

  lemma IndexOfFirst(a: string, rest: string)
    requires ',' !in a
    ensures IndexOf(a + [','] + rest, ',') == |a|
  {
    var t, i := a + [','] + rest, IndexOf(a + [','] + rest, ',');
    assert t[..|a|] == a && t[|a|] == ',';
  }

  lemma CommasStep(first: string, tail: string)
    requires ',' !in first
    ensures Commas(first + [','] + tail) == [first] + Commas(tail)
  {
    IndexOfFirst(first, tail);
    assert (first + [','] + tail)[..|first|] == first && (first + [','] + tail)[|first| + 1..] == tail;
  }

  lemma CommasOfOne(first: string)
    requires ',' !in first
    ensures Commas(first) == [first]
  {
    assert IndexOf(first, ',') == |first|;
  }

  lemma {:induction false} CommasOfFields(first: string, vs: seq<u32>)
    requires ',' !in first
    ensures Commas(first + FieldsText(vs)) == [first] + Texts(vs)
    decreases |vs|
  {
    hide Text, Commas, IndexOf;
    if |vs| == 0 {
      assert first + FieldsText(vs) == first && Texts(vs) == [];
      CommasOfOne(first);
    } else {
      var head, rest := Text(vs[0]), vs[1..];
      DigitsHaveNoComma(head);
      CommasOfFields(head, rest);
      var tail := head + FieldsText(rest);
      assert first + FieldsText(vs) == first + [','] + tail;
      CommasStep(first, tail);
      assert Texts(vs) == [head] + Texts(rest);
    }
  }

  lemma DigitsHaveNoComma(s: string)
    requires AllDigits(s)
    ensures ',' !in s
  {
  }

  /** Fields of at most these values pass the capture tool's field checks. */
  lemma TextsPass(tag: Tag, vs: seq<u32>)
    requires |vs| == |Fields(tag)| && forall i :: 0 <= i < |vs| ==> vs[i] < Limit(tag, i)
    ensures SampleOk(tag, Texts(vs))
  {
    hide Text, Fields, Limit;
    forall i | 0 <= i < |vs|
      ensures FieldOk(Texts(vs)[i], Limit(tag, i))
    {
      TextLength32(vs[i]);
      ValueOfText(vs[i]);
    }
  }

  /** The numbers the fields of an accepted row denote. */
  function Numbers(texts: seq<string>): (vs: seq<nat>)
    requires forall i :: 0 <= i < |texts| ==> AllDigits(texts[i])
    ensures |vs| == |texts|
  {
    seq(|texts|, i requires 0 <= i < |texts| => ValueOf(texts[i]))
  }

  lemma NumbersOfTexts(vs: seq<u32>)
    ensures forall i :: 0 <= i < |vs| ==> AllDigits(Texts(vs)[i])
    ensures Numbers(Texts(vs)) == vs
  {
    hide Text, ValueOf;
    forall i | 0 <= i < |vs|
      ensures ValueOf(Texts(vs)[i]) == vs[i]
    {
      ValueOfText(vs[i]);
    }
  }

  lemma {:induction false} FieldsArePlain(vs: seq<u32>)
    ensures forall i :: 0 <= i < |FieldsText(vs)| ==> FieldsText(vs)[i] == ',' || IsDigit(FieldsText(vs)[i])
    ensures |vs| > 0 ==> |FieldsText(vs)| > 0 && IsDigit(FieldsText(vs)[|FieldsText(vs)| - 1])
  {
    hide Text;
    if |vs| > 0 {
      FieldsArePlain(vs[1..]);
    }
  }

  function TagName(tag: Tag): string {
    if tag == CSW then "CSW" else "CPS"
  }

  /** A printed row of in-range values is one unbroken line that both ends read alike: while
      the capture is ready, its bytes add exactly that row, and the fields are the values. */
  lemma RowRoundTrips(split: Splitter, t: Stream, tag: Tag, vs: seq<u32>)
    requires SplitsPlainText(split) && t.session.Ready() && !t.failed && !t.discarding && t.pending == []
    requires |vs| == |Fields(tag)| && forall i :: 0 <= i < |vs| ==> vs[i] < Limit(tag, i)
    ensures var s, row := t.session, Encode(TagName(tag) + FieldsText(vs) + "\n");
      Run(split, t, row) ==
      Stream(s.(lines := s.lines + 1, out := s.out + [SampleRow(tag, Texts(vs))], counts := CountSample(s.counts, tag)),
             [], false, false)
  {
    hide FieldsText, Text, Texts, Run, SampleOk, Fields, Limit, SplitsPlainText, LineOf, Plain, EndLine;
    var text := TagName(tag) + FieldsText(vs);
    var line := Encode(text);
    RowIsPlain(tag, vs);
    EncodeEnds(text);
    FieldsLength(vs);
    FieldCount(tag);
    RunLine(split, t.session, false, line, []);
    assert line + [NEWLINE] + [] == line + [NEWLINE];
    NothingRuns(split, TakeLine(split, t.session, false, line));
    RowIsTaken(split, t.session, tag, vs);
  }

  lemma FieldCount(tag: Tag)
    ensures |Fields(tag)| <= 9
  {
  }

  lemma RowIsPlain(tag: Tag, vs: seq<u32>)
    requires |vs| == |Fields(tag)|
    ensures Plain(TagName(tag) + FieldsText(vs)) && ',' !in TagName(tag)
    ensures var text := TagName(tag) + FieldsText(vs); IsDigit(text[|text| - 1])
  {
    hide FieldsText;
    FieldsArePlain(vs);
  }

  lemma EncodeEnds(t: string)
    requires Plain(t)
    ensures Encode(t + "\n") == Encode(t) + [NEWLINE] && Unbroken(Encode(t)) && |Encode(t)| == |t|
    ensures IsDigit(t[|t| - 1]) ==> WithoutReturn(Encode(t)) == Encode(t)
  {
    hide Plain;
    assert forall i :: 0 <= i < |t| ==> Encode(t)[i] == (t[i] as int) % 0x100;
    forall i | 0 <= i < |t|
      ensures Encode(t)[i] != NEWLINE
    {
      PlainByte(t, i);
    }
    assert Encode(t + "\n")[|t|] == NEWLINE;
  }

  lemma PlainByte(t: string, i: nat)
    requires Plain(t) && i < |t|
    ensures 32 < (t[i] as int) % 0x100 < 127
  {
  }

  lemma SampleIsTaken(split: Splitter, s: Session, data: Bytes, tag: Tag, values: seq<string>)
    requires |data| > 0 && WithoutReturn(data) == data && split(data) == Some([TagName(tag)] + values)
    requires s.Ready() && SampleOk(tag, values)
    ensures EndLine(split, s, data) ==
      (s.(lines := s.lines + 1, out := s.out + [SampleRow(tag, values)], counts := CountSample(s.counts, tag)), false)
  {
    hide WithoutReturn, SampleOk;
    var cols := [TagName(tag)] + values;
    assert cols[0] == TagName(tag) && cols[1..] == values;
    assert "CSW"[1] != "CPS"[1] && "CSW"[1] != "CFG"[1] && "CPS"[1] != "CFG"[1];
    assert "CSW"[0] != "SCH"[0] && "CPS"[0] != "SCH"[0];
  }

  lemma RowIsTaken(split: Splitter, s: Session, tag: Tag, vs: seq<u32>)
    requires SplitsPlainText(split) && s.Ready()
    requires |vs| == |Fields(tag)| && forall i :: 0 <= i < |vs| ==> vs[i] < Limit(tag, i)
    ensures EndLine(split, s, Encode(TagName(tag) + FieldsText(vs))) ==
      (s.(lines := s.lines + 1, out := s.out + [SampleRow(tag, Texts(vs))], counts := CountSample(s.counts, tag)),
       false)
  {
    TextsPass(tag, vs);
    hide FieldsText, Text, SampleOk, Fields, Limit, Plain, Encode, WithoutReturn, Commas, Texts, EndLine, TagName;
    var text := TagName(tag) + FieldsText(vs);
    RowIsPlain(tag, vs);
    EncodeEnds(text);
    EncodeLength(text);
    CommasOfFields(TagName(tag), vs);
    assert split(Encode(text)) == Some(Commas(text));
    SampleIsTaken(split, s, Encode(text), tag, Texts(vs));
  }

  lemma EncodeLength(t: string)
    requires Plain(t)
    ensures |Encode(t)| > 0
  {
  }

  // ---- what the columns are called ----

  /** The value of a swing sample that belongs under this column name. */
  function SwingField(s: SwingSample, name: string): Option<u32> {
    if name == "seq" then Some(s.seqNo)
    else if name == "edge0_tcb0" then Some(s.edge0)
    else if name == "edge1_tcb0" then Some(s.edge1)
    else if name == "edge2_tcb0" then Some(s.edge2)
    else if name == "edge3_tcb0" then Some(s.edge3)
    else if name == "edge4_tcb0" then Some(s.edge4)
    else if name == "drop_ir" then Some(s.dropIr)
    else if name == "drop_pps" then Some(s.dropPps)
    else if name == "drop_swing" then Some(s.dropSwing)
    else None
  }

  function PpsField(s: PpsSample, name: string): Option<u32> {
    if name == "seq" then Some(s.seqNo)
    else if name == "edge_tcb0" then Some(s.edge)
    else if name == "gps_status" then Some(s.gps)
    else if name == "holdover_age_ms" then Some(s.holdoverAge)
    else if name == "cap16" then Some(s.cap16)
    else if name == "latency16" then Some(s.latency16)
    else if name == "now32" then Some(s.now32)
    else if name == "drop_pps" then Some(s.dropPps)
    else None
  }

  /** Each value is printed in the column that the schema names after it. */
  lemma SwingColumns(s: SwingSample)
    ensures |SwingValues(s)| == |Fields(CSW)|
    ensures forall i :: 0 <= i < 9 ==> SwingField(s, Fields(CSW)[i]) == Some(SwingValues(s)[i])
  {
    assert "edge0_tcb0"[4] == '0' && "edge1_tcb0"[4] == '1' && "edge2_tcb0"[4] == '2';
    assert "edge3_tcb0"[4] == '3' && "edge4_tcb0"[4] == '4' && "drop_swing"[0] == 'd';
  }

  lemma PpsColumns(s: PpsSample)
    ensures |PpsValues(s)| == |Fields(CPS)|
    ensures forall i :: 0 <= i < 8 ==> PpsField(s, Fields(CPS)[i]) == Some(PpsValues(s)[i])
  {
    assert "edge_tcb0"[0] == 'e' && "gps_status"[0] == 'g' && "holdover_age_ms"[0] == 'h' && "cap16"[0] == 'c';
    assert "latency16"[0] == 'l' && "now32"[0] == 'n' && "drop_pps"[0] == 'd';
  }

  /** The capture tool takes exactly the rows of numbers that some sample has. */
  lemma SwingRowsAreSamples(vs: seq<u32>)
    ensures SampleOk(CSW, Texts(vs)) <==> exists s: SwingSample :: SwingValues(s) == vs
  {
    FieldCounts();
    hide Text;
    if |vs| == 9 {
      TextsPass(CSW, vs);
      var s := SwingSample(vs[0], vs[1], vs[2], vs[3], vs[4], vs[5], vs[6], vs[7], vs[8]);
      assert SwingValues(s) == vs;
    }
  }

  lemma PpsRowsAreSamples(vs: seq<u32>)
    ensures SampleOk(CPS, Texts(vs)) <==> exists s: PpsSample :: PpsValues(s) == vs
  {
    FieldCounts();
    hide Text, Fields;
    if SampleOk(CPS, Texts(vs)) {
      ValueOfText(vs[2]);
      ValueOfText(vs[4]);
      ValueOfText(vs[5]);
      assert FieldOk(Texts(vs)[2], Limit(CPS, 2)) && FieldOk(Texts(vs)[4], Limit(CPS, 4));
      assert FieldOk(Texts(vs)[5], Limit(CPS, 5));
      var s := PpsSample(vs[0], vs[1], vs[2], vs[3], vs[4], vs[5], vs[6], vs[7]);
      assert PpsValues(s) == vs;
    }
    if s: PpsSample :| PpsValues(s) == vs {
      TextsPass(CPS, vs);
    }
  }

  lemma FieldCounts()
    ensures |Fields(CSW)| == 9 && |Fields(CPS)| == 8
  {
  }

  /** Every swing sample arrives with every field exact. */
  lemma SwingRoundTrip(split: Splitter, t: Stream, sample: SwingSample)
    requires SplitsPlainText(split) && t.session.Ready() && !t.failed && !t.discarding && t.pending == []
    ensures var u := Run(split, t, Encode(SwingText(sample) + "\n"));
      && u.session.out == t.session.out + [SampleRow(CSW, Texts(SwingValues(sample)))]
      && (forall i :: 0 <= i < 9 ==> AllDigits(Texts(SwingValues(sample))[i]))
      && Numbers(Texts(SwingValues(sample))) == SwingValues(sample)
      && forall i :: 0 <= i < 9 ==>
           SwingField(sample, Fields(CSW)[i]) == Some(Numbers(Texts(SwingValues(sample)))[i])
  {
    SwingColumns(sample);
    hide SwingField, Fields, FieldsText, Text, Texts, Run, Numbers;
    RowRoundTrips(split, t, CSW, SwingValues(sample));
    NumbersOfTexts(SwingValues(sample));
  }

  /** Every PPS sample, too: its narrower fields keep within the limits that are checked. */
  lemma PpsRoundTrip(split: Splitter, t: Stream, sample: PpsSample)
    requires SplitsPlainText(split) && t.session.Ready() && !t.failed && !t.discarding && t.pending == []
    ensures var u := Run(split, t, Encode(PpsText(sample) + "\n"));
      && u.session.out == t.session.out + [SampleRow(CPS, Texts(PpsValues(sample)))]
      && (forall i :: 0 <= i < 8 ==> AllDigits(Texts(PpsValues(sample))[i]))
      && Numbers(Texts(PpsValues(sample))) == PpsValues(sample)
      && forall i :: 0 <= i < 8 ==>
           PpsField(sample, Fields(CPS)[i]) == Some(Numbers(Texts(PpsValues(sample)))[i])
  {
    PpsColumns(sample);
    hide PpsField, Fields, FieldsText, Text, Texts, Run, Numbers;
    RowRoundTrips(split, t, CPS, PpsValues(sample));
    NumbersOfTexts(PpsValues(sample));
  }
}
