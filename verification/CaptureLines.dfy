/** What one received line does to a recording (tools/nano_capture.py). */
module CaptureLines {
  import opened Words
  import opened Decimal

  type Bytes = seq<u8>

  const NEWLINE: u8 := 10

  datatype Tag = CSW | CPS

  datatype Counts = Counts(csw: nat, cps: nat, sts: nat, cfg: nat, sch: nat)

  datatype OutRow =
    | SampleRow(tag: Tag, values: seq<string>)
    | StatusRow(line: nat, code: string, family: string, payload: string, raw: Bytes)
    | CfgRow(line: nat, key: string, value: string)
    | SchemaRow(line: nat, schema: Tag, raw: Bytes)

  type Config = seq<(string, string)>

  /** The recording apart from the unfinished line. `blanks` counts the empty lines, which
      the program itself does not. */
  datatype Session = Session(
    cfg: Option<Config>, configured: bool, schemas: set<Tag>, counts: Counts, malformed: nat, beforeReady: nat,
    lines: nat, blanks: nat, out: seq<OutRow>)
  {
    predicate Ready() {
      configured && schemas == {CSW, CPS}
    }

    function Unready(): Session {
      this.(configured := false, schemas := {})
    }
  }

  /** A line is taken in, is malformed (and changes nothing by itself), or ends the recording. */
  datatype Verdict = OK | MALFORMED | FATAL

  datatype LineResult = Accepted(session: Session) | Rejected | Fatal

  // ---- configuration lines ----

  function IndexOf<T(==)>(s: seq<T>, x: T): (i: nat)
    ensures i <= |s| && (i < |s| ==> s[i] == x) && x !in s[..i]
  {
    if |s| == 0 || s[0] == x then 0 else 1 + IndexOf(s[1..], x)
  }

  function Lookup(cfg: Config, key: string): Option<string> {
    if |cfg| == 0 then None
    else if cfg[|cfg| - 1].0 == key then Some(cfg[|cfg| - 1].1)
    else Lookup(cfg[..|cfg| - 1], key)
  }

  predicate TokenOk(cfg: Config, token: string) {
    var i := IndexOf(token, '=');
    0 < i < |token| - 1 && Lookup(cfg, token[..i]) == None
  }

  function TokenPair(token: string): (string, string)
    requires IndexOf(token, '=') < |token|
  {
    var i := IndexOf(token, '=');
    (token[..i], token[i + 1..])
  }

  /** The key=value tokens; None when one has no key, no value, or a key seen before. */
  function ParseCfg(tokens: seq<string>): Option<Config> {
    if |tokens| == 0 then Some([])
    else
      var before, token := ParseCfg(tokens[..|tokens| - 1]), tokens[|tokens| - 1];
      if before.None? || !TokenOk(before.value, token) then None else Some(before.value + [TokenPair(token)])
  }

  const REQUIRED: Config :=
    [("pv", "3"), ("cst", "CSW"), ("css", "canonical_swing_v2"), ("cpt", "CPS"), ("cps", "canonical_pps_v1")]

  predicate Complete(cfg: Config) {
    && (forall i :: 0 <= i < |REQUIRED| ==> Lookup(cfg, REQUIRED[i].0).Some?)
    && Lookup(cfg, "nhz").Some? && Lookup(cfg, "fw").Some?
  }

  predicate FrequencyOk(s: string) {
    |s| > 0 && AllDigits(s) && 0 < ValueOf(s) < TWO32
  }

  predicate Supported(cfg: Config) {
    forall i :: 0 <= i < |REQUIRED| ==> Lookup(cfg, REQUIRED[i].0) == Some(REQUIRED[i].1)
  }

  /** The part of a configuration that must not change while recording. */
  predicate SameContract(a: Config, b: Config) {
    && (forall i :: 0 <= i < |REQUIRED| ==> Lookup(a, REQUIRED[i].0) == Lookup(b, REQUIRED[i].0))
    && Lookup(a, "nhz") == Lookup(b, "nhz") && Lookup(a, "fw") == Lookup(b, "fw")
  }

  function CfgRows(line: nat, cfg: Config): (rows: seq<OutRow>)
    ensures |rows| == |cfg| && forall i :: 0 <= i < |rows| ==> rows[i].CfgRow?
  {
    seq(|cfg|, i requires 0 <= i < |cfg| => CfgRow(line, cfg[i].0, cfg[i].1))
  }

  function CfgLine(s: Session, values: seq<string>): LineResult {
    var cfg := ParseCfg(values);
    if cfg.None? || !Complete(cfg.value) || !FrequencyOk(Lookup(cfg.value, "nhz").value) then Rejected
    else if !Supported(cfg.value) || (s.cfg.Some? && !SameContract(cfg.value, s.cfg.value)) then Fatal
    else
      Accepted(s.(cfg := cfg, configured := true, out := s.out + CfgRows(s.lines, cfg.value),
                  counts := s.counts.(cfg := s.counts.cfg + 1)))
  }

  // ---- schema, sample and status lines ----

  function TagOf(name: string): Option<Tag> {
    if name == "CSW" then Some(CSW) else if name == "CPS" then Some(CPS) else None
  }

  function Fields(tag: Tag): seq<string> {
    match tag
    case CSW => ["seq", "edge0_tcb0", "edge1_tcb0", "edge2_tcb0", "edge3_tcb0", "edge4_tcb0", "drop_ir", "drop_pps",
                 "drop_swing"]
    case CPS => ["seq", "edge_tcb0", "gps_status", "holdover_age_ms", "cap16", "latency16", "now32", "drop_pps"]
  }

  function SchemaId(tag: Tag): string {
    if tag == CSW then "canonical_swing_v2" else "canonical_pps_v1"
  }

  function SchemaLine(s: Session, values: seq<string>, raw: Bytes): LineResult {
    if |values| < 3 then Rejected
    else
      var tag := TagOf(values[0]);
      if tag.None? || values[1] != SchemaId(tag.value) || values[2..] != Fields(tag.value) then Fatal
      else
        Accepted(s.(schemas := s.schemas + {tag.value}, out := s.out + [SchemaRow(s.lines, tag.value, raw)],
                    counts := s.counts.(sch := s.counts.sch + 1)))
  }

  function Limit(tag: Tag, i: nat): nat {
    if tag == CPS && i == 2 then 4 else if tag == CPS && (i == 4 || i == 5) then 0x1_0000 else TWO32
  }

  predicate FieldOk(value: string, limit: nat) {
    0 < |value| <= 10 && AllDigits(value) && ValueOf(value) < limit
  }

  predicate SampleOk(tag: Tag, values: seq<string>) {
    |values| == |Fields(tag)| && forall i :: 0 <= i < |values| ==> FieldOk(values[i], Limit(tag, i))
  }

  function CountSample(c: Counts, tag: Tag): Counts {
    if tag == CSW then c.(csw := c.csw + 1) else c.(cps := c.cps + 1)
  }

  function SampleLine(s: Session, tag: Tag, values: seq<string>): LineResult {
    if !SampleOk(tag, values) then Rejected
    else if !s.Ready() then Accepted(s.(beforeReady := s.beforeReady + 1))
    else Accepted(s.(out := s.out + [SampleRow(tag, values)], counts := CountSample(s.counts, tag)))
  }

  predicate StatusOk(code: string) {
    code == "OK" || code == "UNKNOWN_COMMAND" || code == "INVALID_PARAM" || code == "INVALID_VALUE" ||
    code == "INTERNAL_ERROR" || code == "PROGRESS_UPDATE"
  }

  function Join(parts: seq<string>): string {
    if |parts| == 0 then "" else if |parts| == 1 then parts[0] else parts[0] + "," + Join(parts[1..])
  }

  function StatusLine(s: Session, values: seq<string>, raw: Bytes): LineResult {
    if |values| == 0 || !StatusOk(values[0]) then Rejected
    else
      var family := if |values| > 1 then values[1] else "";
      var payload := if |values| > 2 then Join(values[2..]) else "";
      Accepted(s.(out := s.out + [StatusRow(s.lines, values[0], family, payload, raw)],
                  counts := s.counts.(sts := s.counts.sts + 1)))
  }

  // ---- a whole line ----

  /** UTF-8 decoding and strict CSV splitting of one line; None where either fails. */
  type Splitter = Bytes -> Option<seq<string>>

  /** Capture._line, given the line without its ending. */
  function LineOf(split: Splitter, s: Session, data: Bytes): LineResult {
    if |data| == 0 then Accepted(s.(blanks := s.blanks + 1))
    else
      var cols := split(data);
      if cols.None? || |cols.value| == 0 then Rejected
      else
        var tag, values := cols.value[0], cols.value[1..];
        if tag == "CFG" then CfgLine(s, values)
        else if tag == "SCH" then SchemaLine(s, values, data)
        else if TagOf(tag).Some? then SampleLine(s, TagOf(tag).value, values)
        else if tag == "STS" then StatusLine(s, values, data)
        else Rejected
  }

  const COMMA: u8 := 44
  const CFG_BYTES: Bytes := [67, 70, 71]
  const SCH_BYTES: Bytes := [83, 67, 72]

  /** The bytes before the first comma announce metadata. */
  predicate LooksLikeMetadata(data: Bytes) {
    var hint := data[..IndexOf(data, COMMA)];
    hint == CFG_BYTES || hint == SCH_BYTES
  }

  function WithoutReturn(line: Bytes): Bytes {
    if |line| > 0 && line[|line| - 1] == 13 then line[..|line| - 1] else line
  }

  function Reject(s: Session, metadata: bool): Session {
    var t := s.(malformed := s.malformed + 1);
    if metadata then t.Unready() else t
  }

  function NextLine(s: Session): Session {
    s.(lines := s.lines + 1)
  }

  /** A complete line of acceptable length; the flag tells whether it ends the recording. */
  function EndLine(split: Splitter, s: Session, line: Bytes): (Session, bool) {
    var t, data := NextLine(s), WithoutReturn(line);
    match LineOf(split, t, data)
    case Accepted(u) => (u, false)
    case Rejected => (Reject(t, LooksLikeMetadata(data)), false)
    case Fatal => (t, true)
  }

  /** A line that is too long is malformed, and might have been metadata. */
  function Oversize(s: Session): Session {
    Reject(NextLine(s), true)
  }

  // ---- what every line keeps ----

  function Rows(out: seq<OutRow>, tag: Tag): nat {
    if |out| == 0 then 0
    else Rows(out[..|out| - 1], tag) + if out[|out| - 1].SampleRow? && out[|out| - 1].tag == tag then 1 else 0
  }

  lemma {:induction false} RowsAppend(out: seq<OutRow>, more: seq<OutRow>, tag: Tag)
    ensures Rows(out + more, tag) == Rows(out, tag) + Rows(more, tag)
  {
    if |more| == 0 {
      assert out + more == out;
    } else {
      RowsAppend(out, more[..|more| - 1], tag);
      assert (out + more)[..|out + more| - 1] == out + more[..|more| - 1];
    }
  }

  lemma {:induction false} NoSamples(out: seq<OutRow>, tag: Tag)
    requires forall i :: 0 <= i < |out| ==> !out[i].SampleRow?
    ensures Rows(out, tag) == 0
  {
    if |out| > 0 {
      NoSamples(out[..|out| - 1], tag);
    }
  }

  function Accounted(c: Counts): nat {
    c.csw + c.cps + c.sts + c.cfg + c.sch
  }

  /** Every line is counted once, and the sample counts are the rows written. */
  predicate Balanced(s: Session) {
    && s.lines == Accounted(s.counts) + s.malformed + s.beforeReady + s.blanks
    && Rows(s.out, CSW) == s.counts.csw && Rows(s.out, CPS) == s.counts.cps
  }

  lemma OneSample(out: seq<OutRow>, tag: Tag)
    requires |out| == 1 && out[0].SampleRow?
    ensures Rows(out, tag) == if out[0].tag == tag then 1 else 0
  {
    assert Rows(out[..0], tag) == 0;
  }

  /** A row of any other kind, counted once, keeps the balance. */
  lemma OtherRowBalances(s: Session, t: Session, more: seq<OutRow>)
    requires s.lines > 0 && Balanced(s.(lines := s.lines - 1))
    requires t.lines == s.lines && t.malformed == s.malformed && t.beforeReady == s.beforeReady && t.blanks == s.blanks
    requires t.counts.csw == s.counts.csw && t.counts.cps == s.counts.cps
    requires Accounted(t.counts) == Accounted(s.counts) + 1
    requires t.out == s.out + more && forall i :: 0 <= i < |more| ==> !more[i].SampleRow?
    ensures Balanced(t)
  {
    hide Rows, Accounted;
    RowsAppend(s.out, more, CSW);
    RowsAppend(s.out, more, CPS);
    NoSamples(more, CSW);
    NoSamples(more, CPS);
  }

  lemma CfgBalances(s: Session, values: seq<string>)
    requires s.lines > 0 && Balanced(s.(lines := s.lines - 1))
    ensures CfgLine(s, values).Accepted? ==> Balanced(CfgLine(s, values).session)
  {
    hide Balanced, ParseCfg, Complete, Supported, SameContract, FrequencyOk, Lookup;
    if CfgLine(s, values).Accepted? {
      OtherRowBalances(s, CfgLine(s, values).session, CfgRows(s.lines, ParseCfg(values).value));
    }
  }

  lemma SchemaBalances(s: Session, values: seq<string>, raw: Bytes)
    requires s.lines > 0 && Balanced(s.(lines := s.lines - 1))
    ensures SchemaLine(s, values, raw).Accepted? ==> Balanced(SchemaLine(s, values, raw).session)
  {
    hide Balanced, Fields;
    if SchemaLine(s, values, raw).Accepted? {
      OtherRowBalances(s, SchemaLine(s, values, raw).session, [SchemaRow(s.lines, TagOf(values[0]).value, raw)]);
    }
  }

  lemma StatusBalances(s: Session, values: seq<string>, raw: Bytes)
    requires s.lines > 0 && Balanced(s.(lines := s.lines - 1))
    ensures StatusLine(s, values, raw).Accepted? ==> Balanced(StatusLine(s, values, raw).session)
  {
    hide Balanced, Join, StatusOk;
    if StatusLine(s, values, raw).Accepted? {
      var family := if |values| > 1 then values[1] else "";
      var payload := if |values| > 2 then Join(values[2..]) else "";
      OtherRowBalances(s, StatusLine(s, values, raw).session, [StatusRow(s.lines, values[0], family, payload, raw)]);
    }
  }

  lemma SampleBalances(s: Session, tag: Tag, values: seq<string>)
    requires s.lines > 0 && Balanced(s.(lines := s.lines - 1))
    ensures SampleLine(s, tag, values).Accepted? ==> Balanced(SampleLine(s, tag, values).session)
  {
    hide Rows, SampleOk;
    var more := [SampleRow(tag, values)];
    RowsAppend(s.out, more, CSW);
    RowsAppend(s.out, more, CPS);
    OneSample(more, CSW);
    OneSample(more, CPS);
  }

  lemma AcceptedBalances(split: Splitter, s: Session, data: Bytes)
    requires s.lines > 0 && Balanced(s.(lines := s.lines - 1))
    ensures LineOf(split, s, data).Accepted? ==> Balanced(LineOf(split, s, data).session)
  {
    hide Rows, CfgLine, SchemaLine, SampleLine, StatusLine;
    if |data| > 0 && split(data).Some? && |split(data).value| > 0 {
      hide Balanced;
      var values := split(data).value[1..];
      CfgBalances(s, values);
      SchemaBalances(s, values, data);
      StatusBalances(s, values, data);
      SampleBalances(s, CSW, values);
      SampleBalances(s, CPS, values);
    }
  }

  /** Lines are conserved: every line that does not end the recording is counted exactly once. */
  lemma EndLineBalances(split: Splitter, s: Session, line: Bytes)
    requires Balanced(s)
    ensures EndLine(split, s, line).1 || Balanced(EndLine(split, s, line).0)
    ensures Balanced(Oversize(s))
  {
    hide Rows, LineOf, LooksLikeMetadata;
    assert NextLine(s).(lines := NextLine(s).lines - 1) == s;
    AcceptedBalances(split, NextLine(s), WithoutReturn(line));
  }

  /** A line that looks like metadata and is malformed, or is too long, withdraws readiness;
      only sample rows that pass every field check are written, and only when ready. */
  lemma ReadinessGuardsSamples(split: Splitter, s: Session, line: Bytes)
    ensures !Oversize(s).Ready() && Oversize(s).out == s.out
    ensures var (t, fatal) := EndLine(split, s, line);
      && (!fatal && t.malformed > s.malformed && LooksLikeMetadata(WithoutReturn(line)) ==> !t.Ready())
      && s.out <= t.out
      && forall i :: |s.out| <= i < |t.out| && t.out[i].SampleRow? ==>
           s.Ready() && SampleOk(t.out[i].tag, t.out[i].values)
  {
    hide ParseCfg, SampleOk, Complete, Supported, SameContract, FrequencyOk, Lookup, Join, Fields, LooksLikeMetadata;
  }

  /** Once a configuration is accepted its contract stays the same for the whole recording. */
  lemma ContractIsFixed(split: Splitter, s: Session, line: Bytes)
    requires s.cfg.Some?
    ensures var t := EndLine(split, s, line).0; t.cfg.Some? && SameContract(t.cfg.value, s.cfg.value)
  {
    hide ParseCfg, SampleOk, Complete, Supported, FrequencyOk, Lookup, Join, Fields, LooksLikeMetadata;
  }

  /** Only an accepted configuration line makes a recording configured, only an accepted
      schema line adds its schema. */
  lemma ReadinessIsEarned(split: Splitter, s: Session, line: Bytes)
    ensures var t, cols := EndLine(split, s, line).0, split(WithoutReturn(line));
      && (t.configured && !s.configured ==>
            cols.Some? && |cols.value| > 0 && cols.value[0] == "CFG" && t.cfg.Some? && Supported(t.cfg.value))
      && (forall tag :: tag in t.schemas && tag !in s.schemas ==>
            cols.Some? && |cols.value| > 3 && cols.value[0] == "SCH" && cols.value[1..][2..] == Fields(tag))
  {
    hide ParseCfg, SampleOk, Complete, SameContract, FrequencyOk, Lookup, Join, Fields, LooksLikeMetadata, Supported;
  }
}
