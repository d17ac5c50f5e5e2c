/** The metadata lines the firmware sends (StatusTelemetry.cpp, SerialParser.cpp) and the
    recording they make ready (tools/nano_capture.py). */
module CaptureContract {
  import opened Words
  import opened Decimal
  import opened CaptureLines
  import opened NanoCapture
  import opened WireRows

  // ---- configuration tokens ----

  predicate PairOk(p: (string, string)) {
    |p.0| > 0 && |p.1| > 0 && '=' !in p.0
  }

  /** Usable keys and values, and no key twice. */
  predicate Pairs(cfg: Config) {
    && (forall i :: 0 <= i < |cfg| ==> PairOk(cfg[i]))
    && (forall i, j :: 0 <= i < j < |cfg| ==> cfg[i].0 != cfg[j].0)
  }

  function Token(p: (string, string)): string {
    p.0 + "=" + p.1
  }

  function Tokens(cfg: Config): (ts: seq<string>)
    ensures |ts| == |cfg|
  {
    seq(|cfg|, i requires 0 <= i < |cfg| => Token(cfg[i]))
  }

  lemma TokenSplits(p: (string, string))
    requires PairOk(p)
    ensures IndexOf(Token(p), '=') == |p.0| && TokenPair(Token(p)) == p
  {
    var t, i := Token(p), IndexOf(Token(p), '=');
    assert t[..|p.0|] == p.0 && t[|p.0|] == '=' && t[|p.0| + 1..] == p.1;
    assert forall k :: 0 <= k < |p.0| ==> t[k] == p.0[k] != '=';
  }

  lemma {:induction false} NotSeen(cfg: Config, key: string)
    requires forall i :: 0 <= i < |cfg| ==> cfg[i].0 != key
    ensures Lookup(cfg, key) == None
  {
    if |cfg| > 0 {
      NotSeen(cfg[..|cfg| - 1], key);
    }
  }

  lemma {:induction false} SeenAt(cfg: Config, i: nat)
    requires Pairs(cfg) && i < |cfg|
    ensures Lookup(cfg, cfg[i].0) == Some(cfg[i].1)
  {
    if i < |cfg| - 1 {
      SeenAt(cfg[..|cfg| - 1], i);
    }
  }

  /** Reading the tokens of any configuration gives it back. */
  lemma {:induction false} TokensParse(cfg: Config)
    requires Pairs(cfg)
    ensures ParseCfg(Tokens(cfg)) == Some(cfg)
  {
    hide Token, TokenPair, Lookup, PairOk;
    if |cfg| > 0 {
      var before, p := cfg[..|cfg| - 1], cfg[|cfg| - 1];
      TokensParse(before);
      LastTokenOk(cfg);
      assert Tokens(cfg)[..|cfg| - 1] == Tokens(before);
      assert before + [p] == cfg;
    }
  }

  lemma LastTokenOk(cfg: Config)
    requires Pairs(cfg) && |cfg| > 0
    ensures var before, p := cfg[..|cfg| - 1], cfg[|cfg| - 1];
      && IndexOf(Token(p), '=') < |Token(p)| && TokenOk(before, Token(p)) && TokenPair(Token(p)) == p
  {
    var before, p := cfg[..|cfg| - 1], cfg[|cfg| - 1];
    TokenSplits(p);
    NotSeen(before, p.0);
    assert Token(p)[..|p.0|] == p.0;
  }

  // ---- the firmware's contract ----

  /** What the CFG line advertises, for a clock and a firmware version. */
  function Advertised(hz: u32, fw: string): Config {
    [("pv", "3"), ("nhz", Text(hz)), ("cst", "CSW"), ("css", "canonical_swing_v2"), ("cpt", "CPS"),
     ("cps", "canonical_pps_v1"), ("fw", fw)]
  }

  lemma AdvertisedPairs(hz: u32, fw: string)
    requires |fw| > 0
    ensures Pairs(Advertised(hz, fw))
  {
    hide Text;
    var c := Advertised(hz, fw);
    assert c[2].0[1] == 's' && c[2].0[2] == 't' && c[3].0[1] == 's' && c[3].0[2] == 's';
    assert c[4].0[1] == 'p' && c[4].0[2] == 't' && c[5].0[1] == 'p' && c[5].0[2] == 's';
    assert c[0].0[0] == 'p' && c[6].0[0] == 'f' && c[1].0[0] == 'n';
    assert |c[0].0| == |c[6].0| == 2;
  }

  /** The capture tool takes in the firmware's configuration line, as the first one of a
      recording or as the same one again. */
  lemma AdvertisedIsTaken(s: Session, hz: u32, fw: string)
    requires hz > 0 && |fw| > 0 && (s.cfg == None || s.cfg == Some(Advertised(hz, fw)))
    ensures var c := Advertised(hz, fw);
      CfgLine(s, Tokens(c)) ==
      Accepted(s.(cfg := Some(c), configured := true, out := s.out + CfgRows(s.lines, c),
                  counts := s.counts.(cfg := s.counts.cfg + 1)))
  {
    hide Text, ParseCfg, Tokens, Lookup, Pairs;
    var c := Advertised(hz, fw);
    AdvertisedPairs(hz, fw);
    TokensParse(c);
    SeenAt(c, 0);
    SeenAt(c, 1);
    SeenAt(c, 2);
    SeenAt(c, 3);
    SeenAt(c, 4);
    SeenAt(c, 5);
    SeenAt(c, 6);
    ValueOfText(hz);
  }

  /** The columns of a schema line. */
  function SchemaTokens(tag: Tag): seq<string> {
    [TagName(tag), SchemaId(tag)] + Fields(tag)
  }

  lemma SchemaIsTaken(s: Session, tag: Tag, raw: Bytes)
    ensures SchemaLine(s, SchemaTokens(tag), raw) ==
            Accepted(s.(schemas := s.schemas + {tag}, out := s.out + [SchemaRow(s.lines, tag, raw)],
                        counts := s.counts.(sch := s.counts.sch + 1)))
  {
    FieldsAreNames(tag);
    hide Fields;
    TagIsKnown(tag);
    assert SchemaTokens(tag)[2..] == Fields(tag);
  }

  lemma TagIsKnown(tag: Tag)
    ensures TagOf(TagName(tag)) == Some(tag)
  {
    assert "CPS"[1] != "CSW"[1];
  }

  // ---- the lines as bytes ----

  lemma {:induction false} JoinSplits(parts: seq<string>)
    requires |parts| > 0 && forall i :: 0 <= i < |parts| ==> ',' !in parts[i]
    ensures Commas(Join(parts)) == parts
    decreases |parts|
  {
    hide Commas;
    if |parts| == 1 {
      CommasOfOne(parts[0]);
    } else {
      JoinSplits(parts[1..]);
      CommasStep(parts[0], Join(parts[1..]));
    }
  }

  lemma {:induction false} JoinIsPlain(parts: seq<string>)
    requires |parts| > 0 && forall i :: 0 <= i < |parts| ==> Plain(parts[i])
    ensures Plain(Join(parts))
    decreases |parts|
  {
    if |parts| > 1 {
      JoinIsPlain(parts[1..]);
      PlainJoins(parts[0], Join(parts[1..]));
    }
  }

  lemma PlainJoins(a: string, b: string)
    requires Plain(a) && Plain(b)
    ensures Plain(a + "," + b) && Plain(a + "=" + b)
  {
  }

  lemma {:induction false} JoinLength(parts: seq<string>, most: nat)
    requires forall i :: 0 <= i < |parts| ==> |parts[i]| <= most
    ensures |Join(parts)| <= (most + 1) * |parts|
    decreases |parts|
  {
    if |parts| > 1 {
      JoinLength(parts[1..], most);
      assert (most + 1) * |parts| == (most + 1) * |parts[1..]| + (most + 1);
    }
  }

  function CfgText(hz: u32, fw: string): string {
    Join(["CFG"] + Tokens(Advertised(hz, fw)))
  }

  function SchemaText(tag: Tag): string {
    Join(["SCH"] + SchemaTokens(tag))
  }

  predicate Columns(parts: seq<string>) {
    |parts| > 0 && forall i :: 0 <= i < |parts| ==> Plain(parts[i]) && ',' !in parts[i]
  }

  /** A line of plain columns, with its end, makes one turn of the capture. */
  lemma PlainLine(split: Splitter, s: Session, parts: seq<string>)
    requires SplitsPlainText(split) && Columns(parts) && |Join(parts)| <= MAX_LINE_BYTES
    ensures split(Encode(Join(parts))) == Some(parts) && |Encode(Join(parts))| > 0
    ensures var (next, fatal) := EndLine(split, s, Encode(Join(parts)));
      Run(split, Stream(s, [], false, false), Encode(Join(parts) + "\n")) == Stream(next, [], false, fatal)
    ensures WithoutReturn(Encode(Join(parts))) == Encode(Join(parts))
  {
    hide Run, EndLine, Plain, Commas, Join, WithoutReturn;
    var text := Join(parts);
    var line := Encode(text);
    JoinSplits(parts);
    JoinIsPlain(parts);
    PlainEnds(text);
    EncodeEnds(text);
    assert line + [NEWLINE] + [] == line + [NEWLINE];
    RunLine(split, s, false, line, []);
    NothingRuns(split, TakeLine(split, s, false, line));
  }

  lemma PlainEnds(t: string)
    requires Plain(t)
    ensures |Encode(t)| == |t| > 0 && WithoutReturn(Encode(t)) == Encode(t)
  {
    PlainByte(t, |t| - 1);
  }

  lemma TagsArePlain()
    ensures Plain("CFG") && Plain("SCH") && ',' !in "CFG" && ',' !in "SCH"
  {
  }

  lemma SchemaIsPlain(tag: Tag)
    ensures Plain(TagName(tag)) && ',' !in TagName(tag) && Plain(SchemaId(tag)) && ',' !in SchemaId(tag)
    ensures |TagName(tag)| <= 20 && |SchemaId(tag)| <= 20
  {
  }

  predicate Name(s: string) {
    Plain(s) && ',' !in s && |s| <= 20
  }

  lemma FieldsAreNames(tag: Tag)
    ensures forall i :: 0 <= i < |Fields(tag)| ==> Name(Fields(tag)[i])
    ensures 1 <= |Fields(tag)| <= 9
  {
    SwingNames();
    PpsNames();
    hide Name;
  }

  lemma SwingNames()
    ensures Name("seq") && Name("edge0_tcb0") && Name("edge1_tcb0") && Name("edge2_tcb0") && Name("edge3_tcb0")
    ensures Name("edge4_tcb0") && Name("drop_ir") && Name("drop_pps") && Name("drop_swing")
  {
  }

  lemma PpsNames()
    ensures Name("edge_tcb0") && Name("gps_status") && Name("holdover_age_ms") && Name("cap16")
    ensures Name("latency16") && Name("now32")
  {
  }

  lemma SchemaColumns(tag: Tag)
    ensures Columns(["SCH"] + SchemaTokens(tag)) && |SchemaText(tag)| <= MAX_LINE_BYTES
  {
    TagsArePlain();
    SchemaIsPlain(tag);
    FieldsAreNames(tag);
    hide Plain, Fields, TagName, SchemaId, Join;
    JoinLength(["SCH"] + SchemaTokens(tag), 20);
  }

  lemma AdvertisedIsPlain(hz: u32, fw: string)
    requires Plain(fw) && ',' !in fw
    ensures Columns(["CFG"] + Tokens(Advertised(hz, fw)))
  {
    TagsArePlain();
    var c := Advertised(hz, fw);
    DigitsArePlain(Text(hz));
    hide Text;
    KeysArePlain(hz, fw);
    hide Plain, Advertised;
    forall i | 0 <= i < 7
      ensures Plain(Tokens(c)[i]) && ',' !in Tokens(c)[i]
    {
      PlainJoins(c[i].0, c[i].1);
      assert Tokens(c)[i] == c[i].0 + "=" + c[i].1;
    }
  }

  lemma DigitsArePlain(s: string)
    requires AllDigits(s) && |s| > 0
    ensures Plain(s) && ',' !in s
  {
  }

  lemma KeysArePlain(hz: u32, fw: string)
    requires Plain(fw) && ',' !in fw && Plain(Text(hz)) && ',' !in Text(hz)
    ensures |Advertised(hz, fw)| == 7
    ensures forall i :: 0 <= i < 7 ==>
      && Plain(Advertised(hz, fw)[i].0) && ',' !in Advertised(hz, fw)[i].0
      && Plain(Advertised(hz, fw)[i].1) && ',' !in Advertised(hz, fw)[i].1
  {
    hide Text;
  }

  lemma SchemaLineIsTaken(split: Splitter, s: Session, data: Bytes, values: seq<string>, next: Session)
    requires |data| > 0 && WithoutReturn(data) == data && split(data) == Some(["SCH"] + values)
    requires SchemaLine(NextLine(s), values, data) == Accepted(next)
    ensures EndLine(split, s, data) == (next, false)
  {
    hide SchemaLine, WithoutReturn;
    assert (["SCH"] + values)[1..] == values;
  }

  lemma CfgLineIsTaken(split: Splitter, s: Session, data: Bytes, values: seq<string>, next: Session)
    requires |data| > 0 && WithoutReturn(data) == data && split(data) == Some(["CFG"] + values)
    requires CfgLine(NextLine(s), values) == Accepted(next)
    ensures EndLine(split, s, data) == (next, false)
  {
    hide CfgLine, WithoutReturn;
    assert (["CFG"] + values)[1..] == values;
  }

  /** The firmware's CFG line configures the recording. */
  lemma CfgLineConfigures(split: Splitter, s: Session, hz: u32, fw: string) returns (next: Session)
    requires SplitsPlainText(split) && hz > 0 && Plain(fw) && ',' !in fw && |CfgText(hz, fw)| <= MAX_LINE_BYTES
    requires s.cfg == None || s.cfg == Some(Advertised(hz, fw))
    ensures Run(split, Stream(s, [], false, false), Encode(CfgText(hz, fw) + "\n")) == Stream(next, [], false, false)
    ensures next.configured && next.cfg == Some(Advertised(hz, fw)) && next.schemas == s.schemas
    ensures next.malformed == s.malformed && next.lines == s.lines + 1
  {
    assert |fw| > 0;
    AdvertisedIsPlain(hz, fw);
    hide Run, Encode, Plain, Columns, Tokens, Advertised, CfgLine, SplitsPlainText, Join, WithoutReturn, EndLine;
    var tokens := Tokens(Advertised(hz, fw));
    PlainLine(split, s, ["CFG"] + tokens);
    AdvertisedIsTaken(NextLine(s), hz, fw);
    next := CfgLine(NextLine(s), tokens).session;
    CfgLineIsTaken(split, s, Encode(CfgText(hz, fw)), tokens, next);
  }

  /** Each schema line adds its schema. */
  lemma SchemaLineAdds(split: Splitter, s: Session, tag: Tag) returns (next: Session)
    requires SplitsPlainText(split)
    ensures Run(split, Stream(s, [], false, false), Encode(SchemaText(tag) + "\n")) == Stream(next, [], false, false)
    ensures next.configured == s.configured && next.cfg == s.cfg && next.schemas == s.schemas + {tag}
    ensures next.malformed == s.malformed && next.lines == s.lines + 1
  {
    SchemaColumns(tag);
    hide Run, Encode, Plain, Columns, SchemaTokens, SchemaLine, SplitsPlainText, Join, WithoutReturn, EndLine;
    var tokens, data := SchemaTokens(tag), Encode(SchemaText(tag));
    PlainLine(split, s, ["SCH"] + tokens);
    SchemaIsTaken(NextLine(s), tag, data);
    next := SchemaLine(NextLine(s), tokens, data).session;
    SchemaLineIsTaken(split, s, data, tokens, next);
  }

  /** The metadata the firmware sends makes a recording ready for samples, whatever schemas it
      had before, and none of its lines counts as malformed. */
  lemma MetadataMakesReady(split: Splitter, s: Session, hz: u32, fw: string) returns (next: Session)
    requires SplitsPlainText(split) && hz > 0 && Plain(fw) && ',' !in fw && |CfgText(hz, fw)| <= MAX_LINE_BYTES
    requires s.cfg == None || s.cfg == Some(Advertised(hz, fw))
    ensures Run(split, Stream(s, [], false, false),
                Encode(CfgText(hz, fw) + "\n") + Encode(SchemaText(CSW) + "\n") + Encode(SchemaText(CPS) + "\n")) ==
            Stream(next, [], false, false)
    ensures next.Ready() && next.malformed == s.malformed && next.lines == s.lines + 3
  {
    hide Run, Encode, Plain, SplitsPlainText, CfgText, SchemaText, Advertised;
    var a, b, c := Encode(CfgText(hz, fw) + "\n"), Encode(SchemaText(CSW) + "\n"), Encode(SchemaText(CPS) + "\n");
    var start := Stream(s, [], false, false);
    var s1 := CfgLineConfigures(split, s, hz, fw);
    var s2 := SchemaLineAdds(split, s1, CSW);
    next := SchemaLineAdds(split, s2, CPS);
    RunAppend(split, start, a + b, c);
    RunAppend(split, start, a, b);
    AllSchemas(next.schemas);
  }

  lemma AllSchemas(tags: set<Tag>)
    requires CSW in tags && CPS in tags
    ensures tags == {CSW, CPS}
  {
    forall t | t in tags ensures t in {CSW, CPS} {
      match t {
        case CSW =>
        case CPS =>
      }
    }
  }
}
