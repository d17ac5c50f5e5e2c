/** `set`, `reset defaults`, `repair eeprom` and a reboot (TunableCommands.cpp,
    TunableRegistry.cpp, TunablesRuntime.cpp, PendulumCore.cpp) as transactions over the
    live tunables and the EEPROM journal. */
module TunableCommands {
  import opened Words
  import opened EepromRecord
  import EepromJournal
  import opened TunablesRuntime
  import Decimal

  datatype Param =
    | FastShift | SlowShift | BlendLoPpm | BlendHiPpm | LockRppm | LockMadTicks | UnlockRppm | UnlockMadTicks
    | LockCount | UnlockCount | HoldoverMs | StaleMs | IsrStaleMs | ConfigReemitDelayMs | AcquireMinMs
    | MetrologyGraceMs

  /** Smallest and largest value the setter of a parameter accepts. */
  function Range(p: Param): (r: (nat, nat))
    ensures r.1 < 0x1_0000_0000
  {
    match p
    case FastShift => (1, 15)
    case SlowShift => (1, 15)
    case BlendLoPpm => (0, 20000)
    case BlendHiPpm => (1, 20000)
    case LockRppm => (0, 20000)
    case LockMadTicks => (0, 20000)
    case UnlockRppm => (0, 20000)
    case UnlockMadTicks => (0, 20000)
    case LockCount => (1, 60)
    case UnlockCount => (1, 60)
    case HoldoverMs => (1, 65535)
    case StaleMs => (1, 30000)
    case IsrStaleMs => (1, 30000)
    case ConfigReemitDelayMs => (1, 65535)
    case AcquireMinMs => (1, 65535)
    case MetrologyGraceMs => (1, 86400000)
  }

  function Assign(c: Config, p: Param, v: nat): Config
    requires Range(p).0 <= v <= Range(p).1
  {
    match p
    case FastShift => c.(ppsFastShift := v)
    case SlowShift => c.(ppsSlowShift := v)
    case BlendLoPpm => c.(ppsBlendLoPpm := v)
    case BlendHiPpm => c.(ppsBlendHiPpm := v)
    case LockRppm => c.(ppsLockRppm := v)
    case LockMadTicks => c.(ppsLockMadTicks := v)
    case UnlockRppm => c.(ppsUnlockRppm := v)
    case UnlockMadTicks => c.(ppsUnlockMadTicks := v)
    case LockCount => c.(ppsLockCount := v)
    case UnlockCount => c.(ppsUnlockCount := v)
    case HoldoverMs => c.(ppsHoldoverMs := v)
    case StaleMs => c.(ppsStaleMs := v)
    case IsrStaleMs => c.(ppsIsrStaleMs := v)
    case ConfigReemitDelayMs => c.(ppsConfigReemitDelayMs := v)
    case AcquireMinMs => c.(ppsAcquireMinMs := v)
    case MetrologyGraceMs => c.(ppsMetrologyGraceMs := v)
  }

  /** Offset and size of a parameter in the stored payload. */
  function Place(p: Param): (place: (nat, nat))
    ensures place.0 + place.1 <= PAYLOAD_SIZE
  {
    match p
    case FastShift => (0, 1)
    case SlowShift => (1, 1)
    case BlendLoPpm => (2, 2)
    case BlendHiPpm => (4, 2)
    case LockRppm => (6, 2)
    case LockMadTicks => (8, 2)
    case UnlockRppm => (10, 2)
    case UnlockMadTicks => (12, 2)
    case LockCount => (14, 1)
    case UnlockCount => (15, 1)
    case HoldoverMs => (16, 2)
    case StaleMs => (18, 2)
    case IsrStaleMs => (20, 2)
    case ConfigReemitDelayMs => (22, 2)
    case AcquireMinMs => (24, 2)
    case MetrologyGraceMs => (26, 4)
  }

  /** The number stored in these bytes, least significant first. */
  function LittleEndian(bytes: seq<u8>): nat {
    if |bytes| == 0 then 0 else bytes[0] + 0x100 * LittleEndian(bytes[1..])
  }

  /** From payload a to payload b the parameter becomes v and no other byte changes. */
  predicate OnlySets(a: seq<u8>, b: seq<u8>, p: Param, v: nat)
    requires |a| == |b| == PAYLOAD_SIZE
  {
    var (from, size) := Place(p);
    && LittleEndian(b[from..from + size]) == v
    && forall i :: 0 <= i < PAYLOAD_SIZE && !(from <= i < from + size) ==> b[i] == a[i]
  }

  lemma OneByte(x: u8)
    ensures LittleEndian([x]) == x
  {
    assert LittleEndian([x][1..]) == 0;
  }

  lemma TwoBytes(v: u16)
    ensures LittleEndian([Lo(v), Hi(v)]) == v
  {
    assert [Lo(v), Hi(v)][1..] == [Hi(v)];
    OneByte(Hi(v));
  }

  lemma FourBytes(v: u32)
    ensures LittleEndian([Lo(v % 0x1_0000), Hi(v % 0x1_0000), Lo(v / 0x1_0000), Hi(v / 0x1_0000)]) == v
  {
    var bytes := [Lo(v % 0x1_0000), Hi(v % 0x1_0000), Lo(v / 0x1_0000), Hi(v / 0x1_0000)];
    assert bytes[1..] == [bytes[1], bytes[2], bytes[3]] && bytes[1..][1..] == [bytes[2], bytes[3]];
    TwoBytes(v / 0x1_0000);
    TwoBytes(v % 0x1_0000);
  }

  lemma SetsByte(a: seq<u8>, b: seq<u8>, p: Param, v: u8)
    requires |a| == PAYLOAD_SIZE && Place(p).1 == 1 && b == a[Place(p).0 := v]
    ensures OnlySets(a, b, p, v)
  {
    hide LittleEndian, Place;
    var from := Place(p).0;
    OneByte(v);
    assert b[from..from + 1] == [v];
  }

  lemma SetsWord(a: seq<u8>, b: seq<u8>, p: Param, v: u16)
    requires |a| == PAYLOAD_SIZE && Place(p).1 == 2 && b == a[Place(p).0 := Lo(v)][Place(p).0 + 1 := Hi(v)]
    ensures OnlySets(a, b, p, v)
  {
    hide LittleEndian, Place, Lo, Hi;
    var from := Place(p).0;
    TwoBytes(v);
    assert b[from..from + 2] == [Lo(v), Hi(v)];
  }

  lemma SetsLong(a: seq<u8>, b: seq<u8>, p: Param, v: u32)
    requires |a| == PAYLOAD_SIZE && Place(p).1 == 4
    requires b == a[Place(p).0 := Lo(v % 0x1_0000)][Place(p).0 + 1 := Hi(v % 0x1_0000)]
                   [Place(p).0 + 2 := Lo(v / 0x1_0000)][Place(p).0 + 3 := Hi(v / 0x1_0000)]
    ensures OnlySets(a, b, p, v)
  {
    hide LittleEndian, Place, Lo, Hi;
    var from := Place(p).0;
    FourBytes(v);
    assert b[from..from + 4] == [Lo(v % 0x1_0000), Hi(v % 0x1_0000), Lo(v / 0x1_0000), Hi(v / 0x1_0000)];
  }

  lemma AssignByte(c: Config, p: Param, v: nat)
    requires Range(p).0 <= v <= Range(p).1 && Place(p).1 == 1
    ensures OnlySets(EncodePayload(c), EncodePayload(Assign(c, p, v)), p, v)
  {
    hide OnlySets, Lo, Hi;
    SetsByte(EncodePayload(c), EncodePayload(Assign(c, p, v)), p, v);
  }

  lemma AssignEarlyWord(c: Config, p: Param, v: nat)
    requires Range(p).0 <= v <= Range(p).1 && Place(p).1 == 2 && Place(p).0 < 14
    ensures OnlySets(EncodePayload(c), EncodePayload(Assign(c, p, v)), p, v)
  {
    hide OnlySets, Lo, Hi;
    SetsWord(EncodePayload(c), EncodePayload(Assign(c, p, v)), p, v);
  }

  lemma AssignLateWord(c: Config, p: Param, v: nat)
    requires Range(p).0 <= v <= Range(p).1 && Place(p).1 == 2 && Place(p).0 > 14
    ensures OnlySets(EncodePayload(c), EncodePayload(Assign(c, p, v)), p, v)
  {
    hide OnlySets, Lo, Hi;
    SetsWord(EncodePayload(c), EncodePayload(Assign(c, p, v)), p, v);
  }

  lemma AssignLong(c: Config, p: Param, v: nat)
    requires Range(p).0 <= v <= Range(p).1 && Place(p).1 == 4
    ensures OnlySets(EncodePayload(c), EncodePayload(Assign(c, p, v)), p, v)
  {
    hide OnlySets, Lo, Hi;
    SetsLong(EncodePayload(c), EncodePayload(Assign(c, p, v)), p, v);
  }

  /** Setting a parameter changes its own bytes of the stored payload to the number typed, and
      nothing else: for each of the sixteen. */
  lemma AssignOnlySets(c: Config, p: Param, v: nat)
    requires Range(p).0 <= v <= Range(p).1
    ensures OnlySets(EncodePayload(c), EncodePayload(Assign(c, p, v)), p, v)
  {
    hide OnlySets, EncodePayload, Assign, Range;
    if Place(p).1 == 1 {
      AssignByte(c, p, v);
    } else if Place(p).1 == 4 {
      AssignLong(c, p, v);
    } else if Place(p).0 < 14 {
      AssignEarlyWord(c, p, v);
    } else {
      AssignLateWord(c, p, v);
    }
  }

  /** What a setter makes of its argument: decimal digits only, in range, and the grace
      time only in builds with tuning telemetry. */
  function ParseValue(p: Param, text: string, tuningTelemetry: bool): Option<nat> {
    if p.MetrologyGraceMs? && !tuningTelemetry then None
    else if |text| == 0 || !Decimal.AllDigits(text) then None
    else
      var v := Decimal.ValueOf(text);
      if Range(p).0 <= v <= Range(p).1 then Some(v) else None
  }

  /** What the refusal message asks for: slow >= fast, blendHi > blendLo, unlock >= lock. */
  predicate Consistent(c: Config) {
    && c.ppsFastShift <= c.ppsSlowShift && c.ppsBlendLoPpm < c.ppsBlendHiPpm
    && c.ppsLockRppm <= c.ppsUnlockRppm && c.ppsLockMadTicks <= c.ppsUnlockMadTicks
  }

  /** A value the setter of a parameter takes makes the settings invalid only by an
      inconsistency of that kind. */
  lemma RefusedOnlyIfInconsistent(c: Config, p: Param, v: nat)
    requires ValidateConfig(c) && Range(p).0 <= v <= Range(p).1
    ensures ValidateConfig(Assign(c, p, v)) <==> Consistent(Assign(c, p, v))
  {
  }

  // ---- the setters against the check of the whole ----

  /** The number a parameter has in these settings, as stored. */
  function NumberOf(c: Config, p: Param): nat {
    var (from, size) := Place(p);
    LittleEndian(EncodePayload(c)[from..from + size])
  }

  /** Settings in which every parameter but one leaves that one most room. */
  const WIDEST := DEFAULTS.(ppsFastShift := 1, ppsSlowShift := 15, ppsBlendLoPpm := 0, ppsBlendHiPpm := 20000,
                            ppsLockRppm := 0, ppsUnlockRppm := 20000, ppsLockMadTicks := 0, ppsUnlockMadTicks := 20000)

  lemma WidestTakes(p: Param, v: nat)
    requires Range(p).0 <= v <= Range(p).1 && !(p == BlendLoPpm && v == 20000)
    ensures ValidateConfig(Assign(WIDEST, p, v)) && NumberOf(Assign(WIDEST, p, v), p) == v
  {
    AssignOnlySets(WIDEST, p, v);
    hide EncodePayload, LittleEndian;
  }

  lemma SmallNumbers(c: Config, p: Param)
    requires ValidateConfig(c) && Place(p).1 == 1
    ensures Range(p).0 <= NumberOf(c, p) <= Range(p).1
  {
    var from, b := Place(p).0, EncodePayload(c);
    OneByte(b[from]);
    assert b[from..from + 1] == [b[from]];
    hide LittleEndian;
  }

  lemma WordIs(c: Config, p: Param, word: u16)
    requires Place(p).1 == 2
    requires EncodePayload(c)[Place(p).0] == Lo(word) && EncodePayload(c)[Place(p).0 + 1] == Hi(word)
    ensures NumberOf(c, p) == word
  {
    hide EncodePayload, Place, LittleEndian, Lo, Hi;
    var from, b := Place(p).0, EncodePayload(c);
    TwoBytes(word);
    assert b[from..from + 2] == [b[from], b[from + 1]];
  }

  /** The field of a two-byte parameter. */
  function WordOf(c: Config, p: Param): u16
    requires Place(p).1 == 2
  {
    match p
    case BlendLoPpm => c.ppsBlendLoPpm
    case BlendHiPpm => c.ppsBlendHiPpm
    case LockRppm => c.ppsLockRppm
    case LockMadTicks => c.ppsLockMadTicks
    case UnlockRppm => c.ppsUnlockRppm
    case UnlockMadTicks => c.ppsUnlockMadTicks
    case HoldoverMs => c.ppsHoldoverMs
    case StaleMs => c.ppsStaleMs
    case IsrStaleMs => c.ppsIsrStaleMs
    case ConfigReemitDelayMs => c.ppsConfigReemitDelayMs
    case AcquireMinMs => c.ppsAcquireMinMs
  }

  lemma WordBytes(c: Config, p: Param)
    requires Place(p).1 == 2
    ensures EncodePayload(c)[Place(p).0] == Lo(WordOf(c, p)) && EncodePayload(c)[Place(p).0 + 1] == Hi(WordOf(c, p))
  {
    hide Lo, Hi;
  }

  lemma WordNumbers(c: Config, p: Param)
    requires ValidateConfig(c) && Place(p).1 == 2
    ensures Range(p).0 <= NumberOf(c, p) <= Range(p).1 && !(p == BlendLoPpm && NumberOf(c, p) == 20000)
  {
    hide EncodePayload, NumberOf, Lo, Hi;
    WordBytes(c, p);
    WordIs(c, p, WordOf(c, p));
  }

  lemma LongNumber(c: Config)
    requires ValidateConfig(c)
    ensures 1 <= NumberOf(c, MetrologyGraceMs) <= 86400000
  {
    var b := EncodePayload(c);
    FourBytes(c.ppsMetrologyGraceMs);
    assert b[26..30] == [b[26], b[27], b[28], b[29]];
    hide LittleEndian, Lo, Hi;
  }

  /** A setter takes exactly the numbers that its parameter has in some valid settings, but for
      one: blendLo also takes 20000, with which no settings are valid. */
  lemma SettersTakeWhatCanBeValid(p: Param, v: nat)
    ensures (exists c :: ValidateConfig(c) && NumberOf(c, p) == v) <==>
            Range(p).0 <= v <= Range(p).1 && !(p == BlendLoPpm && v == 20000)
  {
    if Range(p).0 <= v <= Range(p).1 && !(p == BlendLoPpm && v == 20000) {
      WidestTakes(p, v);
    }
    hide ValidateConfig, NumberOf;
    forall c | ValidateConfig(c) && NumberOf(c, p) == v
      ensures Range(p).0 <= v <= Range(p).1 && !(p == BlendLoPpm && v == 20000)
    {
      if Place(p).1 == 1 {
        SmallNumbers(c, p);
      } else if Place(p).1 == 4 {
        LongNumber(c);
      } else {
        WordNumbers(c, p);
      }
    }
  }

  lemma DefaultsAreValid()
    ensures ValidateConfig(DEFAULTS) && Normalize(DEFAULTS) == DEFAULTS
  {
  }

  /** The tunables a boot from this EEPROM ends up with. */
  function Boot(m: EepromJournal.Memory): Config {
    match EepromJournal.Load(m)
    case Nothing => DEFAULTS
    case Loaded(_, cfg, _) => Normalize(cfg)
  }

  datatype Command = Set(param: Param, text: string) | ResetDefaults | RepairEeprom | Reboot

  /** The effect an accepted command has on the configuration. */
  function Effect(c: Config, cmd: Command, tuningTelemetry: bool): Config {
    match cmd
    case Set(p, text) =>
      var v := ParseValue(p, text, tuningTelemetry);
      if v.Some? then Assign(c, p, v.value) else c
    case ResetDefaults => DEFAULTS
    case RepairEeprom => c
    case Reboot => c
  }

  function Replay(c: Config, cmds: seq<Command>, accepted: seq<bool>, tuningTelemetry: bool): Config
    requires |cmds| == |accepted|
  {
    if |cmds| == 0 then c
    else
      var last := |cmds| - 1;
      var before := Replay(c, cmds[..last], accepted[..last], tuningTelemetry);
      if accepted[last] then Effect(before, cmds[last], tuningTelemetry) else before
  }

  class Firmware {
    const eeprom: EepromJournal.EepromConfig
    const tuningTelemetry: bool
    /** The `Tunables::` globals. */
    var ram: Config

    /** The live settings pass validation, and are what a reboot would load. */
    ghost predicate Valid()
      reads this, eeprom, eeprom.cells
    {
      && eeprom.Valid()
      && EepromJournal.Ordered(eeprom.Mem())
      && ValidateConfig(ram)
      && ram == Boot(eeprom.Mem())
    }

    constructor (eeprom: EepromJournal.EepromConfig, tuningTelemetry: bool)
      requires eeprom.Valid() && EepromJournal.Ordered(eeprom.Mem())
      modifies eeprom`currentSeq, eeprom`loadDiag
      ensures Valid() && this.eeprom == eeprom && this.tuningTelemetry == tuningTelemetry
    {
      this.eeprom := eeprom;
      this.tuningTelemetry := tuningTelemetry;
      ram := DEFAULTS;
      new;
      LoadAtBoot();
    }

    method LoadAtBoot()
      requires eeprom.Valid() && EepromJournal.Ordered(eeprom.Mem()) && ram == DEFAULTS
      modifies this`ram, eeprom`currentSeq, eeprom`loadDiag
      ensures Valid()
    {
      hide EepromJournal.Load, EepromJournal.Ordered, ValidateConfig, Normalize;
      var cfg := eeprom.LoadConfig();
      EepromJournal.LoadedIsValid(eeprom.Mem());
      DefaultsAreValid();
      if cfg.Some? {
        NormalizeKeepsValid(cfg.value);
        ApplyConfig(cfg.value);
      }
    }

    method ApplyConfig(cfg: Config)
      modifies this`ram
      ensures ram == Normalize(cfg)
    {
      ram := cfg.(ppsLockCount := Clamp(cfg.ppsLockCount, LOCK_COUNT_MIN, LOCK_COUNT_MAX));
      ram := Normalize(ram);
    }

    /** Accepted: memory and EEPROM both hold the edited settings. Refused, for whatever
        reason: both are as they were. */
    method HandleSet(p: Param, text: string) returns (accepted: bool)
      requires Valid()
      modifies this`ram, eeprom`writes, eeprom`powered, eeprom`currentSeq, eeprom.cells
      ensures Valid() && eeprom.writes >= old(eeprom.writes)
      ensures old(EepromJournal.Adjacent(eeprom.Mem())) ==> EepromJournal.Adjacent(eeprom.Mem())
      ensures ram == if accepted then Effect(old(ram), Set(p, text), tuningTelemetry) else old(ram)
      ensures accepted ==>
        Decimal.AllDigits(text) && OnlySets(EncodePayload(old(ram)), EncodePayload(ram), p, Decimal.ValueOf(text))
      ensures accepted ==> EepromJournal.Load(eeprom.Mem()).Loaded? && EepromJournal.Load(eeprom.Mem()).cfg == ram
      ensures !accepted ==> EepromJournal.Load(eeprom.Mem()) == old(EepromJournal.Load(eeprom.Mem()))
      ensures old(eeprom.powered && eeprom.ReliableFrom(eeprom.writes)) ==>
        (accepted <==>
           && ParseValue(p, text, tuningTelemetry).Some?
           && ValidateConfig(Effect(old(ram), Set(p, text), tuningTelemetry)))
    {
      hide EepromJournal.Load, EepromJournal.Ordered, EepromJournal.Adjacent, ValidateConfig, Normalize, Assign,
           EepromJournal.AgreesOutside, EepromJournal.SaveSlot, EepromJournal.NextSeq;
      NormalizeKeepsValid(ram);
      var before := ram;
      var v := ParseValue(p, text, tuningTelemetry);
      if v.None? {
        return false;
      }
      AssignOnlySets(ram, p, v.value);
      hide OnlySets, EncodePayload;
      ram := Assign(ram, p, v.value);
      var candidate := ram;
      if !ValidateConfig(candidate) {
        ApplyConfig(before);
        return false;
      }
      accepted := eeprom.SaveConfig(candidate);
      if !accepted {
        ApplyConfig(before);
        return;
      }
      NormalizeKeepsValid(candidate);
    }

    method HandleReset() returns (accepted: bool)
      requires Valid()
      modifies this`ram, eeprom`writes, eeprom`powered, eeprom`currentSeq, eeprom.cells
      ensures Valid() && eeprom.writes >= old(eeprom.writes)
      ensures old(EepromJournal.Adjacent(eeprom.Mem())) ==> EepromJournal.Adjacent(eeprom.Mem())
      ensures ram == if accepted then DEFAULTS else old(ram)
      ensures accepted ==> EepromJournal.Load(eeprom.Mem()).Loaded? && EepromJournal.Load(eeprom.Mem()).cfg == DEFAULTS
      ensures !accepted ==> EepromJournal.Load(eeprom.Mem()) == old(EepromJournal.Load(eeprom.Mem()))
      ensures old(eeprom.powered && eeprom.ReliableFrom(eeprom.writes)) ==> accepted
    {
      hide EepromJournal.Load, EepromJournal.Ordered, EepromJournal.Adjacent, ValidateConfig, Normalize,
           EepromJournal.AgreesOutside, EepromJournal.SaveSlot, EepromJournal.NextSeq;
      NormalizeKeepsValid(ram);
      DefaultsAreValid();
      var before := ram;
      ram := DEFAULTS;
      ram := Normalize(ram);
      accepted := eeprom.SaveConfig(ram);
      if !accepted {
        ApplyConfig(before);
      }
    }

    /** Success means two good copies; either way the settings, live and stored, stay. */
    method HandleRepair() returns (accepted: bool)
      requires Valid()
      modifies eeprom`writes, eeprom`powered, eeprom`currentSeq, eeprom`loadDiag, eeprom.cells
      ensures Valid() && eeprom.writes >= old(eeprom.writes)
      ensures old(EepromJournal.Adjacent(eeprom.Mem())) ==> EepromJournal.Adjacent(eeprom.Mem())
      ensures accepted ==> EepromJournal.ReadAt(eeprom.Mem(), EepromJournal.A).Record?
      ensures accepted ==> EepromJournal.ReadAt(eeprom.Mem(), EepromJournal.B).Record?
      ensures old(eeprom.powered && eeprom.ReliableFrom(eeprom.writes)) ==>
        (accepted <==> old(EepromJournal.Load(eeprom.Mem())).Loaded?)
    {
      hide EepromJournal.Load, EepromJournal.Ordered, EepromJournal.Adjacent, ValidateConfig, Normalize,
           EepromJournal.ReadAt;
      accepted := eeprom.RepairEeprom();
    }

    /** A reboot, at any moment, finds the settings it left. */
    method RebootFirmware()
      requires Valid()
      modifies this`ram, eeprom`powered, eeprom`currentSeq, eeprom`loadDiag
      ensures Valid() && ram == old(ram) && eeprom.powered
    {
      eeprom.powered := true;
      eeprom.currentSeq := 0;
      ram := DEFAULTS;
      LoadAtBoot();
    }

    /** Any session of commands, refused cell writes, power cuts and reboots leaves exactly
        the accepted commands' effect, live and after the next reboot; and valid slots one
        sequence number apart. */
    method ProcessCommands(cmds: seq<Command>) returns (accepted: seq<bool>)
      requires Valid()
      modifies this`ram, eeprom`writes, eeprom`powered, eeprom`currentSeq, eeprom`loadDiag, eeprom.cells
      ensures Valid() && |accepted| == |cmds|
      ensures ram == Replay(old(ram), cmds, accepted, tuningTelemetry)
      ensures old(EepromJournal.Adjacent(eeprom.Mem())) ==> EepromJournal.Adjacent(eeprom.Mem())
      ensures Boot(eeprom.Mem()) == ram
    {
      hide ValidateConfig, Boot, EepromJournal.Ordered, EepromJournal.Adjacent, EepromJournal.Load;
      accepted := [];
      for i := 0 to |cmds|
        invariant Valid() && |accepted| == i
        invariant ram == Replay(old(ram), cmds[..i], accepted, tuningTelemetry)
        invariant old(EepromJournal.Adjacent(eeprom.Mem())) ==> EepromJournal.Adjacent(eeprom.Mem())
      {
        var ok := true;
        ghost var done := accepted;
        match cmds[i] {
          case Set(p, text) => ok := HandleSet(p, text);
          case ResetDefaults => ok := HandleReset();
          case RepairEeprom => ok := HandleRepair();
          case Reboot => RebootFirmware();
        }
        accepted := accepted + [ok];
        assert cmds[..i + 1][..i] == cmds[..i] && accepted[..i] == done;
      }
      assert cmds[..|cmds|] == cmds;
    }
  }
}
