/** The two-slot settings journal (EEPROMConfig.cpp) on an EEPROM whose cell writes can be
    refused, can leave any value behind, and can be cut short by a loss of power. */
module EepromJournal {
  import opened Words
  import opened EepromRecord
  import Crc16

  const EEPROM_BYTES := 256
  const SLOT_SIZE := 64

  type Memory = m: seq<u8> | |m| == EEPROM_BYTES witness seq(EEPROM_BYTES, i => 0xFF)

  datatype Slot = A | B

  function Addr(s: Slot): nat {
    if s.A? then 0 else 64
  }

  function Other(s: Slot): Slot {
    if s.A? then B else A
  }

  function SlotBytes(m: Memory, s: Slot): (b: seq<u8>)
    ensures |b| == SLOT_SIZE
  {
    m[Addr(s)..Addr(s) + SLOT_SIZE]
  }

  function ReadAt(m: Memory, s: Slot): Decoded {
    ReadRecord(SlotBytes(m, s))
  }

  predicate IsMarker(addr: nat) {
    addr == Addr(A) + OFF_COMMITTED || addr == Addr(B) + OFF_COMMITTED
  }

  /** `(int32_t)(a - b) > 0` */
  predicate IsSeqNewer(a: u32, b: u32) {
    AsInt32(a - b) > 0
  }

  /** What loadConfig returns. */
  datatype Loaded = Nothing | Loaded(source: Slot, cfg: Config, seqNo: u32)

  // ---- choosing between two slots, given what each reads as ----

  function Choose(a: Decoded, b: Decoded): Loaded {
    if a.Record? && !b.Record? then Loaded(A, a.cfg, a.seqNo)
    else if !a.Record? && b.Record? then Loaded(B, b.cfg, b.seqNo)
    else if a.Record? && b.Record? then
      if IsSeqNewer(b.seqNo, a.seqNo) then Loaded(B, b.cfg, b.seqNo) else Loaded(A, a.cfg, a.seqNo)
    else Nothing
  }

  /** pickSaveAddr */
  function PickSave(a: Decoded, b: Decoded): Slot {
    if a.Record? && b.Record? then if IsSeqNewer(a.seqNo, b.seqNo) then B else A
    else if a.Record? then B
    else A
  }

  function SuccessorSeq(a: Decoded, b: Decoded, currentSeq: u32): u32 {
    var base :=
      if a.Record? && b.Record? then if IsSeqNewer(a.seqNo, b.seqNo) then a.seqNo else b.seqNo
      else if a.Record? then a.seqNo
      else if b.Record? then b.seqNo
      else currentSeq;
    Wrap32(base + 1)
  }

  /** The sequence numbers decide which of two valid slots is newer. */
  predicate PairOrdered(a: Decoded, b: Decoded) {
    a.Record? && b.Record? ==> IsSeqNewer(a.seqNo, b.seqNo) || IsSeqNewer(b.seqNo, a.seqNo)
  }

  /** Two valid slots carry consecutive sequence numbers, modulo 2^32. */
  predicate PairAdjacent(a: Decoded, b: Decoded) {
    a.Record? && b.Record? ==> a.seqNo == Wrap32(b.seqNo + 1) || b.seqNo == Wrap32(a.seqNo + 1)
  }

  /** A save may only overwrite a slot that loading does not depend on; that is so exactly
      when the sequence numbers order the slots. */
  lemma SaveSparesLoadedSlot(a: Decoded, b: Decoded)
    ensures PairOrdered(a, b) <==> Choose(a, b).Nothing? || PickSave(a, b) == Other(Choose(a, b).source)
  {
  }

  /** Two valid slots fail to be ordered exactly at distance 0 and distance 2^31. */
  lemma UnorderedDistances(a: Decoded, b: Decoded)
    requires a.Record? && b.Record?
    ensures !PairOrdered(a, b) <==> Sub32(a.seqNo, b.seqNo) in {0, TWO31}
  {
  }

  function Replace(a: Decoded, b: Decoded, s: Slot, d: Decoded): (Decoded, Decoded) {
    if s.A? then (d, b) else (a, d)
  }

  lemma SuccessorIsNewer(n: u32)
    ensures IsSeqNewer(Wrap32(n + 1), n) && !IsSeqNewer(n, Wrap32(n + 1))
  {
  }

  /** Losing the slot being saved to changes nothing that loads, exactly when the sequence
      numbers order the slots. */
  lemma LosingTheSaveSlot(a: Decoded, b: Decoded, d: Decoded)
    requires d.Rejected?
    ensures var (a', b') := Replace(a, b, PickSave(a, b), d);
      (Choose(a', b') == Choose(a, b) <==> PairOrdered(a, b)) && PairAdjacent(a', b')
  {
  }

  /** Completing it makes exactly the new record load, one after the last, even when the
      sequence number wraps, and whether or not the slots were ordered before. */
  lemma CompletingTheSaveSlot(a: Decoded, b: Decoded, currentSeq: u32, cfg: Config)
    ensures var d := Record(cfg, SuccessorSeq(a, b, currentSeq));
      var (a', b') := Replace(a, b, PickSave(a, b), d);
      Choose(a', b') == Loaded(PickSave(a, b), cfg, d.seqNo) && PairAdjacent(a', b')
  {
    if a.Record? {
      SuccessorIsNewer(a.seqNo);
    }
    if b.Record? {
      SuccessorIsNewer(b.seqNo);
    }
    hide IsSeqNewer, Wrap32;
  }

  lemma AdjacentIsOrdered(a: Decoded, b: Decoded)
    requires PairAdjacent(a, b)
    ensures PairOrdered(a, b)
  {
    if a.Record? && b.Record? {
      SuccessorIsNewer(a.seqNo);
      SuccessorIsNewer(b.seqNo);
    }
  }

  // ---- the same, of a memory ----

  function Load(m: Memory): Loaded {
    Choose(ReadAt(m, A), ReadAt(m, B))
  }

  function SaveSlot(m: Memory): Slot {
    PickSave(ReadAt(m, A), ReadAt(m, B))
  }

  function NextSeq(m: Memory, currentSeq: u32): u32 {
    SuccessorSeq(ReadAt(m, A), ReadAt(m, B), currentSeq)
  }

  predicate Ordered(m: Memory) {
    PairOrdered(ReadAt(m, A), ReadAt(m, B))
  }

  predicate Adjacent(m: Memory) {
    PairAdjacent(ReadAt(m, A), ReadAt(m, B))
  }

  lemma AdjacentMemoryIsOrdered(m: Memory)
    ensures Adjacent(m) ==> Ordered(m)
  {
    hide ReadAt;
    if Adjacent(m) {
      AdjacentIsOrdered(ReadAt(m, A), ReadAt(m, B));
    }
  }

  /** With at most one valid slot there is nothing to order; so a fresh, erased EEPROM starts
      with the invariant of every run. */
  lemma OneCopyIsOrdered(m: Memory)
    requires ReadAt(m, A).Rejected? || ReadAt(m, B).Rejected?
    ensures Ordered(m) && Adjacent(m)
  {
  }

  lemma ErasedIsOrdered(m: Memory)
    requires forall i :: 0 <= i < EEPROM_BYTES ==> m[i] == 0xFF
    ensures Load(m) == Nothing && Ordered(m) && Adjacent(m)
  {
    ClearMarkerRejects(m, A);
    ClearMarkerRejects(m, B);
    hide ReadAt;
    OneCopyIsOrdered(m);
  }

  predicate AgreesOutside(m: Memory, m': Memory, s: Slot) {
    forall i :: 0 <= i < EEPROM_BYTES && !(Addr(s) <= i < Addr(s) + SLOT_SIZE) ==> m'[i] == m[i]
  }

  lemma SliceOfSlice(m: seq<u8>, lo: nat, hi: nat, i: nat, j: nat)
    requires i <= j && lo + j <= hi <= |m|
    ensures m[lo..hi][i..j] == m[lo + i..lo + j]
  {
    var a, b := m[lo..hi][i..j], m[lo + i..lo + j];
    assert |a| == |b|;
    assert forall k :: 0 <= k < j - i ==> a[k] == m[lo + i + k] == b[k];
  }

  /** A slot's header and payload are where they are written. */
  lemma SlotParts(m: Memory, s: Slot)
    ensures SlotBytes(m, s)[..HEADER_SIZE] == m[Addr(s)..Addr(s) + HEADER_SIZE]
    ensures SlotBytes(m, s)[HEADER_SIZE..RECORD_SIZE] ==
            m[Addr(s) + HEADER_SIZE..Addr(s) + HEADER_SIZE + PAYLOAD_SIZE]
  {
    SliceOfSlice(m, Addr(s), Addr(s) + SLOT_SIZE, 0, HEADER_SIZE);
    SliceOfSlice(m, Addr(s), Addr(s) + SLOT_SIZE, HEADER_SIZE, RECORD_SIZE);
  }

  lemma UpdateInSlice(m: seq<u8>, lo: nat, hi: nat, at: nat, v: u8)
    requires lo <= at < hi <= |m|
    ensures m[at := v][lo..hi] == m[lo..hi][at - lo := v]
    ensures forall k :: 0 <= k <= lo ==> m[at := v][k..lo] == m[k..lo]
    ensures forall k :: hi <= k <= |m| ==> m[at := v][hi..k] == m[hi..k]
  {
  }

  /** Writing the marker changes one byte of the header and nothing of the payload. */
  lemma MarkerSet(m: Memory, m': Memory, s: Slot, v: u8)
    requires m' == m[Addr(s) + OFF_COMMITTED := v]
    ensures SlotBytes(m', s)[..HEADER_SIZE] == SlotBytes(m, s)[..HEADER_SIZE][OFF_COMMITTED := v]
    ensures SlotBytes(m', s)[HEADER_SIZE..RECORD_SIZE] == SlotBytes(m, s)[HEADER_SIZE..RECORD_SIZE]
    ensures AgreesOutside(m, m', s)
  {
    var bytes := SlotBytes(m, s);
    UpdateInSlice(m, Addr(s), Addr(s) + SLOT_SIZE, Addr(s) + OFF_COMMITTED, v);
    assert SlotBytes(m', s) == bytes[OFF_COMMITTED := v];
    UpdateInSlice(bytes, 0, HEADER_SIZE, OFF_COMMITTED, v);
  }

  lemma OtherSlotUntouched(m: Memory, m': Memory, s: Slot)
    requires AgreesOutside(m, m', s)
    ensures ReadAt(m', Other(s)) == ReadAt(m, Other(s))
  {
    hide ReadRecord;
    assert SlotBytes(m', Other(s)) == SlotBytes(m, Other(s));
  }

  lemma ClearMarkerRejects(m: Memory, s: Slot)
    requires m[Addr(s) + OFF_COMMITTED] != COMMITTED_MARKER
    ensures ReadAt(m, s).Rejected?
  {
    assert SlotBytes(m, s)[OFF_COMMITTED] == m[Addr(s) + OFF_COMMITTED];
  }

  lemma UnpublishedLoadsTheSame(m: Memory, m': Memory)
    requires Ordered(m) && AgreesOutside(m, m', SaveSlot(m))
    requires ReadAt(m', SaveSlot(m)).Rejected? || m' == m
    ensures Load(m') == Load(m) && Ordered(m') && (Adjacent(m) ==> Adjacent(m'))
  {
    hide ReadAt;
    OtherSlotUntouched(m, m', SaveSlot(m));
    if m' != m {
      LosingTheSaveSlot(ReadAt(m, A), ReadAt(m, B), ReadAt(m', SaveSlot(m)));
    }
  }

  lemma PublishedLoadsTheNew(m: Memory, m': Memory, currentSeq: u32, cfg: Config)
    requires AgreesOutside(m, m', SaveSlot(m))
    requires ReadAt(m', SaveSlot(m)) == Record(cfg, NextSeq(m, currentSeq))
    ensures Load(m') == Loaded(SaveSlot(m), cfg, NextSeq(m, currentSeq)) && Adjacent(m') && Ordered(m')
  {
    hide ReadAt;
    OtherSlotUntouched(m, m', SaveSlot(m));
    CompletingTheSaveSlot(ReadAt(m, A), ReadAt(m, B), currentSeq, cfg);
    AdjacentIsOrdered(ReadAt(m', A), ReadAt(m', B));
  }

  /** The fate of one physical cell write. A cell that does not take its value is left
      holding `left`; a marker cell is left either as it was or as intended. */
  datatype Fault = Clean | Refused(left: u8) | PowerCut(left: u8)

  datatype LoadDiag = LoadDiag(source: char, slotA: SlotCode, slotB: SlotCode, sequence: u32, hasSequence: bool)

  function Code(d: Decoded): SlotCode {
    if d.Record? then Ok else d.code
  }

  function Diagnosis(m: Memory): LoadDiag {
    var a, b := Code(ReadAt(m, A)), Code(ReadAt(m, B));
    match Load(m)
    case Nothing => LoadDiag('D', a, b, 0, false)
    case Loaded(source, _, seqNo) => LoadDiag(if source.A? then 'A' else 'B', a, b, seqNo, true)
  }

  class EepromConfig {
    const cells: array<u8>
    /** The fate of the n-th physical write of the device's life: the environment's choice. */
    const faults: nat -> Fault
    var writes: nat
    var powered: bool
    var currentSeq: u32
    var loadDiag: LoadDiag

    ghost predicate Valid()
      reads this
    {
      cells.Length == EEPROM_BYTES
    }

    function Mem(): Memory
      requires Valid()
      reads this, cells
    {
      cells[..]
    }

    /** No write from the n-th on fails. */
    ghost predicate ReliableFrom(n: nat) {
      forall k: nat :: n <= k ==> faults(k) == Clean
    }

    constructor (initial: Memory, faults: nat -> Fault)
      ensures Valid() && fresh(cells) && Mem() == initial && this.faults == faults
      ensures powered && currentSeq == 0
    {
      this.faults := faults;
      cells := new u8[EEPROM_BYTES](i requires 0 <= i < EEPROM_BYTES => initial[i]);
      writes, powered, currentSeq := 0, true, 0;
      loadDiag := LoadDiag('D', Ncm, Ncm, 0, false);
      new;
      assert cells[..] == initial;
    }

    /** EEPROM.update: writes only a differing cell. */
    method Update(addr: nat, v: u8)
      requires Valid() && addr < EEPROM_BYTES
      modifies this`writes, this`powered, cells
      ensures Valid() && writes >= old(writes)
      ensures forall i :: 0 <= i < EEPROM_BYTES && i != addr ==> cells[i] == old(cells[i])
      ensures IsMarker(addr) ==> cells[addr] == old(cells[addr]) || cells[addr] == v
      ensures old(cells[addr]) == v || !old(powered) ==> cells[addr] == old(cells[addr])
      ensures !old(powered) ==> !powered
      ensures old(powered) && ReliableFrom(old(writes)) ==> powered && cells[addr] == v
    {
      if powered && cells[addr] != v {
        var fault := faults(writes);
        writes := writes + 1;
        match fault {
          case Clean =>
            cells[addr] := v;
          case Refused(left) =>
            cells[addr] := if IsMarker(addr) && left != v then cells[addr] else left;
          case PowerCut(left) =>
            cells[addr] := if IsMarker(addr) && left != v then cells[addr] else left;
            powered := false;
        }
      }
    }

    method UpdateBytes(addr: nat, src: seq<u8>)
      requires Valid() && addr + |src| <= EEPROM_BYTES
      modifies this`writes, this`powered, cells
      ensures Valid() && writes >= old(writes)
      ensures forall i :: 0 <= i < EEPROM_BYTES && !(addr <= i < addr + |src|) ==> cells[i] == old(cells[i])
      ensures forall i :: addr <= i < addr + |src| && old(cells[i]) == src[i - addr] ==> cells[i] == old(cells[i])
      ensures old(powered) && ReliableFrom(old(writes)) ==> powered && Mem()[addr..addr + |src|] == src
    {
      var i := 0;
      while i < |src|
        invariant 0 <= i <= |src| && writes >= old(writes)
        invariant forall j :: 0 <= j < EEPROM_BYTES && !(addr <= j < addr + i) ==> cells[j] == old(cells[j])
        invariant forall j :: addr <= j < addr + i && old(cells[j]) == src[j - addr] ==> cells[j] == old(cells[j])
        invariant old(powered) && ReliableFrom(old(writes)) ==>
          powered && forall j :: addr <= j < addr + i ==> cells[j] == src[j - addr]
      {
        Update(addr + i, src[i]);
        i := i + 1;
      }
      if old(powered) && ReliableFrom(old(writes)) {
        ghost var written := Mem()[addr..addr + |src|];
        assert forall k :: 0 <= k < |src| ==> written[k] == cells[addr + k] == src[k];
        assert written == src;
      }
    }

    method VerifyBytes(addr: nat, expected: seq<u8>) returns (same: bool)
      requires Valid() && addr + |expected| <= EEPROM_BYTES
      ensures same <==> Mem()[addr..addr + |expected|] == expected
    {
      var i := 0;
      while i < |expected|
        invariant 0 <= i <= |expected|
        invariant Mem()[addr..addr + i] == expected[..i]
      {
        if cells[addr + i] != expected[i] {
          assert Mem()[addr..addr + |expected|][i] != expected[i];
          return false;
        }
        i := i + 1;
      }
      assert expected[..i] == expected;
      return true;
    }

    /** Invalidate the slot, write header and payload, verify every byte. */
    method StageRecord(slot: Slot, header: seq<u8>, payload: seq<u8>) returns (ok: bool)
      requires Valid()
      requires |header| == HEADER_SIZE && header[OFF_COMMITTED] == UNCOMMITTED_MARKER && |payload| == PAYLOAD_SIZE
      modifies this`writes, this`powered, cells
      ensures Valid() && writes >= old(writes) && AgreesOutside(old(Mem()), Mem(), slot)
      ensures ok ==> SlotBytes(Mem(), slot)[..HEADER_SIZE] == header
      ensures ok ==> SlotBytes(Mem(), slot)[HEADER_SIZE..RECORD_SIZE] == payload
      ensures Mem() == old(Mem()) || Mem()[Addr(slot) + OFF_COMMITTED] == UNCOMMITTED_MARKER
      ensures old(powered) && ReliableFrom(old(writes)) ==> powered && ok
    {
      var addr := Addr(slot);
      Update(addr + OFF_COMMITTED, UNCOMMITTED_MARKER);
      if cells[addr + OFF_COMMITTED] != UNCOMMITTED_MARKER {
        assert Mem() == old(Mem());
        return false;
      }
      UpdateBytes(addr, header);
      assert cells[addr + OFF_COMMITTED] == UNCOMMITTED_MARKER;
      ghost var withHeader := Mem();
      UpdateBytes(addr + HEADER_SIZE, payload);
      assert forall k :: addr <= k < addr + HEADER_SIZE ==> Mem()[k] == withHeader[k];
      assert Mem()[addr..addr + HEADER_SIZE] == withHeader[addr..addr + HEADER_SIZE];
      assert cells[addr + OFF_COMMITTED] == UNCOMMITTED_MARKER;
      ok := VerifyBytes(addr, header);
      if ok {
        ok := VerifyBytes(addr + HEADER_SIZE, payload);
      }
      SlotParts(Mem(), slot);
    }

    /** ... then publish it by setting the commit marker. */
    method WriteRecord(slot: Slot, header: seq<u8>, payload: seq<u8>) returns (ok: bool)
      requires Valid()
      requires |header| == HEADER_SIZE && header[OFF_COMMITTED] == UNCOMMITTED_MARKER && |payload| == PAYLOAD_SIZE
      modifies this`writes, this`powered, cells
      ensures Valid() && writes >= old(writes) && AgreesOutside(old(Mem()), Mem(), slot)
      ensures ok ==> SlotBytes(Mem(), slot)[..HEADER_SIZE] == header[OFF_COMMITTED := COMMITTED_MARKER]
      ensures ok ==> SlotBytes(Mem(), slot)[HEADER_SIZE..RECORD_SIZE] == payload
      ensures ok || Mem() == old(Mem()) || Mem()[Addr(slot) + OFF_COMMITTED] != COMMITTED_MARKER
      ensures old(powered) && ReliableFrom(old(writes)) ==> powered && ok
    {
      ok := StageRecord(slot, header, payload);
      if !ok {
        return;
      }
      var marker := Addr(slot) + OFF_COMMITTED;
      ghost var staged := Mem();
      Update(marker, COMMITTED_MARKER);
      assert Mem() == staged[marker := cells[marker]];
      MarkerSet(staged, Mem(), slot, cells[marker]);
      ok := cells[marker] == COMMITTED_MARKER;
    }

    /** Atomic replacement. Whatever the faults, including a loss of power at any cell write,
        the journal afterwards loads the new configuration if the record was published and,
        as long as the slots were ordered, exactly what it loaded before otherwise. */
    method SaveConfig(cfg: Config) returns (ok: bool)
      requires Valid()
      modifies this`writes, this`powered, this`currentSeq, cells
      ensures Valid() && writes >= old(writes)
      ensures ok ==> Load(Mem()) == Loaded(SaveSlot(old(Mem())), cfg, NextSeq(old(Mem()), old(currentSeq)))
      ensures !ok && old(Ordered(Mem())) ==> Load(Mem()) == old(Load(Mem()))
      ensures (ok || old(Ordered(Mem())) ==> Ordered(Mem())) && (ok || old(Adjacent(Mem())) ==> Adjacent(Mem()))
      ensures AgreesOutside(old(Mem()), Mem(), SaveSlot(old(Mem())))
      ensures ok ==> ValidateConfig(cfg) && ReadAt(Mem(), SaveSlot(old(Mem()))).Record?
      ensures !ok ==> Mem() == old(Mem()) || ReadAt(Mem(), SaveSlot(old(Mem()))).Rejected?
      ensures currentSeq == if ok then NextSeq(old(Mem()), old(currentSeq)) else old(currentSeq)
      ensures old(powered) && ReliableFrom(old(writes)) ==> powered && (ok <==> ValidateConfig(cfg))
    {
      hide ReadRecord, EncodePayload, Header, ValidateConfig, Crc16.Checksum, SaveSlot, NextSeq, Load, Ordered,
           Adjacent;
      var payload := EncodePayload(cfg);
      if !ValidateConfig(cfg) {
        return false;
      }
      ghost var m := Mem();
      var slot := SaveSlot(Mem());
      var nextSeq := NextSeq(Mem(), currentSeq);
      var crc := Crc16.ComputeCrc16(payload);
      ok := WriteRecord(slot, Header(nextSeq, crc), payload);
      if ok {
        PublishedRecordReadsBack(SlotBytes(Mem(), slot), cfg, nextSeq);
        PublishedLoadsTheNew(m, Mem(), currentSeq, cfg);
        currentSeq := nextSeq;
      } else {
        if Mem() != m {
          ClearMarkerRejects(Mem(), slot);
        }
        if Ordered(m) {
          UnpublishedLoadsTheSame(m, Mem());
        } else {
          AdjacentMemoryIsOrdered(m);
        }
      }
    }

    method LoadConfig() returns (out: Option<Config>)
      requires Valid()
      modifies this`currentSeq, this`loadDiag
      ensures out == match Load(Mem()) case Nothing => None case Loaded(_, cfg, _) => Some(cfg)
      ensures currentSeq == match Load(Mem()) case Nothing => 0 case Loaded(_, _, seqNo) => seqNo
      ensures loadDiag == Diagnosis(Mem())
    {
      var a, b := ReadAt(Mem(), A), ReadAt(Mem(), B);
      loadDiag := LoadDiag('D', Code(a), Code(b), 0, false);
      if a.Record? && !b.Record? {
        currentSeq := a.seqNo;
        loadDiag := loadDiag.(source := 'A', sequence := a.seqNo, hasSequence := true);
        return Some(a.cfg);
      }
      if !a.Record? && b.Record? {
        currentSeq := b.seqNo;
        loadDiag := loadDiag.(source := 'B', sequence := b.seqNo, hasSequence := true);
        return Some(b.cfg);
      }
      if a.Record? && b.Record? {
        if IsSeqNewer(b.seqNo, a.seqNo) {
          out := Some(b.cfg);
          currentSeq := b.seqNo;
          loadDiag := loadDiag.(source := 'B', sequence := b.seqNo);
        } else {
          out := Some(a.cfg);
          currentSeq := a.seqNo;
          loadDiag := loadDiag.(source := 'A', sequence := a.seqNo);
        }
        loadDiag := loadDiag.(hasSequence := true);
        return;
      }
      currentSeq := 0;
      return None;
    }

    /** Restores redundancy without ever changing the configuration that loads. */
    method RepairEeprom() returns (ok: bool)
      requires Valid()
      modifies this`writes, this`powered, this`currentSeq, this`loadDiag, cells
      ensures Valid() && writes >= old(writes) && (old(Ordered(Mem())) ==> Ordered(Mem()))
      ensures old(Adjacent(Mem())) ==> Adjacent(Mem())
      ensures Load(Mem()).Loaded? == old(Load(Mem())).Loaded?
      ensures Load(Mem()).Loaded? ==> Load(Mem()).cfg == old(Load(Mem())).cfg
      ensures ok ==> ReadAt(Mem(), A).Record? && ReadAt(Mem(), B).Record?
      ensures old(ReadAt(Mem(), A).Record? == ReadAt(Mem(), B).Record?) ==> Mem() == old(Mem())
      ensures old(powered) && ReliableFrom(old(writes)) ==> powered && (ok <==> old(Load(Mem())).Loaded?)
    {
      hide ReadAt, Ordered, Adjacent, NextSeq;
      var saved := LoadConfig();
      if saved.None? {
        return false;
      }
      CodeOkIsRecord(Mem(), A);
      CodeOkIsRecord(Mem(), B);
      LoadedIsValid(Mem());
      if loadDiag.slotA == Ok && loadDiag.slotB == Ok {
        return true;
      }
      ghost var m0 := Mem();
      OneCopyIsOrdered(m0);
      ok := SaveConfig(saved.value);
      OtherSlotUntouched(m0, Mem(), SaveSlot(m0));
    }
  }

  lemma LoadedIsValid(m: Memory)
    ensures Load(m).Loaded? ==> ValidateConfig(Load(m).cfg)
  {
    hide Crc16.Checksum, DecodePayload, ValidateConfig;
  }

  lemma CodeOkIsRecord(m: Memory, s: Slot)
    ensures Code(ReadAt(m, s)) == Ok <==> ReadAt(m, s).Record?
  {
  }
}
