/** The persisted settings record (EEPROMConfig.cpp, Config.h): payload coding, the
    semantic check, and what a slot's bytes mean when read back. */
module EepromRecord {
  import opened Words
  import Crc16

  /** TunableConfig without its `seq` (kept beside it) and its unused `crc16`. */
  datatype Config = Config(
    ppsFastShift: u8,
    ppsSlowShift: u8,
    ppsBlendLoPpm: u16,
    ppsBlendHiPpm: u16,
    ppsLockRppm: u16,
    ppsLockMadTicks: u16,
    ppsUnlockRppm: u16,
    ppsUnlockMadTicks: u16,
    ppsLockCount: u8,
    ppsUnlockCount: u8,
    ppsHoldoverMs: u16,
    ppsStaleMs: u16,
    ppsIsrStaleMs: u16,
    ppsConfigReemitDelayMs: u16,
    ppsAcquireMinMs: u16,
    ppsMetrologyGraceMs: u32)

  const SHIFT_MIN := 1
  const SHIFT_MAX := 15
  const LOCK_COUNT_MIN := 1
  const LOCK_COUNT_MAX := 60

  const DEFAULTS := Config(3, 8, 50, 150, 175, 600, 300, 900, 30, 5, 60000, 2200, 2200, 2000, 60000, 120000)

  predicate ValidateConfig(c: Config) {
    && SHIFT_MIN <= c.ppsFastShift <= SHIFT_MAX
    && SHIFT_MIN <= c.ppsSlowShift <= SHIFT_MAX
    && c.ppsFastShift <= c.ppsSlowShift
    && c.ppsBlendLoPpm < c.ppsBlendHiPpm
    && c.ppsBlendHiPpm <= 20000 && c.ppsBlendLoPpm <= 20000
    && c.ppsLockRppm <= 20000 && c.ppsUnlockRppm <= 20000
    && c.ppsLockRppm <= c.ppsUnlockRppm
    && c.ppsLockMadTicks <= 20000 && c.ppsUnlockMadTicks <= 20000
    && c.ppsLockMadTicks <= c.ppsUnlockMadTicks
    && LOCK_COUNT_MIN <= c.ppsLockCount <= LOCK_COUNT_MAX
    && 1 <= c.ppsUnlockCount <= LOCK_COUNT_MAX
    && c.ppsHoldoverMs != 0
    && 0 < c.ppsStaleMs <= 30000
    && 0 < c.ppsIsrStaleMs <= 30000
    && c.ppsConfigReemitDelayMs != 0
    && c.ppsAcquireMinMs != 0
    && 0 < c.ppsMetrologyGraceMs <= 86400000
  }

  // ---- little-endian fields ----

  function Lo(v: u16): u8 { v % 0x100 }

  function Hi(v: u16): u8 { v / 0x100 }

  function U16(lo: u8, hi: u8): u16 { lo + 0x100 * hi }

  function U32(b0: u8, b1: u8, b2: u8, b3: u8): u32 {
    b0 + 0x100 * b1 + 0x1_0000 * b2 + 0x100_0000 * b3
  }

  const HEADER_SIZE := 16
  const PAYLOAD_SIZE := 30
  const RECORD_SIZE := 46

  function EncodePayload(c: Config): (p: seq<u8>)
    ensures |p| == PAYLOAD_SIZE
  {
    [c.ppsFastShift, c.ppsSlowShift,
     Lo(c.ppsBlendLoPpm), Hi(c.ppsBlendLoPpm),
     Lo(c.ppsBlendHiPpm), Hi(c.ppsBlendHiPpm),
     Lo(c.ppsLockRppm), Hi(c.ppsLockRppm),
     Lo(c.ppsLockMadTicks), Hi(c.ppsLockMadTicks),
     Lo(c.ppsUnlockRppm), Hi(c.ppsUnlockRppm),
     Lo(c.ppsUnlockMadTicks), Hi(c.ppsUnlockMadTicks),
     c.ppsLockCount, c.ppsUnlockCount,
     Lo(c.ppsHoldoverMs), Hi(c.ppsHoldoverMs),
     Lo(c.ppsStaleMs), Hi(c.ppsStaleMs),
     Lo(c.ppsIsrStaleMs), Hi(c.ppsIsrStaleMs),
     Lo(c.ppsConfigReemitDelayMs), Hi(c.ppsConfigReemitDelayMs),
     Lo(c.ppsAcquireMinMs), Hi(c.ppsAcquireMinMs),
     Lo(c.ppsMetrologyGraceMs % 0x1_0000), Hi(c.ppsMetrologyGraceMs % 0x1_0000),
     Lo(c.ppsMetrologyGraceMs / 0x1_0000), Hi(c.ppsMetrologyGraceMs / 0x1_0000)]
  }

  function DecodePayload(p: seq<u8>): Config
    requires |p| == PAYLOAD_SIZE
  {
    Config(p[0], p[1], U16(p[2], p[3]), U16(p[4], p[5]), U16(p[6], p[7]), U16(p[8], p[9]),
           U16(p[10], p[11]), U16(p[12], p[13]), p[14], p[15], U16(p[16], p[17]), U16(p[18], p[19]),
           U16(p[20], p[21]), U16(p[22], p[23]), U16(p[24], p[25]), U32(p[26], p[27], p[28], p[29]))
  }

  lemma DecodeEncode(c: Config)
    ensures DecodePayload(EncodePayload(c)) == c
  {
  }

  lemma BytesOfU16(lo: u8, hi: u8)
    ensures Lo(U16(lo, hi)) == lo && Hi(U16(lo, hi)) == hi
  {
  }

  lemma BytesOfU32(b0: u8, b1: u8, b2: u8, b3: u8)
    ensures U32(b0, b1, b2, b3) % 0x1_0000 == U16(b0, b1)
    ensures U32(b0, b1, b2, b3) / 0x1_0000 == U16(b2, b3)
  {
  }

  /** The payload has no slack: every 30 bytes are the coding of one configuration. */
  lemma EncodeDecode(p: seq<u8>)
    requires |p| == PAYLOAD_SIZE
    ensures EncodePayload(DecodePayload(p)) == p
  {
    BytesOfU16(p[2], p[3]);
    BytesOfU16(p[4], p[5]);
    BytesOfU16(p[6], p[7]);
    BytesOfU16(p[8], p[9]);
    BytesOfU16(p[10], p[11]);
    BytesOfU16(p[12], p[13]);
    BytesOfU16(p[16], p[17]);
    BytesOfU16(p[18], p[19]);
    BytesOfU16(p[20], p[21]);
    BytesOfU16(p[22], p[23]);
    BytesOfU16(p[24], p[25]);
    BytesOfU32(p[26], p[27], p[28], p[29]);
    BytesOfU16(p[26], p[27]);
    BytesOfU16(p[28], p[29]);
    assert EncodePayload(DecodePayload(p)) ==
      [p[0], p[1], p[2], p[3], p[4], p[5], p[6], p[7], p[8], p[9], p[10], p[11], p[12], p[13], p[14],
       p[15], p[16], p[17], p[18], p[19], p[20], p[21], p[22], p[23], p[24], p[25], p[26], p[27], p[28], p[29]];
  }

  // ---- a slot: header, then payload ----

  const RECORD_MAGIC: u16 := 0x5045
  const LAYOUT_ID: u16 := 0x0101
  const CONFIG_VERSION: u8 := 6
  const COMMITTED_MARKER: u8 := 0xA5
  const UNCOMMITTED_MARKER: u8 := 0x00
  const OFF_COMMITTED := 12

  datatype SlotCode = Ok | Mag | Ver | Len | Lay | Crc | Sem | Ncm

  datatype Decoded = Record(cfg: Config, seqNo: u32) | Rejected(code: SlotCode)

  /** What readRecordAt makes of a slot's bytes. */
  function ReadRecord(slot: seq<u8>): Decoded
    requires |slot| >= RECORD_SIZE
  {
    var payload := slot[HEADER_SIZE..RECORD_SIZE];
    if U16(slot[0], slot[1]) != RECORD_MAGIC then Rejected(Mag)
    else if slot[2] != CONFIG_VERSION then Rejected(Ver)
    else if slot[3] != PAYLOAD_SIZE then Rejected(Len)
    else if U16(slot[4], slot[5]) != LAYOUT_ID then Rejected(Lay)
    else if slot[OFF_COMMITTED] != COMMITTED_MARKER then Rejected(Ncm)
    else if U16(slot[10], slot[11]) != Crc16.Checksum(payload) then Rejected(Crc)
    else if !ValidateConfig(DecodePayload(payload)) then Rejected(Sem)
    else Record(DecodePayload(payload), U32(slot[6], slot[7], slot[8], slot[9]))
  }

  /** The header saveConfig writes first, with the marker still clear. */
  function Header(seqNo: u32, crc: u16): (h: seq<u8>)
    ensures |h| == HEADER_SIZE && h[OFF_COMMITTED] == UNCOMMITTED_MARKER
  {
    [Lo(RECORD_MAGIC), Hi(RECORD_MAGIC), CONFIG_VERSION, PAYLOAD_SIZE, Lo(LAYOUT_ID), Hi(LAYOUT_ID),
     Lo(seqNo % 0x1_0000), Hi(seqNo % 0x1_0000), Lo(seqNo / 0x1_0000), Hi(seqNo / 0x1_0000),
     Lo(crc), Hi(crc), UNCOMMITTED_MARKER, 0, 0, 0]
  }

  /** A complete record, once its marker is set, reads back as what was saved. */
  lemma PublishedRecordReadsBack(slot: seq<u8>, cfg: Config, seqNo: u32)
    requires |slot| >= RECORD_SIZE && ValidateConfig(cfg)
    requires slot[..HEADER_SIZE] == Header(seqNo, Crc16.Checksum(EncodePayload(cfg)))[OFF_COMMITTED := COMMITTED_MARKER]
    requires slot[HEADER_SIZE..RECORD_SIZE] == EncodePayload(cfg)
    ensures ReadRecord(slot) == Record(cfg, seqNo)
  {
    DecodeEncode(cfg);
    var crc := Crc16.Checksum(EncodePayload(cfg));
    BytesOfWord(crc);
    BytesOfLong(seqNo);
    HeaderFields(slot, Header(seqNo, crc)[OFF_COMMITTED := COMMITTED_MARKER]);
  }

  lemma BytesOfWord(v: u16)
    ensures U16(Lo(v), Hi(v)) == v
  {
  }

  lemma BytesOfLong(v: u32)
    ensures U32(Lo(v % 0x1_0000), Hi(v % 0x1_0000), Lo(v / 0x1_0000), Hi(v / 0x1_0000)) == v
  {
    BytesOfWord(v % 0x1_0000);
    BytesOfWord(v / 0x1_0000);
  }

  lemma HeaderFields(slot: seq<u8>, h: seq<u8>)
    requires |slot| >= HEADER_SIZE && slot[..HEADER_SIZE] == h
    ensures slot[0] == h[0] && slot[1] == h[1] && slot[2] == h[2] && slot[3] == h[3]
    ensures slot[4] == h[4] && slot[5] == h[5] && slot[6] == h[6] && slot[7] == h[7]
    ensures slot[8] == h[8] && slot[9] == h[9] && slot[10] == h[10] && slot[11] == h[11] && slot[12] == h[12]
  {
  }

  /** Nothing else is accepted: a slot that reads back holds, byte for byte, the header that is
      written for its settings and number, reserved bytes aside, and their payload. */
  lemma AcceptedRecordWasPublished(slot: seq<u8>)
    requires |slot| >= RECORD_SIZE && ReadRecord(slot).Record?
    ensures var r := ReadRecord(slot);
      && ValidateConfig(r.cfg) && slot[HEADER_SIZE..RECORD_SIZE] == EncodePayload(r.cfg)
      && slot[..OFF_COMMITTED] == Header(r.seqNo, Crc16.Checksum(EncodePayload(r.cfg)))[..OFF_COMMITTED]
      && slot[OFF_COMMITTED] == COMMITTED_MARKER
  {
    hide Crc16.Checksum, ValidateConfig, DecodePayload, EncodePayload;
    EncodeDecode(slot[HEADER_SIZE..RECORD_SIZE]);
    BytesOfU16(slot[0], slot[1]);
    BytesOfU16(slot[4], slot[5]);
    BytesOfU32(slot[6], slot[7], slot[8], slot[9]);
    BytesOfU16(slot[6], slot[7]);
    BytesOfU16(slot[8], slot[9]);
    BytesOfU16(slot[10], slot[11]);
    hide U16, U32, Lo, Hi;
  }

  predicate Damaged(p: seq<u8>, q: seq<u8>, k: nat)
    requires |p| == |q|
  {
    || (p != q && k < |p| && forall i :: 0 <= i < |p| && i != k && i != k + 1 ==> p[i] == q[i])
    || (p != q && k < 8 * |p| && Crc16.DifferInBurst(p, q, k))
    || Crc16.BitErrors(p, q) % 2 == 1
  }

  /** A committed record whose payload is damaged within two adjacent bytes, within sixteen
      bits in a row, or in an odd number of bits anywhere, is rejected. */
  lemma DamagedPayloadRejected(slot: seq<u8>, bad: seq<u8>, k: nat)
    requires |slot| == |bad| >= RECORD_SIZE && ReadRecord(slot).Record?
    requires bad[..HEADER_SIZE] == slot[..HEADER_SIZE]
    requires Damaged(slot[HEADER_SIZE..RECORD_SIZE], bad[HEADER_SIZE..RECORD_SIZE], k)
    ensures ReadRecord(bad) == Rejected(Crc)
  {
    var p, q := slot[HEADER_SIZE..RECORD_SIZE], bad[HEADER_SIZE..RECORD_SIZE];
    if Crc16.BitErrors(p, q) % 2 == 1 {
      Crc16.OddBitErrorsDetected(p, q);
    } else if k < 8 * |p| && Crc16.DifferInBurst(p, q, k) {
      Crc16.BurstDetected(p, q, k);
    } else {
      Crc16.AdjacentBytesDetected(p, q, k);
    }
    HeaderFields(slot, slot[..HEADER_SIZE]);
    HeaderFields(bad, slot[..HEADER_SIZE]);
  }
}
