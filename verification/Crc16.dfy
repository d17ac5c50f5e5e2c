/** computeCRC16 (EEPROMConfig.cpp): CRC-16 with polynomial 0x1021 and initial value 0,
    and the corruptions it is certain to notice. The 16-bit register is its sixteen
    bits, most significant first; exclusive-or is bitwise inequality. */
module Crc16 {
  import opened Words

  type Bits = seq<bool>
  type Register = r: Bits | |r| == 16 witness Zeros(16)

  function Zeros(n: nat): (s: Bits)
    ensures |s| == n
  {
    seq(n, i => false)
  }

  /** 0x1021 */
  function Polynomial(): Register {
    seq(16, i => i == 3 || i == 10 || i == 15)
  }

  function Xor(a: Bits, b: Bits): (c: Bits)
    requires |a| == |b|
    ensures |c| == |a|
  {
    seq(|a|, i requires 0 <= i < |a| => a[i] != b[i])
  }

  /** The low `n` bits of a number. */
  function BitsOf(v: nat, n: nat): (s: Bits)
    ensures |s| == n
  {
    if n == 0 then [] else BitsOf(v / 2, n - 1) + [v % 2 == 1]
  }

  function ByteBits(b: u8): (s: Bits)
    ensures |s| == 8
  {
    BitsOf(b, 8)
  }

  /** The number the bits denote. */
  function Value(s: Bits): nat {
    if |s| == 0 then 0 else 2 * Value(s[..|s| - 1]) + (if s[|s| - 1] then 1 else 0)
  }

  /** `byte << 8` */
  function HighByte(b: u8): Register {
    ByteBits(b) + Zeros(8)
  }

  /** `crc << 1` */
  function ShiftLeft(r: Register): Register {
    r[1..] + Zeros(1)
  }

  function ShiftOne(r: Register): Register {
    if r[0] then Xor(ShiftLeft(r), Polynomial()) else ShiftLeft(r)
  }

  function Shift(r: Register, n: nat): Register
    decreases n
  {
    if n == 0 then r else Shift(ShiftOne(r), n - 1)
  }

  function AddByte(r: Register, b: u8): Register {
    Shift(Xor(r, HighByte(b)), 8)
  }

  /** The register after feeding `data` into a register holding `r`. */
  function Fold(r: Register, data: seq<u8>): Register
    decreases |data|
  {
    if |data| == 0 then r else Fold(AddByte(r, data[0]), data[1..])
  }

  function Checksum(data: seq<u8>): (crc: u16) {
    ValueBound(Fold(Zeros(16), data));
    Value(Fold(Zeros(16), data))
  }

  method UpdateCrc(crc: Register, b: u8) returns (r: Register)
    ensures r == AddByte(crc, b)
  {
    r := Xor(crc, HighByte(b));
    var i := 0;
    while i < 8
      invariant 0 <= i <= 8
      invariant Shift(r, 8 - i) == AddByte(crc, b)
    {
      r := if r[0] then Xor(ShiftLeft(r), Polynomial()) else ShiftLeft(r);
      i := i + 1;
    }
  }

  method ComputeCrc16(data: seq<u8>) returns (crc: u16)
    ensures crc == Checksum(data)
  {
    var r: Register := Zeros(16);
    var k := 0;
    while k < |data|
      invariant 0 <= k <= |data|
      invariant Fold(r, data[k..]) == Fold(Zeros(16), data)
    {
      r := UpdateCrc(r, data[k]);
      assert data[k..][1..] == data[k + 1..];
      k := k + 1;
    }
    assert data[k..] == [];
    ValueBound(r);
    crc := Value(r);
  }

  // ---- bits and numbers ----

  lemma {:induction false} ValueBelow(s: Bits)
    ensures Value(s) < Pow2(|s|)
  {
    if |s| > 0 {
      ValueBelow(s[..|s| - 1]);
    }
  }

  lemma ValueBound(r: Register)
    ensures Value(r) < 0x1_0000
  {
    ValueBelow(r);
    assert Pow2(4) == 16 && Pow2(8) == 256 && Pow2(12) == 4096 && Pow2(16) == 65536 by {
      assert Pow2(2) == 4;
      assert Pow2(6) == 64;
      assert Pow2(10) == 1024;
      assert Pow2(14) == 16384;
    }
  }

  lemma {:induction false} ValueOfBits(v: nat, n: nat)
    requires v < Pow2(n)
    ensures Value(BitsOf(v, n)) == v
  {
    if n > 0 {
      ValueOfBits(v / 2, n - 1);
      assert BitsOf(v, n)[..n - 1] == BitsOf(v / 2, n - 1);
    }
  }

  lemma {:induction false} ValueInjective(s: Bits, t: Bits)
    requires |s| == |t| && Value(s) == Value(t)
    ensures s == t
  {
    if |s| > 0 {
      var n := |s| - 1;
      assert s[n] == t[n];
      ValueInjective(s[..n], t[..n]);
      assert s == s[..n] + [s[n]] && t == t[..n] + [t[n]];
    }
  }

  lemma ByteBitsInjective(a: u8, b: u8)
    requires ByteBits(a) == ByteBits(b)
    ensures a == b
  {
    assert Pow2(8) == 256 by {
      assert Pow2(4) == 16;
    }
    ValueOfBits(a, 8);
    ValueOfBits(b, 8);
  }

  // ---- each byte step is a bijection of the register ----

  lemma ShiftOneInjective(r: Register, s: Register)
    requires ShiftOne(r) == ShiftOne(s)
    ensures r == s
  {
    assert ShiftOne(r)[15] == r[0] && ShiftOne(s)[15] == s[0];
    forall i | 1 <= i < 16 ensures r[i] == s[i] {
      assert ShiftOne(r)[i - 1] == (r[i] != (r[0] && Polynomial()[i - 1]));
      assert ShiftOne(s)[i - 1] == (s[i] != (s[0] && Polynomial()[i - 1]));
    }
  }

  lemma {:induction false} ShiftInjective(r: Register, s: Register, n: nat)
    requires Shift(r, n) == Shift(s, n)
    ensures r == s
    decreases n
  {
    if n > 0 {
      ShiftInjective(ShiftOne(r), ShiftOne(s), n - 1);
      ShiftOneInjective(r, s);
    }
  }

  lemma XorCancels(r: Bits, s: Bits, x: Bits)
    requires |r| == |s| == |x| && Xor(r, x) == Xor(s, x)
    ensures r == s
  {
    forall i | 0 <= i < |r| ensures r[i] == s[i] {
      assert Xor(r, x)[i] == Xor(s, x)[i];
    }
  }

  lemma {:induction false} FoldInjective(r: Register, s: Register, data: seq<u8>)
    requires Fold(r, data) == Fold(s, data)
    ensures r == s
    decreases |data|
  {
    if |data| > 0 {
      var x := HighByte(data[0]);
      FoldInjective(AddByte(r, data[0]), AddByte(s, data[0]), data[1..]);
      ShiftInjective(Xor(r, x), Xor(s, x), 8);
      XorCancels(r, s, x);
    }
  }

  lemma {:induction false} FoldAppend(r: Register, a: seq<u8>, b: seq<u8>)
    ensures Fold(r, a + b) == Fold(Fold(r, a), b)
    decreases |a|
  {
    if |a| == 0 {
      assert a + b == b;
    } else {
      assert (a + b)[1..] == a[1..] + b;
      FoldAppend(AddByte(r, a[0]), a[1..], b);
    }
  }

  lemma ShiftOneIsLinear(r: Register, low: Register)
    requires !low[0]
    ensures ShiftOne(Xor(r, low)) == Xor(ShiftOne(r), ShiftLeft(low))
  {
    var x := Xor(r, low);
    assert x[0] == r[0];
    forall i | 0 <= i < 16 ensures ShiftOne(x)[i] == (ShiftOne(r)[i] != ShiftLeft(low)[i]) {
      assert ShiftLeft(x)[i] == (ShiftLeft(r)[i] != ShiftLeft(low)[i]) by {
        if i < 15 {
          assert x[i + 1] == (r[i + 1] != low[i + 1]);
        }
      }
    }
  }

  lemma ShiftedTail(low: Register, n: nat)
    requires 0 < n <= 16
    ensures ShiftLeft(low)[n - 1..] + Zeros(n - 1) == low[n..] + Zeros(n)
  {
  }

  /** Bits too low to reach the feedback tap are only moved up. */
  lemma {:induction false} ShiftIsLinear(r: Register, low: Register, n: nat)
    requires n <= 16 && forall i :: 0 <= i < n ==> !low[i]
    ensures Shift(Xor(r, low), n) == Xor(Shift(r, n), low[n..] + Zeros(n))
    decreases n
  {
    if n == 0 {
      assert low[0..] + Zeros(0) == low;
    } else {
      var up := ShiftLeft(low);
      ShiftOneIsLinear(r, low);
      ShiftIsLinear(ShiftOne(r), up, n - 1);
      ShiftedTail(low, n);
    }
  }

  /** Two bytes in a row are sixteen bits added once and shifted sixteen times. */
  lemma AddTwoBytes(r: Register, a: u8, b: u8)
    ensures AddByte(AddByte(r, a), b) == Shift(Shift(Xor(r, ByteBits(a) + ByteBits(b)), 8), 8)
  {
    var hi, lo := HighByte(a), Zeros(8) + ByteBits(b);
    ShiftIsLinear(Xor(r, hi), lo, 8);
    assert lo[8..] + Zeros(8) == HighByte(b);
    assert Xor(Xor(r, hi), lo) == Xor(r, ByteBits(a) + ByteBits(b));
  }

  /** ... and so are an injection of those bits into the register. */
  lemma TwoBytesInjective(r: Register, a: u8, b: u8, a': u8, b': u8)
    requires AddByte(AddByte(r, a), b) == AddByte(AddByte(r, a'), b')
    ensures a == a' && b == b'
  {
    AddTwoBytes(r, a, b);
    AddTwoBytes(r, a', b');
    var x, x' := ByteBits(a) + ByteBits(b), ByteBits(a') + ByteBits(b');
    ShiftInjective(Shift(Xor(r, x), 8), Shift(Xor(r, x'), 8), 8);
    ShiftInjective(Xor(r, x), Xor(r, x'), 8);
    XorCommutes(r, x);
    XorCommutes(r, x');
    XorCancels(x, x', r);
    assert ByteBits(a) == x[..8] && ByteBits(b) == x[8..];
    assert ByteBits(a') == x'[..8] && ByteBits(b') == x'[8..];
    ByteBitsInjective(a, a');
    ByteBitsInjective(b, b');
  }

  lemma XorCommutes(a: Bits, b: Bits)
    requires |a| == |b|
    ensures Xor(a, b) == Xor(b, a)
  {
  }

  lemma FoldTwo(r: Register, d: seq<u8>, k: nat)
    requires k + 1 < |d|
    ensures Fold(r, d[k..]) == Fold(AddByte(AddByte(r, d[k]), d[k + 1]), d[k + 2..])
  {
    assert d[k..][1..] == d[k + 1..] && d[k + 1..][1..] == d[k + 2..];
  }

  lemma FoldAround(d: seq<u8>, k: nat)
    requires k + 1 < |d|
    ensures Fold(Zeros(16), d) == Fold(AddByte(AddByte(Fold(Zeros(16), d[..k]), d[k]), d[k + 1]), d[k + 2..])
  {
    assert d == d[..k] + d[k..];
    FoldAppend(Zeros(16), d[..k], d[k..]);
    FoldTwo(Fold(Zeros(16), d[..k]), d, k);
  }

  lemma AdjacentPair(d: seq<u8>, e: seq<u8>, k: nat)
    requires |d| == |e| && k + 1 < |d|
    requires d[..k] == e[..k] && d[k + 2..] == e[k + 2..]
    requires Fold(Zeros(16), d) == Fold(Zeros(16), e)
    ensures d[k] == e[k] && d[k + 1] == e[k + 1]
  {
    FoldAround(d, k);
    FoldAround(e, k);
    var r := Fold(Zeros(16), d[..k]);
    FoldInjective(AddByte(AddByte(r, d[k]), d[k + 1]), AddByte(AddByte(r, e[k]), e[k + 1]), d[k + 2..]);
    TwoBytesInjective(r, d[k], d[k + 1], e[k], e[k + 1]);
  }

  lemma EqualAround(d: seq<u8>, e: seq<u8>, k: nat)
    requires |d| == |e| && k + 1 < |d|
    requires d[..k] == e[..k] && d[k + 2..] == e[k + 2..] && d[k] == e[k] && d[k + 1] == e[k + 1]
    ensures d == e
  {
    assert d == d[..k] + [d[k], d[k + 1]] + d[k + 2..];
    assert e == e[..k] + [e[k], e[k + 1]] + e[k + 2..];
  }

  lemma ChecksumInjective(d: seq<u8>, e: seq<u8>)
    requires Checksum(d) == Checksum(e)
    ensures Fold(Zeros(16), d) == Fold(Zeros(16), e)
  {
    ValueInjective(Fold(Zeros(16), d), Fold(Zeros(16), e));
  }

  /** Every change confined to two adjacent bytes changes the checksum. */
  lemma AdjacentBytesDetected(d: seq<u8>, e: seq<u8>, k: nat)
    requires |d| == |e| && k < |d|
    requires forall i :: 0 <= i < |d| && i != k && i != k + 1 ==> d[i] == e[i]
    ensures Checksum(d) == Checksum(e) ==> d == e
  {
    if Checksum(d) == Checksum(e) {
      ChecksumInjective(d, e);
      // pad with one byte so that the changed pair always exists
      var d0, e0 := d + [0], e + [0];
      FoldAppend(Zeros(16), d, [0]);
      FoldAppend(Zeros(16), e, [0]);
      assert d0[..k] == e0[..k] && d0[k + 2..] == e0[k + 2..];
      AdjacentPair(d0, e0, k);
      EqualAround(d0, e0, k);
      assert d == d0[..|d|] && e == e0[..|d|];
    }
  }

  // ---- bursts ----

  /** One bit fed into the top of the register. */
  function FeedBit(r: Register, bit: bool): Register {
    ShiftOne(Xor(r, [bit] + Zeros(15)))
  }

  function Feed(r: Register, bits: Bits): Register
    decreases |bits|
  {
    if |bits| == 0 then r else Feed(FeedBit(r, bits[0]), bits[1..])
  }

  /** The payload as the bits it is fed in, most significant first. */
  function AllBits(data: seq<u8>): (bits: Bits)
    ensures |bits| == 8 * |data|
  {
    if |data| == 0 then [] else ByteBits(data[0]) + AllBits(data[1..])
  }

  lemma PeelBit(r: Register, s: Bits)
    requires 0 < |s| <= 16
    ensures ShiftOne(Xor(r, s + Zeros(16 - |s|))) == Xor(FeedBit(r, s[0]), s[1..] + Zeros(16 - (|s| - 1)))
  {
    var top, rest: Register := [s[0]] + Zeros(15), [false] + s[1..] + Zeros(16 - |s|);
    assert Xor(r, s + Zeros(16 - |s|)) == Xor(Xor(r, top), rest);
    ShiftOneIsLinear(Xor(r, top), rest);
    assert ShiftLeft(rest) == s[1..] + Zeros(16 - (|s| - 1));
  }

  /** Up to sixteen bits fed one by one are added at once and shifted as often. */
  lemma {:induction false} FeedAtOnce(r: Register, s: Bits)
    requires |s| <= 16
    ensures Feed(r, s) == Shift(Xor(r, s + Zeros(16 - |s|)), |s|)
    decreases |s|
  {
    hide ShiftOne, FeedBit;
    if |s| == 0 {
      assert Xor(r, s + Zeros(16)) == r;
    } else {
      PeelBit(r, s);
      FeedAtOnce(FeedBit(r, s[0]), s[1..]);
    }
  }

  lemma {:induction false} FeedAppend(r: Register, a: Bits, b: Bits)
    ensures Feed(r, a + b) == Feed(Feed(r, a), b)
    decreases |a|
  {
    hide FeedBit;
    if |a| == 0 {
      assert a + b == b;
    } else {
      assert (a + b)[1..] == a[1..] + b;
      FeedAppend(FeedBit(r, a[0]), a[1..], b);
    }
  }

  /** Feeding bytes is feeding their bits. */
  lemma {:induction false} FoldIsFeed(r: Register, data: seq<u8>)
    ensures Fold(r, data) == Feed(r, AllBits(data))
    decreases |data|
  {
    hide Feed, AddByte, ByteBits;
    if |data| == 0 {
      FeedNothing(r);
    } else {
      FeedByte(r, data[0]);
      FeedAppend(r, ByteBits(data[0]), AllBits(data[1..]));
      FoldIsFeed(AddByte(r, data[0]), data[1..]);
    }
  }

  lemma FeedNothing(r: Register)
    ensures Feed(r, []) == r
  {
  }

  lemma FeedByte(r: Register, b: u8)
    ensures Feed(r, ByteBits(b)) == AddByte(r, b)
  {
    hide Feed, Shift, ByteBits;
    FeedAtOnce(r, ByteBits(b));
  }

  lemma {:induction false} FeedInjective(r: Register, s: Register, bits: Bits)
    requires Feed(r, bits) == Feed(s, bits)
    ensures r == s
    decreases |bits|
  {
    hide ShiftOne;
    if |bits| > 0 {
      var x := [bits[0]] + Zeros(15);
      FeedInjective(FeedBit(r, bits[0]), FeedBit(s, bits[0]), bits[1..]);
      ShiftOneInjective(Xor(r, x), Xor(s, x));
      XorCancels(r, s, x);
    }
  }

  /** Sixteen bits fed into a register can be recovered from it. */
  lemma SixteenBitsInjective(r: Register, x: Bits, y: Bits)
    requires |x| == |y| == 16 && Feed(r, x) == Feed(r, y)
    ensures x == y
  {
    hide Feed, Shift;
    FeedAtOnce(r, x);
    FeedAtOnce(r, y);
    assert x + Zeros(0) == x && y + Zeros(0) == y;
    ShiftInjective(Xor(r, x), Xor(r, y), 16);
    XorCommutes(r, x);
    XorCommutes(r, y);
    XorCancels(x, y, r);
  }

  lemma FeedInThree(x: Bits, p: nat)
    requires p + 16 <= |x|
    ensures Feed(Zeros(16), x) == Feed(Feed(Feed(Zeros(16), x[..p]), x[p..p + 16]), x[p + 16..])
  {
    hide Feed;
    var rest := x[p..];
    assert x[..p] + rest == x;
    assert rest[..16] == x[p..p + 16] && rest[16..] == x[p + 16..] && rest[..16] + rest[16..] == rest;
    FeedAppend(Zeros(16), x[..p], rest);
    FeedAppend(Feed(Zeros(16), x[..p]), rest[..16], rest[16..]);
  }

  lemma SameInThree(x: Bits, y: Bits, p: nat)
    requires |x| == |y| && p + 16 <= |x|
    requires x[..p] == y[..p] && x[p..p + 16] == y[p..p + 16] && x[p + 16..] == y[p + 16..]
    ensures x == y
  {
    assert x == x[..p] + x[p..p + 16] + x[p + 16..];
    assert y == y[..p] + y[p..p + 16] + y[p + 16..];
  }

  lemma BurstInBits(x: Bits, y: Bits, p: nat)
    requires |x| == |y| && p + 16 <= |x| && x[..p] == y[..p] && x[p + 16..] == y[p + 16..]
    requires Feed(Zeros(16), x) == Feed(Zeros(16), y)
    ensures x == y
  {
    hide Feed;
    var r := Feed(Zeros(16), x[..p]);
    FeedInThree(x, p);
    FeedInThree(y, p);
    FeedInjective(Feed(r, x[p..p + 16]), Feed(r, y[p..p + 16]), x[p + 16..]);
    SixteenBitsInjective(r, x[p..p + 16], y[p..p + 16]);
    SameInThree(x, y, p);
  }

  /** The payloads agree in every bit but for sixteen in a row, from bit p on. */
  predicate DifferInBurst(d: seq<u8>, e: seq<u8>, p: nat)
    requires |d| == |e|
  {
    forall i :: 0 <= i < 8 * |d| && !(p <= i < p + 16) ==> AllBits(d)[i] == AllBits(e)[i]
  }

  lemma {:induction false} AllBitsInjective(d: seq<u8>, e: seq<u8>)
    requires |d| == |e| && AllBits(d) == AllBits(e)
    ensures d == e
    decreases |d|
  {
    hide ByteBits;
    if |d| > 0 {
      assert ByteBits(d[0]) == AllBits(d)[..8] && ByteBits(e[0]) == AllBits(e)[..8];
      assert AllBits(d[1..]) == AllBits(d)[8..] && AllBits(e[1..]) == AllBits(e)[8..];
      ByteBitsInjective(d[0], e[0]);
      AllBitsInjective(d[1..], e[1..]);
      assert d == [d[0]] + d[1..] && e == [e[0]] + e[1..];
    }
  }

  /** Every burst of at most sixteen bits changes the checksum, wherever it starts. */
  lemma BurstDetected(d: seq<u8>, e: seq<u8>, p: nat)
    requires |d| == |e| && p < 8 * |d| && DifferInBurst(d, e, p)
    ensures Checksum(d) == Checksum(e) ==> d == e
  {
    hide Feed, AllBits, Fold;
    if Checksum(d) == Checksum(e) {
      ChecksumInjective(d, e);
      FoldIsFeed(Zeros(16), d);
      FoldIsFeed(Zeros(16), e);
      // pad so that the sixteen bits always exist
      var x, y := AllBits(d) + Zeros(16), AllBits(e) + Zeros(16);
      FeedAppend(Zeros(16), AllBits(d), Zeros(16));
      FeedAppend(Zeros(16), AllBits(e), Zeros(16));
      assert x[..p] == y[..p] && x[p + 16..] == y[p + 16..];
      BurstInBits(x, y, p);
      assert AllBits(d) == x[..8 * |d|] && AllBits(e) == y[..8 * |d|];
      AllBitsInjective(d, e);
    }
  }

  // ---- the polynomial has the factor x + 1 ----

  function Odd(s: Bits): bool {
    if |s| == 0 then false else s[|s| - 1] != Odd(s[..|s| - 1])
  }

  function CountOnes(s: Bits): nat {
    if |s| == 0 then 0 else (if s[|s| - 1] then 1 else 0) + CountOnes(s[..|s| - 1])
  }

  /** The number of bit positions in which two equally long payloads differ. */
  function BitErrors(d: seq<u8>, e: seq<u8>): nat
    requires |d| == |e|
  {
    if |d| == 0 then 0 else ErrorsIn(d[0], e[0]) + BitErrors(d[1..], e[1..])
  }

  function ErrorsIn(x: u8, y: u8): nat {
    CountOnes(Xor(ByteBits(x), ByteBits(y)))
  }

  lemma {:induction false} OddCounts(s: Bits)
    ensures Odd(s) <==> CountOnes(s) % 2 == 1
  {
    if |s| > 0 {
      OddCounts(s[..|s| - 1]);
    }
  }

  lemma {:induction false} OddXor(s: Bits, t: Bits)
    requires |s| == |t|
    ensures Odd(Xor(s, t)) == (Odd(s) != Odd(t))
  {
    if |s| > 0 {
      var n := |s| - 1;
      assert Xor(s, t)[..n] == Xor(s[..n], t[..n]);
      OddXor(s[..n], t[..n]);
    }
  }

  lemma {:induction false} OddAppend(s: Bits, t: Bits)
    ensures Odd(s + t) == (Odd(s) != Odd(t))
  {
    if |t| == 0 {
      assert s + t == s;
    } else {
      assert (s + t)[..|s + t| - 1] == s + t[..|t| - 1];
      OddAppend(s, t[..|t| - 1]);
    }
  }

  lemma OddShiftOne(r: Register)
    ensures Odd(ShiftOne(r)) == Odd(r)
  {
    assert r == [r[0]] + r[1..];
    OddAppend([r[0]], r[1..]);
    OddAppend(r[1..], Zeros(1));
    OddZeros(1);
    OddXor(ShiftLeft(r), Polynomial());
    OddPolynomial();
  }

  lemma OddPolynomial()
    ensures Odd(Polynomial())
  {
    var p := Polynomial();
    var n := 0;
    while n < 16
      invariant 0 <= n <= 16
      invariant Odd(p[..n]) == (3 < n <= 10 || 15 < n)
    {
      assert p[..n + 1][..n] == p[..n];
      n := n + 1;
    }
    assert p[..16] == p;
  }

  lemma {:induction false} OddShift(r: Register, n: nat)
    ensures Odd(Shift(r, n)) == Odd(r)
    decreases n
  {
    if n > 0 {
      OddShift(ShiftOne(r), n - 1);
      OddShiftOne(r);
    }
  }

  lemma OddAddByte(r: Register, b: u8)
    ensures Odd(AddByte(r, b)) == (Odd(r) != Odd(ByteBits(b)))
  {
    var x := HighByte(b);
    OddShift(Xor(r, x), 8);
    OddXor(r, x);
    OddAppend(ByteBits(b), Zeros(8));
    OddZeros(8);
  }

  lemma {:induction false} OddZeros(n: nat)
    ensures !Odd(Zeros(n))
  {
    if n > 0 {
      assert Zeros(n)[..n - 1] == Zeros(n - 1);
      OddZeros(n - 1);
    }
  }

  lemma ParityStep(r: Register, s: Register, x: u8, y: u8)
    ensures (Odd(AddByte(r, x)) != Odd(AddByte(s, y))) == ((Odd(r) != Odd(s)) != (ErrorsIn(x, y) % 2 == 1))
  {
    OddAddByte(r, x);
    OddAddByte(s, y);
    OddXor(ByteBits(x), ByteBits(y));
    OddCounts(Xor(ByteBits(x), ByteBits(y)));
  }

  lemma ParityOfSum(m: nat, n: nat, total: nat)
    requires total == m + n
    ensures (total % 2 == 1) == ((m % 2 == 1) != (n % 2 == 1))
  {
  }

  /** The register's parity tracks the parity of everything fed into it. */
  lemma {:induction false} FoldParity(r: Register, s: Register, d: seq<u8>, e: seq<u8>)
    requires |d| == |e|
    ensures (Odd(Fold(r, d)) != Odd(Fold(s, e))) == ((Odd(r) != Odd(s)) != (BitErrors(d, e) % 2 == 1))
    decreases |d|
  {
    if |d| > 0 {
      FoldParity(AddByte(r, d[0]), AddByte(s, e[0]), d[1..], e[1..]);
      ParityStep(r, s, d[0], e[0]);
      ParityOfSum(ErrorsIn(d[0], e[0]), BitErrors(d[1..], e[1..]), BitErrors(d, e));
    }
  }

  /** Every corruption of an odd number of bits changes the checksum. */
  lemma OddBitErrorsDetected(d: seq<u8>, e: seq<u8>)
    requires |d| == |e| && BitErrors(d, e) % 2 == 1
    ensures Checksum(d) != Checksum(e)
  {
    FoldParity(Zeros(16), Zeros(16), d, e);
    if Checksum(d) == Checksum(e) {
      ValueInjective(Fold(Zeros(16), d), Fold(Zeros(16), e));
    }
  }

  // ---- the polynomial is 0x1021 ----

  /** The n-th bit alone. */
  function Lone(n: nat): Register {
    seq(16, i => i == n)
  }

  lemma LoneShifts(n: nat)
    requires n <= 15
    ensures ShiftOne(Lone(n)) == if n == 0 then Polynomial() else Lone(n - 1)
  {
    var r := ShiftOne(Lone(n));
    if n == 0 {
      assert forall i :: 0 <= i < 16 ==> r[i] == Polynomial()[i];
    } else {
      assert forall i :: 0 <= i < 16 ==> r[i] == Lone(n - 1)[i];
    }
  }

  lemma {:induction false} LoneGivesPolynomial(n: nat)
    requires n <= 15
    ensures Shift(Lone(n), n + 1) == Polynomial()
  {
    hide ShiftOne, Polynomial, Lone;
    LoneShifts(n);
    if n > 0 {
      LoneGivesPolynomial(n - 1);
    }
  }

  lemma PolynomialIs1021()
    ensures Value(Polynomial()) == 0x1021
  {
    var p := Polynomial();
    assert p[..4][..3] == Zeros(3) && p[..4][3];
    ValueOfZeros(3);
    assert Value(p[..4]) == 1;
    ShiftedBy(p, 4, 10);
    ShiftedBy(p, 11, 15);
    assert p[..11][..10] == p[..10] && p[..16][..15] == p[..15] && p[..16] == p;
  }

  lemma {:induction false} ValueOfZeros(n: nat)
    ensures Value(Zeros(n)) == 0
  {
    if n > 0 {
      assert Zeros(n)[..n - 1] == Zeros(n - 1);
      ValueOfZeros(n - 1);
    }
  }

  /** Clear bits double the value. */
  lemma {:induction false} ShiftedBy(s: Bits, lo: nat, hi: nat)
    requires lo <= hi <= |s| && forall i :: lo <= i < hi ==> !s[i]
    ensures Value(s[..hi]) == Pow2(hi - lo) * Value(s[..lo])
    decreases hi
  {
    if lo < hi {
      ShiftedBy(s, lo, hi - 1);
      assert s[..hi][..hi - 1] == s[..hi - 1];
    }
  }

  /** A known answer: the checksum of the single byte 1. */
  lemma ChecksumOfOne()
    ensures Checksum([1]) == 0x1021
  {
    assert [1][1..] == [] && [1][0] == 1;
    OneIsLone();
    LoneGivesPolynomial(7);
    PolynomialIs1021();
    hide Polynomial, ShiftOne, Shift, Lone, HighByte, Value;
    assert Fold(AddByte(Zeros(16), 1), []) == AddByte(Zeros(16), 1);
  }

  lemma OneIsLone()
    ensures Xor(Zeros(16), HighByte(1)) == Lone(7)
  {
    var b := ByteBits(1);
    BitsOfOne(8);
    assert forall i :: 0 <= i < 16 ==> HighByte(1)[i] == if i < 8 then b[i] else false;
    assert Xor(Zeros(16), HighByte(1)) == Lone(7);
  }

  lemma {:induction false} BitsOfNone(n: nat)
    ensures forall i :: 0 <= i < n ==> !BitsOf(0, n)[i]
  {
    if n > 0 {
      BitsOfNone(n - 1);
    }
  }

  lemma BitsOfOne(n: nat)
    requires n > 0
    ensures forall i :: 0 <= i < n ==> BitsOf(1, n)[i] == (i == n - 1)
  {
    BitsOfNone(n - 1);
  }
}
