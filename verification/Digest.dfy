// The integrity digest (src/kernel/common/lib/digest.c): CRC-32 as in section 8 of RFC 1952.

module Digest {
  type Byte = bv8
  type Word = bv32

  const POLYNOMIAL: Word := 0xedb8_8320
  const ONES: Word := 0xffff_ffff
  const RESIDUE: Word := 0x2144_df1c

  function Xor(a: Word, b: Word): Word { a ^ b }
  function Half(a: Word): Word { a >> 1 }
  predicate Odd(a: Word) { a & 1 == 1 }

  /** One step of the shift register (lines 37-40). */
  function Shift(r: Word): Word {
    if Odd(r) then Xor(Half(r), POLYNOMIAL) else Half(r)
  }

  function Shifts(r: Word, n: nat): Word
    decreases n
  {
    if n == 0 then r else Shifts(Shift(r), n - 1)
  }

  function Absorb(r: Word, buffer: seq<Byte>): Word
    decreases |buffer|
  {
    if buffer == [] then r else Absorb(Shifts(Xor(r, buffer[0] as Word), 8), buffer[1..])
  }

  function Crc(buffer: seq<Byte>): Word { Xor(Absorb(ONES, buffer), ONES) }

  /** _calculate_checksum. */
  method Crc32(buffer: seq<Byte>) returns (digest: Word)
    ensures digest == Crc(buffer)
  {
    hide Xor, Half, Odd;
    var rem, bp := ONES, 0;
    while bp < |buffer|
      invariant 0 <= bp <= |buffer|
      invariant Absorb(rem, buffer[bp..]) == Absorb(ONES, buffer)
    {
      rem := Xor(rem, buffer[bp] as Word);
      ghost var start := rem;
      for i := 0 to 8
        invariant Shifts(rem, 8 - i) == Shifts(start, 8)
      {
        if Odd(rem) {
          rem := Xor(Half(rem), POLYNOMIAL);
        } else {
          rem := Half(rem);
        }
      }
      assert buffer[bp..][1..] == buffer[bp + 1..];
      bp := bp + 1;
    }
    digest := Xor(rem, ONES);
  }

  /** _check_integrity. */
  method CheckIntegrity(buffer: seq<Byte>) returns (intact: bool)
    ensures intact <==> Crc(buffer) == RESIDUE
  {
    var digest := Crc32(buffer);
    intact := digest == RESIDUE;
  }

  // ----- the register is linear and injective -----

  lemma HalfXor(a: Word, b: Word)
    ensures Half(Xor(a, b)) == Xor(Half(a), Half(b))
  {
  }

  lemma OddXor(a: Word, b: Word)
    ensures Odd(Xor(a, b)) <==> Odd(a) != Odd(b)
  {
  }

  lemma XorSwap(a: Word, b: Word, c: Word)
    ensures Xor(Xor(a, c), b) == Xor(Xor(a, b), c)
    ensures Xor(a, Xor(b, c)) == Xor(Xor(a, b), c)
    ensures Xor(Xor(a, c), Xor(b, c)) == Xor(a, b)
  {
  }

  lemma XorZero(a: Word, b: Word)
    ensures Xor(a, 0) == a && Xor(a, a) == 0
    ensures Xor(a, b) == 0 ==> a == b
  {
  }

  lemma ShiftLinear(a: Word, b: Word)
    ensures Shift(Xor(a, b)) == Xor(Shift(a), Shift(b))
  {
    HalfXor(a, b);
    OddXor(a, b);
    XorSwap(Half(a), Half(b), POLYNOMIAL);
    hide Xor, Half, Odd;
  }

  lemma ShiftInjective(a: Word)
    requires Shift(a) == 0
    ensures a == 0
  {
  }

  lemma {:induction false} ShiftsLinear(a: Word, b: Word, n: nat)
    ensures Shifts(Xor(a, b), n) == Xor(Shifts(a, n), Shifts(b, n))
    decreases n
  {
    hide Xor, Shift;
    if n > 0 {
      ShiftLinear(a, b);
      ShiftsLinear(Shift(a), Shift(b), n - 1);
    }
  }

  lemma {:induction false} ShiftsZero(n: nat)
    ensures Shifts(0, n) == 0
  {
    if n > 0 {
      assert Shift(0) == 0;
      ShiftsZero(n - 1);
    }
  }

  lemma {:induction false} ShiftsInjective(a: Word, n: nat)
    requires Shifts(a, n) == 0
    ensures a == 0
    decreases n
  {
    if n > 0 {
      ShiftsInjective(Shift(a), n - 1);
      ShiftInjective(a);
    }
  }

  lemma {:induction false} ShiftsAdd(a: Word, m: nat, n: nat)
    ensures Shifts(a, m + n) == Shifts(Shifts(a, m), n)
    decreases m
  {
    if m > 0 {
      ShiftsAdd(Shift(a), m - 1, n);
    }
  }

  // ----- a word is absorbed like its four bytes -----

  function Low(d: Word): Word { d & 0xff }
  function Upper(d: Word): Word { d & 0xffff_ff00 }
  function Down(d: Word): Word { d >> 8 }

  /** The low k bytes of d, lowest first. */
  function LittleEndian(d: Word, k: nat): seq<Byte>
    decreases k
  {
    if k == 0 then [] else [Low(d) as Byte] + LittleEndian(Down(d), k - 1)
  }

  predicate FitsInto(d: Word, k: nat)
    decreases k
  {
    if k == 0 then d == 0 else FitsInto(Down(d), k - 1)
  }

  /** The low n bits are zero. */
  predicate LowZero(y: Word, n: nat)
    decreases n
  {
    n == 0 || (!Odd(y) && LowZero(Half(y), n - 1))
  }

  function Halves(y: Word, n: nat): Word
    decreases n
  {
    if n == 0 then y else Halves(Half(y), n - 1)
  }

  /** Zeros are shifted out without a trace. */
  lemma {:induction false} ZerosVanish(y: Word, n: nat)
    requires LowZero(y, n)
    ensures Shifts(y, n) == Halves(y, n)
    decreases n
  {
    if n > 0 {
      ZerosVanish(Half(y), n - 1);
    }
  }

  /** Eight steps move the upper bytes down and do not mix them with anything. */
  lemma UpperBytesMove(d: Word)
    ensures Shifts(Upper(d), 8) == Down(d)
  {
    EightHalves(Upper(d));
    UpperIsLowZero(d);
    ZerosVanish(Upper(d), 8);
    DownOfUpper(d);
    hide *;
  }

  lemma DownOfUpper(d: Word)
    ensures Down(Upper(d)) == Down(d)
  {
  }

  lemma EightHalves(y: Word)
    ensures Halves(y, 8) == Down(y)
  {
    hide Half, Down;
    var y1 := Half(y);
    var y2 := Half(y1);
    var y3 := Half(y2);
    var y4 := Half(y3);
    assert Halves(y, 8) == Halves(y4, 4);
    assert Halves(y4, 4) == Half(Half(Half(Half(y4))));
    HalvesIsDown(y);
  }

  lemma HalvesIsDown(y: Word)
    ensures Half(Half(Half(Half(Half(Half(Half(Half(y)))))))) == Down(y)
  {
  }

  lemma UpperIsLowZero(d: Word)
    ensures LowZero(Upper(d), 8)
  {
  }

  lemma LowByte(d: Word)
    ensures (Low(d) as Byte) as Word == Low(d)
    ensures d == Xor(Low(d), Upper(d))
  {
  }

  lemma {:induction false} AbsorbWord(r: Word, d: Word, k: nat)
    requires FitsInto(d, k)
    ensures Absorb(r, LittleEndian(d, k)) == Shifts(Xor(r, d), 8 * k)
    decreases k
  {
    hide Xor, Shift, Low, Upper, Down;
    if k == 0 {
      XorZero(r, d);
    } else {
      var low, high, le := Low(d), Upper(d), LittleEndian(d, k);
      LowByte(d);
      UpperBytesMove(d);
      XorSwap(r, low, high);
      ShiftsLinear(Xor(r, low), high, 8);
      ShiftsAdd(Xor(r, d), 8, 8 * (k - 1));
      assert le[1..] == LittleEndian(Down(d), k - 1);
      AbsorbWord(Shifts(Xor(r, low), 8), Down(d), k - 1);
    }
  }

  lemma {:induction false} AbsorbConcat(r: Word, s: seq<Byte>, t: seq<Byte>)
    ensures Absorb(r, s + t) == Absorb(Absorb(r, s), t)
    decreases |s|
  {
    hide Xor, Shift;
    if s == [] {
      assert s + t == t;
    } else {
      assert (s + t)[1..] == s[1..] + t;
      AbsorbConcat(Shifts(Xor(r, s[0] as Word), 8), s[1..], t);
    }
  }

  lemma ShiftsOneToOne(a: Word, b: Word, n: nat)
    ensures Shifts(a, n) == Shifts(b, n) <==> a == b
  {
    hide Xor, Shift;
    if Shifts(a, n) == Shifts(b, n) {
      ShiftsLinear(a, b, n);
      XorZero(Shifts(a, n), Shifts(b, n));
      ShiftsInjective(Xor(a, b), n);
      XorZero(a, b);
    }
  }

  lemma XorTwice(a: Word, b: Word)
    ensures Xor(a, Xor(a, b)) == b && Xor(Xor(a, b), b) == a
  {
  }

  lemma XorCancels(a: Word, b: Word, c: Word)
    ensures Xor(a, c) == Xor(b, c) <==> a == b
    ensures Xor(a, b) == c <==> b == Xor(a, c)
  {
    XorTwice(a, b);
    XorTwice(a, c);
    XorTwice(b, c);
    hide Xor;
  }

  lemma FourBytes(d: Word)
    ensures FitsInto(d, 4)
  {
    assert Down(Down(Down(Down(d)))) == 0;
    hide Down;
    assert FitsInto(Down(Down(Down(Down(d)))), 0);
    assert FitsInto(Down(Down(Down(d))), 1);
    assert FitsInto(Down(Down(d)), 2);
    assert FitsInto(Down(d), 3);
  }

  function Shift4(r: Word): Word { Shift(Shift(Shift(Shift(r)))) }

  lemma FourSteps(r: Word, n: nat)
    requires n >= 4
    ensures Shifts(r, n) == Shifts(Shift4(r), n - 4)
  {
    hide Shift;
    assert Shifts(r, n) == Shifts(Shift(Shift(r)), n - 2);
    assert Shifts(Shift(Shift(r)), n - 2) == Shifts(Shift(Shift(Shift(Shift(r)))), n - 4);
  }

  lemma OnesShifted()
    ensures Shift4(ONES) == 0xb242_0de3 && Shift4(0xb242_0de3) == 0x2dfd_1072
    ensures Shift4(0x2dfd_1072) == 0x39b1_f1cf && Shift4(0x39b1_f1cf) == 0xbe26_ed00
    ensures Shift4(0xbe26_ed00) == 0x0be2_6ed0 && Shift4(0x0be2_6ed0) == 0x00be_26ed
    ensures Shift4(0x00be_26ed) == 0x86d8_30ba && Shift4(0x86d8_30ba) == 0xdebb_20e3
  {
  }

  lemma ResidueOfOnes()
    ensures Xor(Shifts(ONES, 32), ONES) == RESIDUE
  {
    assert Xor(0xdebb_20e3, ONES) == RESIDUE;
    OnesShifted();
    hide Shift4, Shifts, Xor;
    FourSteps(ONES, 32);
    FourSteps(0xb242_0de3, 28);
    FourSteps(0x2dfd_1072, 24);
    FourSteps(0x39b1_f1cf, 20);
    FourSteps(0xbe26_ed00, 16);
    FourSteps(0x0be2_6ed0, 12);
    FourSteps(0x00be_26ed, 8);
    FourSteps(0x86d8_30ba, 4);
    NoShifts(0xdebb_20e3);
  }

  lemma NoShifts(r: Word)
    ensures Shifts(r, 0) == r
  {
  }

  /** A buffer followed by a digest passes the check if and only if the digest is that of the buffer. */
  lemma DigestChecks(buffer: seq<Byte>, digest: Word)
    ensures Crc(buffer + LittleEndian(digest, 4)) == RESIDUE <==> digest == Crc(buffer)
  {
    hide Xor, Shift, Shifts;
    var r := Absorb(ONES, buffer);
    AbsorbConcat(ONES, buffer, LittleEndian(digest, 4));
    FourBytes(digest);
    AbsorbWord(r, digest, 4);
    ResidueOfOnes();
    XorCancels(Shifts(Xor(r, digest), 32), Shifts(ONES, 32), ONES);
    ShiftsOneToOne(Xor(r, digest), ONES, 32);
    XorCancels(r, digest, ONES);
  }

  /** Different words have different bytes. */
  lemma LittleEndianOneToOne(d: Word, e: Word)
    requires d != e
    ensures LittleEndian(d, 4) != LittleEndian(e, 4) && |LittleEndian(d, 4)| == |LittleEndian(e, 4)| == 4
  {
    hide Xor, Shift, Shifts, Low, Down;
    FourBytes(d);
    FourBytes(e);
    AbsorbWord(0, d, 4);
    AbsorbWord(0, e, 4);
    ShiftsOneToOne(Xor(0, d), Xor(0, e), 32);
    XorCancelsLeft(d, e);
  }

  lemma XorCancelsLeft(d: Word, e: Word)
    ensures Xor(0, d) == Xor(0, e) ==> d == e
  {
  }

  // ----- the register bit by bit -----

  function Bit(b: bool): Word { if b then 1 else 0 }

  function Feed(r: Word, bits: seq<bool>): Word
    decreases |bits|
  {
    if bits == [] then r else Feed(Shift(Xor(r, Bit(bits[0]))), bits[1..])
  }

  /** The low n bits of x, lowest first: the order in which they enter the register. */
  function Bits(x: Word, n: nat): (b: seq<bool>)
    ensures |b| == n
    decreases n
  {
    if n == 0 then [] else [Odd(x)] + Bits(Half(x), n - 1)
  }

  function BitsOf(buffer: seq<Byte>): (b: seq<bool>)
    ensures |b| == 8 * |buffer|
    decreases |buffer|
  {
    if buffer == [] then [] else Bits(buffer[0] as Word, 8) + BitsOf(buffer[1..])
  }

  function Even(x: Word): Word { x & 0xffff_fffe }

  lemma SplitLow(x: Word)
    ensures x == Xor(Bit(Odd(x)), Even(x)) && !Odd(Even(x)) && Half(Even(x)) == Half(x)
  {
  }

  /** The bits of a number enter the register one by one as they do all at once. */
  lemma {:induction false} FeedBits(r: Word, x: Word, n: nat)
    requires Halves(x, n) == 0
    ensures Feed(r, Bits(x, n)) == Shifts(Xor(r, x), n)
    decreases n
  {
    if n == 0 {
      XorZero(r, x);
    } else {
      var b, bits := Bit(Odd(x)), Bits(x, n);
      SplitLow(x);
      hide Xor, Half, Odd, Bit, Even;
      XorSwap(r, b, Even(x));
      ShiftLinear(Xor(r, b), Even(x));
      assert bits[1..] == Bits(Half(x), n - 1);
      FeedBits(Shift(Xor(r, b)), Half(x), n - 1);
    }
  }

  lemma {:induction false} FeedConcat(r: Word, s: seq<bool>, t: seq<bool>)
    ensures Feed(r, s + t) == Feed(Feed(r, s), t)
    decreases |s|
  {
    hide Xor, Shift, Bit;
    if s == [] {
      assert s + t == t;
    } else {
      assert (s + t)[1..] == s[1..] + t;
      FeedConcat(Shift(Xor(r, Bit(s[0]))), s[1..], t);
    }
  }

  lemma ByteEnds(b: Byte)
    ensures Halves(b as Word, 8) == 0
  {
    EightHalves(b as Word);
    assert Down(b as Word) == 0;
  }

  /** Byte by byte is the same as bit by bit. */
  lemma {:induction false} AbsorbIsFeed(r: Word, buffer: seq<Byte>)
    ensures Absorb(r, buffer) == Feed(r, BitsOf(buffer))
    decreases |buffer|
  {
    hide Xor, Shift, Bits, Halves;
    if buffer != [] {
      var b := buffer[0] as Word;
      ByteEnds(buffer[0]);
      FeedBits(r, b, 8);
      FeedConcat(r, Bits(b, 8), BitsOf(buffer[1..]));
      AbsorbIsFeed(Shifts(Xor(r, b), 8), buffer[1..]);
    }
  }

  function Diff(s: seq<bool>, t: seq<bool>): (d: seq<bool>)
    requires |s| == |t|
    ensures |d| == |s| && forall i :: 0 <= i < |d| ==> d[i] == (s[i] != t[i])
  {
    seq(|s|, i requires 0 <= i < |s| => s[i] != t[i])
  }

  lemma XorFour(a: Word, b: Word, p: Word, q: Word)
    ensures Xor(Xor(a, p), Xor(b, q)) == Xor(Xor(a, b), Xor(p, q))
  {
    XorSwap(Xor(a, p), b, q);
    XorSwap(a, b, p);
    XorSwap(Xor(a, b), p, q);
    hide Xor;
  }

  lemma XorBits(a: Word, b: Word, p: bool, q: bool)
    ensures Xor(Xor(a, Bit(p)), Xor(b, Bit(q))) == Xor(Xor(a, b), Bit(p != q))
  {
    XorFour(a, b, Bit(p), Bit(q));
    assert Xor(Bit(p), Bit(q)) == Bit(p != q);
    hide Xor, Bit;
  }

  /** The difference of two registers only depends on the difference of what they were fed. */
  lemma {:induction false} FeedDiff(a: Word, s: seq<bool>, b: Word, t: seq<bool>)
    requires |s| == |t|
    ensures Xor(Feed(a, s), Feed(b, t)) == Feed(Xor(a, b), Diff(s, t))
    decreases |s|
  {
    hide Xor, Shift, Bit;
    if s != [] {
      assert Diff(s, t)[1..] == Diff(s[1..], t[1..]);
      XorBits(a, b, s[0], t[0]);
      ShiftLinear(Xor(a, Bit(s[0])), Xor(b, Bit(t[0])));
      FeedDiff(Shift(Xor(a, Bit(s[0]))), s[1..], Shift(Xor(b, Bit(t[0]))), t[1..]);
    }
  }

  lemma {:induction false} FeedNothing(r: Word, z: seq<bool>)
    requires forall i :: 0 <= i < |z| ==> !z[i]
    ensures Feed(r, z) == Shifts(r, |z|)
    decreases |z|
  {
    hide Xor, Shift;
    if z != [] {
      XorZero(r, 0);
      FeedNothing(Shift(r), z[1..]);
    }
  }

  // ----- what the digest starts from -----

  /** The register n is what r becomes with one byte. */
  predicate ByteMade(r: Word, b: Byte, n: Word) { Shift4(Shift4(Xor(r, b as Word))) == n }

  lemma ByteAbsorbed(r: Word, buffer: seq<Byte>, k: nat, n: Word)
    requires k < |buffer| && ByteMade(r, buffer[k], n)
    ensures Absorb(r, buffer[k..]) == Absorb(n, buffer[k + 1..])
  {
    hide Xor, Shift4;
    var x := Xor(r, buffer[k] as Word);
    FourSteps(x, 8);
    FourSteps(Shift4(x), 4);
    NoShifts(n);
    assert buffer[k..][1..] == buffer[k + 1..];
  }

  lemma FirstBytes()
    ensures ByteMade(0xffff_ffff, 49, 0x7c23_1048)
    ensures ByteMade(0x7c23_1048, 50, 0xb0ac_bb32)
    ensures ByteMade(0xb0ac_bb32, 51, 0x77b7_9c2d)
  {
  }

  lemma MiddleBytes()
    ensures ByteMade(0x77b7_9c2d, 52, 0x641c_1f5c)
    ensures ByteMade(0x641c_1f5c, 53, 0x340a_c5e3)
    ensures ByteMade(0x340a_c5e3, 54, 0xf68d_2c9e)
  {
  }

  lemma LastBytes()
    ensures Xor(0x340b_c6d9, ONES) == 0xcbf4_3926
    ensures ByteMade(0xf68d_2c9e, 55, 0xaffc_9660)
    ensures ByteMade(0xaffc_9660, 56, 0x651f_2550)
    ensures ByteMade(0x651f_2550, 57, 0x340b_c6d9)
  {
  }

  lemma NothingLeft(r: Word)
    ensures Absorb(r, []) == r
  {
  }

  /** The check value of the standard polynomial, the digest of "123456789". */
  lemma CheckValue()
    ensures Crc([49, 50, 51, 52, 53, 54, 55, 56, 57]) == 0xcbf4_3926
  {
    hide ByteMade, Xor, Absorb;
    FirstBytes();
    MiddleBytes();
    LastBytes();
    var buffer: seq<Byte> := [49, 50, 51, 52, 53, 54, 55, 56, 57];
    ByteAbsorbed(0xffff_ffff, buffer, 0, 0x7c23_1048);
    ByteAbsorbed(0x7c23_1048, buffer, 1, 0xb0ac_bb32);
    ByteAbsorbed(0xb0ac_bb32, buffer, 2, 0x77b7_9c2d);
    ByteAbsorbed(0x77b7_9c2d, buffer, 3, 0x641c_1f5c);
    ByteAbsorbed(0x641c_1f5c, buffer, 4, 0x340a_c5e3);
    ByteAbsorbed(0x340a_c5e3, buffer, 5, 0xf68d_2c9e);
    ByteAbsorbed(0xf68d_2c9e, buffer, 6, 0xaffc_9660);
    ByteAbsorbed(0xaffc_9660, buffer, 7, 0x651f_2550);
    ByteAbsorbed(0x651f_2550, buffer, 8, 0x340b_c6d9);
    assert buffer[0..] == buffer && buffer[9..] == [];
    NothingLeft(0x340b_c6d9);
  }

  /** Nothing has the digest 0. */
  lemma EmptyDigest()
    ensures Crc([]) == 0
  {
  }

  /** Different registers stay different, whatever they absorb. */
  lemma AbsorbOneToOne(a: Word, b: Word, buffer: seq<Byte>)
    requires a != b
    ensures Absorb(a, buffer) != Absorb(b, buffer)
  {
    hide Xor, Shift, Shifts, Feed, BitsOf, Diff;
    var bits := BitsOf(buffer);
    AbsorbIsFeed(a, buffer);
    AbsorbIsFeed(b, buffer);
    FeedDiff(a, bits, b, bits);
    FeedNothing(Xor(a, b), Diff(bits, bits));
    XorZero(Feed(a, bits), 0);
    XorZero(a, b);
    if Absorb(a, buffer) == Absorb(b, buffer) {
      ShiftsInjective(Xor(a, b), |bits|);
    }
  }

  /** A zero byte in front shows, which it would not if the register began empty. */
  lemma LeadingZeroShows(buffer: seq<Byte>)
    ensures Crc([0] + buffer) != Crc(buffer)
  {
    OnesShifted();
    XorZero(ONES, 0);
    assert ByteMade(ONES, 0, 0x2dfd_1072);
    hide Xor, ByteMade, Absorb;
    ByteAbsorbed(ONES, [0] + buffer, 0, 0x2dfd_1072);
    assert ([0] + buffer)[0..] == [0] + buffer && ([0] + buffer)[1..] == buffer;
    AbsorbOneToOne(0x2dfd_1072, ONES, buffer);
    XorCancels(Absorb(0x2dfd_1072, buffer), Absorb(ONES, buffer), ONES);
  }

  // ----- bursts -----

  function Put(b: bool, x: Word): Word { (x << 1) | Bit(b) }

  predicate TopClear(x: Word) { x & 0x8000_0000 == 0 }

  lemma PutParts(b: bool, x: Word)
    requires TopClear(x)
    ensures Half(Put(b, x)) == x && (Odd(Put(b, x)) <==> b)
  {
    HalfOfPut(b, x);
    OddOfPut(b, x);
    hide *;
  }

  lemma OddOfPut(b: bool, x: Word)
    ensures Odd(Put(b, x)) <==> b
  {
  }

  lemma DoubleAndOne(x: Word)
    requires x & 0x8000_0000 == 0
    ensures ((x << 1) | 1) >> 1 == x
  {
  }

  lemma DoubleAndZero(x: Word)
    requires x & 0x8000_0000 == 0
    ensures ((x << 1) | 0) >> 1 == x
  {
  }

  lemma HalfOfPut(b: bool, x: Word)
    requires TopClear(x)
    ensures Half(Put(b, x)) == x
  {
    if b {
      DoubleAndOne(x);
    } else {
      DoubleAndZero(x);
    }
  }

  function FromBits(bits: seq<bool>): Word {
    if bits == [] then 0 else Put(bits[0], FromBits(bits[1..]))
  }

  lemma {:induction false} HalvesAdd(x: Word, m: nat, n: nat)
    ensures Halves(x, m + n) == Halves(Halves(x, m), n)
    decreases m
  {
    hide Half;
    if m > 0 {
      HalvesAdd(Half(x), m - 1, n);
    }
  }

  lemma {:induction false} HalvesOfZero(n: nat)
    ensures Halves(0, n) == 0
  {
    if n > 0 {
      assert Half(0) == 0;
      HalvesOfZero(n - 1);
    }
  }

  lemma SevenHalves(x: Word)
    ensures Halves(x, 7) == Half(Half(Half(Half(Half(Half(Half(x)))))))
  {
    hide Half;
    var x3 := Half(Half(Half(x)));
    assert Halves(x, 7) == Halves(x3, 4);
    assert Halves(x3, 4) == Half(Half(Half(Half(x3))));
  }

  /** What fits into 31 bits leaves the top bit clear. */
  lemma FewBits(x: Word, n: nat)
    requires Halves(x, n) == 0 && n <= 31
    ensures TopClear(x)
  {
    hide Half, Down;
    HalvesAdd(x, n, 31 - n);
    HalvesOfZero(31 - n);
    HalvesAdd(x, 8, 23);
    EightHalves(x);
    HalvesAdd(Down(x), 8, 15);
    EightHalves(Down(x));
    HalvesAdd(Down(Down(x)), 8, 7);
    EightHalves(Down(Down(x)));
    SevenHalves(Down(Down(Down(x))));
    TopBit(x);
  }

  lemma TopBit(x: Word)
    requires Half(Half(Half(Half(Half(Half(Half(Down(Down(Down(x)))))))))) == 0
    ensures TopClear(x)
  {
  }

  /** Up to 32 bits make a number, and that number has these bits. */
  lemma {:induction false} BitsFromBits(bits: seq<bool>)
    requires |bits| <= 32
    ensures Bits(FromBits(bits), |bits|) == bits && Halves(FromBits(bits), |bits|) == 0
    decreases |bits|
  {
    hide Half, Odd, TopClear, Put;
    if bits != [] {
      var rest := FromBits(bits[1..]);
      BitsFromBits(bits[1..]);
      FewBits(rest, |bits| - 1);
      PutParts(bits[0], rest);
    }
  }

  lemma {:induction false} BitsOfZero(n: nat)
    ensures forall i :: 0 <= i < n ==> !Bits(0, n)[i]
  {
    if n > 0 {
      assert Half(0) == 0 && !Odd(0);
      BitsOfZero(n - 1);
    }
  }

  /** Up to 32 bits, not all of them zero, never leave the empty register empty. */
  lemma BurstShows(w: seq<bool>)
    requires |w| <= 32 && exists i :: 0 <= i < |w| && w[i]
    ensures Feed(0, w) != 0
  {
    hide Xor, Shift, Half, Odd, Put;
    var x := FromBits(w);
    BitsFromBits(w);
    BitsOfZero(|w|);
    FeedBits(0, x, |w|);
    XorZero(0, x);
    if Feed(0, w) == 0 {
      ShiftsInjective(Xor(0, x), |w|);
    }
  }

  /** s and t are different, but only within 32 consecutive places from k on. */
  ghost predicate Burst(s: seq<bool>, t: seq<bool>, k: nat) {
    && |s| == |t| && s != t
    && forall i :: 0 <= i < |s| && s[i] != t[i] ==> k <= i < k + 32
  }

  /** A stream with ones in 32 consecutive places at most: zeros, up to 32 bits that are not all zero, zeros. */
  lemma Window(d: seq<bool>, k: nat, i: nat) returns (before: seq<bool>, w: seq<bool>, after: seq<bool>)
    requires i < |d| && d[i] && forall j :: 0 <= j < |d| && d[j] ==> k <= j < k + 32
    ensures d == before + (w + after)
    ensures (forall j :: 0 <= j < |before| ==> !before[j]) && (forall j :: 0 <= j < |after| ==> !after[j])
    ensures |w| <= 32 && exists j :: 0 <= j < |w| && w[j]
  {
    var e := if k + 32 < |d| then k + 32 else |d|;
    before, w, after := d[..k], d[k..e], d[e..];
    assert w[i - k];
  }

  /** The difference of two streams that differ by a burst. */
  lemma BurstParts(s: seq<bool>, t: seq<bool>, k: nat) returns (before: seq<bool>, w: seq<bool>, after: seq<bool>)
    requires Burst(s, t, k)
    ensures Diff(s, t) == before + (w + after)
    ensures (forall i :: 0 <= i < |before| ==> !before[i]) && (forall i :: 0 <= i < |after| ==> !after[i])
    ensures |w| <= 32 && exists i :: 0 <= i < |w| && w[i]
  {
    var i :| 0 <= i < |s| && s[i] != t[i];
    before, w, after := Window(Diff(s, t), k, i);
  }

  /** A register tells two streams that differ by a burst apart, whatever comes before and after it. */
  lemma BurstDetected(r: Word, s: seq<bool>, t: seq<bool>, k: nat)
    requires Burst(s, t, k)
    ensures Feed(r, s) != Feed(r, t)
  {
    hide Xor, Shift, Feed, Shifts, Diff;
    var before, w, after := BurstParts(s, t, k);
    FeedDiff(r, s, r, t);
    XorZero(r, r);
    XorZero(Feed(r, s), Feed(r, t));
    FeedConcat(0, before, w + after);
    FeedNothing(0, before);
    ShiftsZero(|before|);
    FeedConcat(0, w, after);
    BurstShows(w);
    FeedNothing(Feed(0, w), after);
    ShiftsOneToOne(Feed(0, w), 0, |after|);
    ShiftsZero(|after|);
  }

  /** Two buffers of the same length that differ by a burst of at most 32 bits never have the same digest. */
  lemma DifferentDigests(a: seq<Byte>, b: seq<Byte>, k: nat)
    requires Burst(BitsOf(a), BitsOf(b), k)
    ensures Crc(a) != Crc(b)
  {
    hide Xor, Shift, Feed, BitsOf;
    AbsorbIsFeed(ONES, a);
    AbsorbIsFeed(ONES, b);
    BurstDetected(ONES, BitsOf(a), BitsOf(b), k);
    XorCancels(Absorb(ONES, a), Absorb(ONES, b), ONES);
  }

  lemma {:induction false} BitsOfConcat(a: seq<Byte>, b: seq<Byte>)
    ensures BitsOf(a + b) == BitsOf(a) + BitsOf(b)
    decreases |a|
  {
    hide Bits;
    if a == [] {
      assert a + b == b;
    } else {
      assert (a + b)[1..] == a[1..] + b;
      BitsOfConcat(a[1..], b);
    }
  }

  /** Buffers with the same bits are the same. */
  lemma {:induction false} BitsOfOneToOne(a: seq<Byte>, b: seq<Byte>)
    requires |a| == |b| && BitsOf(a) == BitsOf(b)
    ensures a == b
    decreases |a|
  {
    hide Bits;
    if a != [] {
      assert Bits(a[0] as Word, 8) == BitsOf(a)[..8];
      assert Bits(b[0] as Word, 8) == BitsOf(b)[..8];
      assert BitsOf(a[1..]) == BitsOf(a)[8..] && BitsOf(b[1..]) == BitsOf(b)[8..];
      ByteOneToOne(a[0], b[0]);
      BitsOfOneToOne(a[1..], b[1..]);
    }
  }

  lemma ByteOneToOne(a: Byte, b: Byte)
    requires Bits(a as Word, 8) == Bits(b as Word, 8)
    ensures a == b
  {
    hide Bits, Shifts, Xor, Halves, Feed;
    var x, y := a as Word, b as Word;
    ByteEnds(a);
    ByteEnds(b);
    FeedBits(0, x, 8);
    FeedBits(0, y, 8);
    ShiftsOneToOne(Xor(0, x), Xor(0, y), 8);
    XorZeroLeft(x);
    XorZeroLeft(y);
    SameByte(a, b);
  }

  lemma XorZeroLeft(x: Word)
    ensures Xor(0, x) == x
  {
  }

  lemma SameByte(a: Byte, b: Byte)
    ensures a as Word == b as Word ==> a == b
  {
  }

  /** A change confined to four consecutive bytes is a burst. */
  lemma FourBytesAreABurst(before: seq<Byte>, v: seq<Byte>, w: seq<Byte>, after: seq<Byte>)
    requires |v| == |w| <= 4 && v != w
    ensures Burst(BitsOf(before + v + after), BitsOf(before + w + after), 8 * |before|)
  {
    hide BitsOf;
    BitsOfConcat(before + v, after);
    BitsOfConcat(before, v);
    BitsOfConcat(before + w, after);
    BitsOfConcat(before, w);
    if BitsOf(v) == BitsOf(w) {
      BitsOfOneToOne(v, w);
    }
    var s, t := BitsOf(before) + BitsOf(v) + BitsOf(after), BitsOf(before) + BitsOf(w) + BitsOf(after);
    var i :| 0 <= i < |BitsOf(v)| && BitsOf(v)[i] != BitsOf(w)[i];
    assert s[8 * |before| + i] != t[8 * |before| + i];
  }

  /** A field of a structure that takes another value gives it another digest. */
  lemma FieldShows(before: seq<Byte>, d: Word, e: Word, after: seq<Byte>)
    requires d != e
    ensures Crc(before + LittleEndian(d, 4) + after) != Crc(before + LittleEndian(e, 4) + after)
  {
    hide Crc, LittleEndian;
    LittleEndianOneToOne(d, e);
    FourBytesAreABurst(before, LittleEndian(d, 4), LittleEndian(e, 4), after);
    DifferentDigests(before + LittleEndian(d, 4) + after, before + LittleEndian(e, 4) + after, 8 * |before|);
  }

  /** A structure that passes the check fails it after a change to up to four consecutive bytes, be they
      part of the digest or not. */
  lemma ChangeDetected(before: seq<Byte>, v: seq<Byte>, w: seq<Byte>, after: seq<Byte>)
    requires |v| == |w| <= 4 && v != w && Crc(before + v + after) == RESIDUE
    ensures Crc(before + w + after) != RESIDUE
  {
    FourBytesAreABurst(before, v, w, after);
    DifferentDigests(before + v + after, before + w + after, 8 * |before|);
  }
}
