/**
 * The table-driven CRC-32 of the token validator (src/validators.rs): it is the bit-serial
 * reflected CRC of IEEE 802.3, section 3.2.9, and it detects every change confined to four
 * consecutive bytes.
 */
module Crc32 {
  type Byte = bv8
  type Word = bv32

  const POLY: Word := 0xEDB8_8320
  const ONES: Word := 0xFFFF_FFFF

  /** The bits of a byte. */
  const BYTE_BITS: nat := 8

  /** `f` applied `n` times. */
  function Iterate<W>(f: W -> W, w: W, n: nat): W
    decreases n, w
  {
    if n == 0 then w else Iterate(f, f(w), n - 1)
  }

  /** One shift of the reflected register. */
  function Shift(r: Word): Word {
    if r & 1 == 1 then (r >> 1) ^ POLY else r >> 1
  }

  // ----- the definition: one message bit at a time -----

  /** Feed one message bit, 0 or 1: it is added to the low bit of the register before the shift. */
  function FeedBit(r: Word, bit: Word): Word {
    Shift(r ^ bit)
  }

  /** Feed the low `n` bits of `m`, the lowest first. */
  function FeedBits(r: Word, m: Word, n: nat): Word
    decreases n
  {
    if n == 0 then r else FeedBits(FeedBit(r, m & 1), m >> 1, n - 1)
  }

  function BitSerial(r: Word, data: seq<Byte>): Word {
    if data == [] then r
    else FeedBits(BitSerial(r, data[..|data| - 1]), data[|data| - 1] as Word, BYTE_BITS)
  }

  /** The checksum by definition: register preset to ones, message fed bit by bit, complemented. */
  function BitSerialCrc(data: seq<Byte>): Word {
    BitSerial(ONES, data) ^ ONES
  }

  // ----- the byte-wise register -----

  function FeedByte(r: Word, b: Byte): Word {
    Iterate(Shift, r ^ (b as Word), BYTE_BITS)
  }

  function Feed(r: Word, data: seq<Byte>): Word {
    if data == [] then r else FeedByte(Feed(r, data[..|data| - 1]), data[|data| - 1])
  }

  function Crc(data: seq<Byte>): Word {
    Feed(ONES, data) ^ ONES
  }

  // ----- moving bits aside -----

  function Shr(r: Word): Word {
    r >> 1
  }

  function Xor(a: Word, b: Word): Word {
    a ^ b
  }

  predicate LowBitClear(r: Word) {
    r & 1 == 0
  }

  /** Each of the first `n` iterates passes the test. */
  predicate Along<W>(f: W -> W, test: W -> bool, w: W, n: nat)
    decreases n, w
  {
    n == 0 || (test(w) && Along(f, test, f(w), n - 1))
  }

  /** A summand that never reaches the low bit can be taken out of the iteration. */
  lemma {:induction false} IterateAside<W(!new)>(f: W -> W, shr: W -> W, xor: (W, W) -> W, clear: W -> bool, h: W, l: W, n: nat)
    requires forall h, l :: clear(h) ==> f(xor(h, l)) == xor(shr(h), f(l))
    requires Along(shr, clear, h, n)
    ensures Iterate(f, xor(h, l), n) == xor(Iterate(shr, h, n), Iterate(f, l, n))
    decreases n
  {
    if n > 0 {
      IterateAside(f, shr, xor, clear, shr(h), f(l), n - 1);
    }
  }

  lemma {:induction false} IterateCompose<W>(f: W -> W, w: W, m: nat, n: nat)
    ensures Iterate(f, Iterate(f, w, m), n) == Iterate(f, w, m + n)
    decreases m
  {
    if m > 0 {
      IterateCompose(f, f(w), m - 1, n);
    }
  }

  lemma {:induction false} IterateInjective<W(!new)>(f: W -> W, a: W, b: W, n: nat)
    requires forall a, b :: f(a) == f(b) ==> a == b
    requires Iterate(f, a, n) == Iterate(f, b, n)
    ensures a == b
    decreases n
  {
    if n > 0 {
      IterateInjective(f, f(a), f(b), n - 1);
    }
  }

  lemma LowBitAside(h: Word, l: Word)
    requires h & 1 == 0
    ensures (h ^ l) & 1 == l & 1
  {
  }

  lemma EvenAside(h: Word, l: Word)
    ensures (h ^ l) >> 1 == (h >> 1) ^ (l >> 1)
  {
  }

  lemma OddAside(h: Word, l: Word)
    ensures ((h ^ l) >> 1) ^ POLY == (h >> 1) ^ ((l >> 1) ^ POLY)
  {
  }

  lemma ShiftXor(h: Word, l: Word)
    requires h & 1 == 0
    ensures Shift(h ^ l) == (h >> 1) ^ Shift(l)
  {
    LowBitAside(h, l);
    if l & 1 == 1 {
      OddAside(h, l);
    } else {
      EvenAside(h, l);
    }
  }

  lemma ShiftAside(h: Word, l: Word)
    requires LowBitClear(h)
    ensures Shift(Xor(h, l)) == Xor(Shr(h), Shift(l))
  {
    ShiftXor(h, l);
  }

  lemma ShiftsAside(h: Word, l: Word, n: nat)
    requires Along(Shr, LowBitClear, h, n)
    ensures Iterate(Shift, Xor(h, l), n) == Xor(Iterate(Shr, h, n), Iterate(Shift, l, n))
  {
    forall h, l | LowBitClear(h)
      ensures Shift(Xor(h, l)) == Xor(Shr(h), Shift(l))
    {
      ShiftAside(h, l);
    }
    IterateAside(Shift, Shr, Xor, LowBitClear, h, l, n);
  }

  /** A shift can be undone: the top bit of the result is the bit that left. */
  lemma ShiftInjective(a: Word, b: Word)
    requires Shift(a) == Shift(b)
    ensures a == b
  {
  }

  lemma ShiftsInjective(a: Word, b: Word, n: nat)
    requires Iterate(Shift, a, n) == Iterate(Shift, b, n)
    ensures a == b
  {
    forall a, b | Shift(a) == Shift(b)
      ensures a == b
    {
      ShiftInjective(a, b);
    }
    IterateInjective(Shift, a, b, n);
  }

  lemma IterateTwice<W>(f: W -> W, test: W -> bool, w: W, n: nat)
    ensures Iterate(f, w, n + 2) == Iterate(f, f(f(w)), n)
    ensures Along(f, test, w, n + 2) <==> test(w) && test(f(w)) && Along(f, test, f(f(w)), n)
  {
    assert Iterate(f, w, n + 2) == Iterate(f, f(w), n + 1);
    assert Along(f, test, w, n + 2) <==> test(w) && Along(f, test, f(w), n + 1);
  }

  lemma IterateEightTimes<W>(f: W -> W, test: W -> bool, w: W)
    ensures Iterate(f, w, BYTE_BITS) == f(f(f(f(f(f(f(f(w))))))))
    ensures Along(f, test, w, BYTE_BITS) <==>
              && test(w) && test(f(w)) && test(f(f(w))) && test(f(f(f(w))))
              && test(f(f(f(f(w))))) && test(f(f(f(f(f(w))))))
              && test(f(f(f(f(f(f(w))))))) && test(f(f(f(f(f(f(f(w))))))))
  {
    IterateTwice(f, test, w, 6);
    IterateTwice(f, test, f(f(w)), 4);
    IterateTwice(f, test, f(f(f(f(w)))), 2);
    IterateTwice(f, test, f(f(f(f(f(f(w)))))), 0);
  }

  lemma ShrBy8(h: Word)
    ensures Iterate(Shr, h, BYTE_BITS) == h >> 8
    ensures h & 0xFF == 0 ==> Along(Shr, LowBitClear, h, BYTE_BITS)
  {
    IterateEightTimes(Shr, LowBitClear, h);
  }

  // ----- the table -----

  function Entry(i: Byte): Word {
    Iterate(Shift, i as Word, BYTE_BITS)
  }

  lemma SplitLowByte(r: Word)
    ensures r == Xor(r & 0xFFFF_FF00, ((r & 0xFF) as Byte) as Word)
    ensures (r & 0xFFFF_FF00) & 0xFF == 0
    ensures (r & 0xFFFF_FF00) >> 8 == r >> 8
  {
  }

  /** Eight shifts at once: look up the low byte and move the rest. */
  lemma TableStep(r: Word)
    ensures Iterate(Shift, r, BYTE_BITS) == Xor(r >> 8, Entry((r & 0xFF) as Byte))
  {
    SplitLowByte(r);
    ShrBy8(r & 0xFFFF_FF00);
    ShiftsAside(r & 0xFFFF_FF00, ((r & 0xFF) as Byte) as Word, BYTE_BITS);
  }

  /** The program's table and loop compute the byte-wise register. */
  method ComputeCrc32(data: seq<Byte>) returns (crc: Word)
    ensures crc == Crc(data)
  {
    var table := BuildTable();
    crc := ONES;
    for n := 0 to |data|
      invariant crc == Feed(ONES, data[..n])
      invariant IsTable(table[..])
    {
      assert data[..n + 1][..n] == data[..n];
      CrcStep(crc, data[n]);
      var index := LowByte(crc, data[n]);
      crc := Xor(crc >> 8, table[..][index as int]);
    }
    assert data[..|data|] == data;
    crc := crc ^ ONES;
  }

  ghost predicate IsTable(table: seq<Word>) {
    |table| == 256 && forall i: Byte :: table[i as int] == Entry(i)
  }

  method BuildTable() returns (table: array<Word>)
    ensures IsTable(table[..])
  {
    table := new Word[256];
    var i := 0;
    while i < 256
      invariant 0 <= i <= 256
      invariant forall k | 0 <= k < i :: table[k] == Entry(k as Byte)
    {
      table[i] := TableEntry(i as Byte);
      i := i + 1;
    }
    forall b: Byte
      ensures table[..][b as int] == Entry(b)
    {
      ByteRoundTrip(b);
    }
  }

  lemma ByteRoundTrip(b: Byte)
    ensures 0 <= b as int < 256 && (b as int) as Byte == b
  {
  }

  /** The index into the table. */
  function LowByte(r: Word, b: Byte): Byte {
    ((r ^ (b as Word)) & 0xFF) as Byte
  }

  lemma HighBytes(r: Word, b: Byte)
    ensures (r ^ (b as Word)) >> 8 == r >> 8
  {
  }

  lemma CrcStep(r: Word, b: Byte)
    ensures FeedByte(r, b) == Xor(r >> 8, Entry(LowByte(r, b)))
  {
    HighBytes(r, b);
    TableStep(r ^ (b as Word));
  }

  /** One entry of the table: eight conditional shifts. */
  method TableEntry(i: Byte) returns (crc: Word)
    ensures crc == Entry(i)
  {
    crc := i as Word;
    var j := 0;
    while j < BYTE_BITS
      invariant 0 <= j <= BYTE_BITS
      invariant Iterate(Shift, crc, BYTE_BITS - j) == Entry(i)
    {
      crc := if crc & 1 != 0 then (crc >> 1) ^ POLY else crc >> 1;
      j := j + 1;
    }
  }

  // ----- table-driven equals bit-serial -----

  lemma LowBitFeed(r: Word, m: Word)
    ensures (r ^ m) & 1 == (r ^ (m & 1)) & 1
  {
  }

  lemma EvenFeed(r: Word, m: Word)
    ensures (r ^ m) >> 1 == ((r ^ (m & 1)) >> 1) ^ (m >> 1)
  {
  }

  lemma OddFeed(r: Word, m: Word)
    ensures ((r ^ m) >> 1) ^ POLY == (((r ^ (m & 1)) >> 1) ^ POLY) ^ (m >> 1)
  {
  }

  /** A message bit only meets the low bit of the register; the others can wait. */
  lemma FeedBitXor(r: Word, m: Word)
    ensures Shift(r ^ m) == Shift(r ^ (m & 1)) ^ (m >> 1)
  {
    LowBitFeed(r, m);
    if (r ^ m) & 1 == 1 {
      OddFeed(r, m);
    } else {
      EvenFeed(r, m);
    }
  }

  lemma FeedBitAside(r: Word, m: Word)
    ensures Shift(Xor(r, m)) == Xor(FeedBit(r, m & 1), m >> 1)
  {
    FeedBitXor(r, m);
  }

  lemma {:induction false} BitsAreByte(r: Word, m: Word, n: nat)
    requires Iterate(Shr, m, n) == 0
    ensures FeedBits(r, m, n) == Iterate(Shift, Xor(r, m), n)
    decreases n
  {
    if n > 0 {
      FeedBitAside(r, m);
      BitsAreByte(FeedBit(r, m & 1), m >> 1, n - 1);
    } else {
      assert Xor(r, 0) == r;
    }
  }

  lemma ByteIsBits(r: Word, b: Byte)
    ensures FeedByte(r, b) == FeedBits(r, b as Word, BYTE_BITS)
  {
    ShrBy8(b as Word);
    ByteHasNoHighBits(b);
    BitsAreByte(r, b as Word, BYTE_BITS);
  }

  lemma ByteHasNoHighBits(b: Byte)
    ensures (b as Word) >> 8 == 0
  {
  }

  /** The byte-wise register holds, after every byte string, what the bit-serial one holds. */
  lemma {:induction false} FeedIsBitSerial(r: Word, data: seq<Byte>)
    ensures Feed(r, data) == BitSerial(r, data)
  {
    if data != [] {
      FeedIsBitSerial(r, data[..|data| - 1]);
      ByteIsBits(Feed(r, data[..|data| - 1]), data[|data| - 1]);
    }
  }

  lemma TableDrivenIsBitSerial(data: seq<Byte>)
    ensures Crc(data) == BitSerialCrc(data)
  {
    FeedIsBitSerial(ONES, data);
  }

  // ----- error detection -----

  lemma {:induction false} FeedConcat(r: Word, a: seq<Byte>, b: seq<Byte>)
    ensures Feed(r, a + b) == Feed(Feed(r, a), b)
  {
    if b == [] {
      assert a + b == a;
    } else {
      FeedConcat(r, a, b[..|b| - 1]);
      assert (a + b)[..|a + b| - 1] == a + b[..|b| - 1];
    }
  }

  lemma XorTwice(x: Word, b: Word)
    ensures (x ^ b) ^ b == x
  {
  }

  lemma FeedByteInjective(x: Word, y: Word, b: Byte)
    requires FeedByte(x, b) == FeedByte(y, b)
    ensures x == y
  {
    ShiftsInjective(x ^ (b as Word), y ^ (b as Word), BYTE_BITS);
    XorTwice(x, b as Word);
    XorTwice(y, b as Word);
  }

  /** The register determines the one before it, for the same bytes. */
  lemma {:induction false} FeedInjective(r: Word, s: Word, data: seq<Byte>)
    requires Feed(r, data) == Feed(s, data)
    ensures r == s
  {
    if data != [] {
      var n := |data| - 1;
      FeedByteInjective(Feed(r, data[..n]), Feed(s, data[..n]), data[n]);
      FeedInjective(r, s, data[..n]);
    }
  }

  /** Up to four bytes as one register value, the first byte lowest. */
  function Pack(d: seq<Byte>): Word {
    if d == [] then 0 else Join(d[0], Pack(d[1..]))
  }

  function Join(b: Byte, rest: Word): Word {
    (b as Word) ^ (rest << 8)
  }

  lemma JoinParts(b: Byte, rest: Word)
    ensures (Join(b, rest) & 0xFF) as Byte == b
    ensures Join(b, rest) >> 8 == rest & 0x00FF_FFFF
  {
  }

  lemma JoinFits(b: Byte, rest: Word)
    ensures rest & 0xFFFF_FFFF == 0 ==> Join(b, rest) & 0xFFFF_FF00 == 0
    ensures rest & 0xFFFF_FF00 == 0 ==> Join(b, rest) & 0xFFFF_0000 == 0
    ensures rest & 0xFFFF_0000 == 0 ==> Join(b, rest) & 0xFF00_0000 == 0
  {
  }

  /** Three packed bytes leave the top byte free. */
  lemma PackFits(d: seq<Byte>)
    requires |d| <= 3
    ensures Pack(d) & 0x00FF_FFFF == Pack(d)
  {
    if d != [] {
      if |d| >= 2 {
        if |d| == 3 {
          assert d[1..][1..][1..] == [];
          JoinFits(d[2], 0);
        }
        assert |d| == 2 ==> d[1..][1..] == [];
        JoinFits(d[1], Pack(d[1..][1..]));
      }
      assert |d| == 1 ==> d[1..] == [];
      JoinFits(d[0], Pack(d[1..]));
    }
  }

  lemma {:induction false} PackInjective(x: seq<Byte>, y: seq<Byte>)
    requires |x| == |y| <= 4 && Pack(x) == Pack(y)
    ensures x == y
  {
    if x != [] {
      JoinParts(x[0], Pack(x[1..]));
      JoinParts(y[0], Pack(y[1..]));
      PackFits(x[1..]);
      PackFits(y[1..]);
      PackInjective(x[1..], y[1..]);
      assert x == [x[0]] + x[1..] && y == [y[0]] + y[1..];
    }
  }

  lemma HighPart(p: Word)
    requires p & 0x00FF_FFFF == p
    ensures (p << 8) & 0xFF == 0 && (p << 8) >> 8 == p
  {
  }

  lemma JoinXor(r: Word, b: Byte, p: Word)
    ensures (p << 8) ^ (r ^ (b as Word)) == r ^ Join(b, p)
  {
  }

  /** Adding to the register after a byte is adding eight bits further up before it. */
  lemma FeedByteThenAdd(r: Word, b: Byte, p: Word)
    requires p & 0x00FF_FFFF == p
    ensures Xor(FeedByte(r, b), p) == Iterate(Shift, r ^ Join(b, p), BYTE_BITS)
  {
    HighPart(p);
    ShrBy8(p << 8);
    ShiftsAside(p << 8, r ^ (b as Word), BYTE_BITS);
    JoinXor(r, b, p);
    XorCommutes(p, FeedByte(r, b));
  }

  lemma XorCommutes(a: Word, b: Word)
    ensures Xor(a, b) == Xor(b, a)
  {
  }

  /** The number of shifts that feeding `d` takes. */
  function Rounds(d: seq<Byte>): nat {
    if d == [] then 0 else BYTE_BITS + Rounds(d[1..])
  }

  lemma {:induction false} SameRounds(x: seq<Byte>, y: seq<Byte>)
    requires |x| == |y|
    ensures Rounds(x) == Rounds(y)
  {
    if x != [] {
      SameRounds(x[1..], y[1..]);
    }
  }

  /** One byte before `n` more shifts of a summand. */
  lemma ByteThenShifts(r: Word, b: Byte, p: Word, n: nat)
    requires p & 0x00FF_FFFF == p
    ensures Iterate(Shift, Xor(FeedByte(r, b), p), n) == Iterate(Shift, Xor(r, Join(b, p)), BYTE_BITS + n)
  {
    FeedByteThenAdd(r, b, p);
    IterateCompose(Shift, Xor(r, Join(b, p)), BYTE_BITS, n);
  }

  lemma FeedFirst(r: Word, b: Byte, rest: seq<Byte>)
    ensures Feed(r, [b] + rest) == Feed(FeedByte(r, b), rest)
  {
    FeedConcat(r, [b], rest);
    assert [b][..0] == [];
  }

  /** Up to four bytes enter the register as one addition. */
  lemma {:induction false} FeedIsPack(r: Word, d: seq<Byte>)
    requires |d| <= 4
    ensures Feed(r, d) == Iterate(Shift, Xor(r, Pack(d)), Rounds(d))
    decreases |d|
  {
    if d == [] {
      assert Xor(r, 0) == r;
    } else {
      var b, rest := d[0], d[1..];
      assert d == [b] + rest;
      FeedFirst(r, b, rest);
      FeedIsPack(FeedByte(r, b), rest);
      PackFits(rest);
      ByteThenShifts(r, b, Pack(rest), Rounds(rest));
    }
  }

  lemma FeedShortInjective(r: Word, x: seq<Byte>, y: seq<Byte>)
    requires |x| == |y| <= 4 && Feed(r, x) == Feed(r, y)
    ensures x == y
  {
    FeedIsPack(r, x);
    FeedIsPack(r, y);
    SameRounds(x, y);
    ShiftsInjective(Xor(r, Pack(x)), Xor(r, Pack(y)), Rounds(x));
    XorUndone(r, Pack(x));
    XorUndone(r, Pack(y));
    PackInjective(x, y);
  }

  lemma XorUndone(r: Word, p: Word)
    ensures Xor(r, Xor(r, p)) == p
  {
  }

  /**
   * Error detection: two messages that differ only inside a window of at most four
   * consecutive bytes never have the same checksum.
   */
  lemma BurstDetected(before: seq<Byte>, x: seq<Byte>, y: seq<Byte>, after: seq<Byte>)
    requires |x| == |y| <= 4 && x != y
    ensures Crc(before + x + after) != Crc(before + y + after)
  {
    var r := Feed(ONES, before);
    FeedConcat(ONES, before, x);
    FeedConcat(ONES, before, y);
    FeedConcat(ONES, before + x, after);
    FeedConcat(ONES, before + y, after);
    if Crc(before + x + after) == Crc(before + y + after) {
      XorTwice(Feed(Feed(r, x), after), ONES);
      XorTwice(Feed(Feed(r, y), after), ONES);
      FeedInjective(Feed(r, x), Feed(r, y), after);
      FeedShortInjective(r, x, y);
    }
  }

  /** The checksum as a number: a different register is a different number below 2^32. */
  lemma NumberRoundTrip(a: Word)
    ensures (a as int) as Word == a
    ensures 0 <= a as int < 0x1_0000_0000
  {
  }

  // ----- the check value -----

  /** One byte of the check text, shift by shift. */
  lemma CheckByte(r: Word, b: Byte, after: Word)
    requires Shift(Shift(Shift(Shift(Shift(Shift(Shift(Shift(r ^ (b as Word))))))))) == after
    ensures FeedByte(r, b) == after
  {
    IterateEightTimes(Shift, LowBitClear, r ^ (b as Word));
  }

  /** The registers after each byte of the check text. */
  lemma CheckRegisters()
    ensures FeedByte(0xFFFF_FFFF, 0x31) == 0x7C23_1048
    ensures FeedByte(0x7C23_1048, 0x32) == 0xB0AC_BB32
    ensures FeedByte(0xB0AC_BB32, 0x33) == 0x77B7_9C2D
    ensures FeedByte(0x77B7_9C2D, 0x34) == 0x641C_1F5C
    ensures FeedByte(0x641C_1F5C, 0x35) == 0x340A_C5E3
    ensures FeedByte(0x340A_C5E3, 0x36) == 0xF68D_2C9E
    ensures FeedByte(0xF68D_2C9E, 0x37) == 0xAFFC_9660
    ensures FeedByte(0xAFFC_9660, 0x38) == 0x651F_2550
    ensures FeedByte(0x651F_2550, 0x39) == 0x340B_C6D9
  {
    CheckByte(0xFFFF_FFFF, 0x31, 0x7C23_1048);
    CheckByte(0x7C23_1048, 0x32, 0xB0AC_BB32);
    CheckByte(0xB0AC_BB32, 0x33, 0x77B7_9C2D);
    CheckByte(0x77B7_9C2D, 0x34, 0x641C_1F5C);
    CheckByte(0x641C_1F5C, 0x35, 0x340A_C5E3);
    CheckByte(0x340A_C5E3, 0x36, 0xF68D_2C9E);
    CheckByte(0xF68D_2C9E, 0x37, 0xAFFC_9660);
    CheckByte(0xAFFC_9660, 0x38, 0x651F_2550);
    CheckByte(0x651F_2550, 0x39, 0x340B_C6D9);
  }

  lemma FeedNext(r: Word, before: seq<Byte>, b: Byte, x: Word, y: Word)
    requires Feed(r, before) == x && FeedByte(x, b) == y
    ensures Feed(r, before + [b]) == y
  {
    assert (before + [b])[..|before|] == before;
  }

  /** The checksum of the nine digits `123456789` is CBF43926, the published check value of this CRC. */
  lemma CheckValue(text: seq<Byte>)
    requires text == [] + [0x31] + [0x32] + [0x33] + [0x34] + [0x35] + [0x36] + [0x37] + [0x38] + [0x39]
    ensures Crc(text) == 0xCBF4_3926
  {
    CheckRegisters();
    FeedNext(ONES, [], 0x31, 0xFFFF_FFFF, 0x7C23_1048);
    FeedNext(ONES, [] + [0x31], 0x32, 0x7C23_1048, 0xB0AC_BB32);
    FeedNext(ONES, [] + [0x31] + [0x32], 0x33, 0xB0AC_BB32, 0x77B7_9C2D);
    FeedNext(ONES, [] + [0x31] + [0x32] + [0x33], 0x34, 0x77B7_9C2D, 0x641C_1F5C);
    FeedNext(ONES, [] + [0x31] + [0x32] + [0x33] + [0x34], 0x35, 0x641C_1F5C, 0x340A_C5E3);
    FeedNext(ONES, [] + [0x31] + [0x32] + [0x33] + [0x34] + [0x35], 0x36, 0x340A_C5E3, 0xF68D_2C9E);
    FeedNext(ONES, [] + [0x31] + [0x32] + [0x33] + [0x34] + [0x35] + [0x36], 0x37, 0xF68D_2C9E, 0xAFFC_9660);
    FeedNext(ONES, [] + [0x31] + [0x32] + [0x33] + [0x34] + [0x35] + [0x36] + [0x37], 0x38, 0xAFFC_9660, 0x651F_2550);
    FeedNext(ONES, [] + [0x31] + [0x32] + [0x33] + [0x34] + [0x35] + [0x36] + [0x37] + [0x38], 0x39, 0x651F_2550, 0x340B_C6D9);
  }
}
