/**
 CRC-32 as `fdb_calc_crc32` computes it, byte by byte through a table, and what that table is: eight
 rounds of the shift register of section 8 of RFC 1952.  Every round is linear and injective, so an
 error burst of up to four bytes always changes the checksum.
 */
module Crc {

  type Bytes = seq<bv8>

  /** A checksum register.  The wrapper keeps bit-level reasoning inside the lemmas that need it. */
  datatype Word32 = Word32(bits: bv32)

  const ZERO := Word32(0)
  const ONES := Word32(0xFFFFFFFF)

  function Xor(x: Word32, y: Word32): Word32 { Word32(x.bits ^ y.bits) }

  function Wide(b: bv8): Word32 { Word32(b as bv32) }

  function LowByte(x: Word32): bv8 { (x.bits & 0xFF) as bv8 }

  function Shr8(x: Word32): Word32 { Word32(x.bits >> 8) }

  function Shl8(x: Word32): Word32 { Word32(x.bits << 8) }

  // ---------------------------------------------------------------- the table

  function Pick(k: bv8, a0: bv32, a1: bv32, a2: bv32, a3: bv32, a4: bv32, a5: bv32, a6: bv32, a7: bv32): bv32 {
    if k < 4 then (if k < 2 then (if k == 0 then a0 else a1) else if k == 2 then a2 else a3)
    else (if k < 6 then (if k == 4 then a4 else a5) else if k == 6 then a6 else a7)
  }

  /** The 256 constants, eight to a row. */
  function Entry(b: bv8): bv32 {
    var k := b & 7;
    match b >> 3
    case 0 => Pick(k, 0x00000000, 0x77073096, 0xee0e612c, 0x990951ba, 0x076dc419, 0x706af48f, 0xe963a535, 0x9e6495a3)
    case 1 => Pick(k, 0x0edb8832, 0x79dcb8a4, 0xe0d5e91e, 0x97d2d988, 0x09b64c2b, 0x7eb17cbd, 0xe7b82d07, 0x90bf1d91)
    case 2 => Pick(k, 0x1db71064, 0x6ab020f2, 0xf3b97148, 0x84be41de, 0x1adad47d, 0x6ddde4eb, 0xf4d4b551, 0x83d385c7)
    case 3 => Pick(k, 0x136c9856, 0x646ba8c0, 0xfd62f97a, 0x8a65c9ec, 0x14015c4f, 0x63066cd9, 0xfa0f3d63, 0x8d080df5)
    case 4 => Pick(k, 0x3b6e20c8, 0x4c69105e, 0xd56041e4, 0xa2677172, 0x3c03e4d1, 0x4b04d447, 0xd20d85fd, 0xa50ab56b)
    case 5 => Pick(k, 0x35b5a8fa, 0x42b2986c, 0xdbbbc9d6, 0xacbcf940, 0x32d86ce3, 0x45df5c75, 0xdcd60dcf, 0xabd13d59)
    case 6 => Pick(k, 0x26d930ac, 0x51de003a, 0xc8d75180, 0xbfd06116, 0x21b4f4b5, 0x56b3c423, 0xcfba9599, 0xb8bda50f)
    case 7 => Pick(k, 0x2802b89e, 0x5f058808, 0xc60cd9b2, 0xb10be924, 0x2f6f7c87, 0x58684c11, 0xc1611dab, 0xb6662d3d)
    case 8 => Pick(k, 0x76dc4190, 0x01db7106, 0x98d220bc, 0xefd5102a, 0x71b18589, 0x06b6b51f, 0x9fbfe4a5, 0xe8b8d433)
    case 9 => Pick(k, 0x7807c9a2, 0x0f00f934, 0x9609a88e, 0xe10e9818, 0x7f6a0dbb, 0x086d3d2d, 0x91646c97, 0xe6635c01)
    case 10 => Pick(k, 0x6b6b51f4, 0x1c6c6162, 0x856530d8, 0xf262004e, 0x6c0695ed, 0x1b01a57b, 0x8208f4c1, 0xf50fc457)
    case 11 => Pick(k, 0x65b0d9c6, 0x12b7e950, 0x8bbeb8ea, 0xfcb9887c, 0x62dd1ddf, 0x15da2d49, 0x8cd37cf3, 0xfbd44c65)
    case 12 => Pick(k, 0x4db26158, 0x3ab551ce, 0xa3bc0074, 0xd4bb30e2, 0x4adfa541, 0x3dd895d7, 0xa4d1c46d, 0xd3d6f4fb)
    case 13 => Pick(k, 0x4369e96a, 0x346ed9fc, 0xad678846, 0xda60b8d0, 0x44042d73, 0x33031de5, 0xaa0a4c5f, 0xdd0d7cc9)
    case 14 => Pick(k, 0x5005713c, 0x270241aa, 0xbe0b1010, 0xc90c2086, 0x5768b525, 0x206f85b3, 0xb966d409, 0xce61e49f)
    case 15 => Pick(k, 0x5edef90e, 0x29d9c998, 0xb0d09822, 0xc7d7a8b4, 0x59b33d17, 0x2eb40d81, 0xb7bd5c3b, 0xc0ba6cad)
    case 16 => Pick(k, 0xedb88320, 0x9abfb3b6, 0x03b6e20c, 0x74b1d29a, 0xead54739, 0x9dd277af, 0x04db2615, 0x73dc1683)
    case 17 => Pick(k, 0xe3630b12, 0x94643b84, 0x0d6d6a3e, 0x7a6a5aa8, 0xe40ecf0b, 0x9309ff9d, 0x0a00ae27, 0x7d079eb1)
    case 18 => Pick(k, 0xf00f9344, 0x8708a3d2, 0x1e01f268, 0x6906c2fe, 0xf762575d, 0x806567cb, 0x196c3671, 0x6e6b06e7)
    case 19 => Pick(k, 0xfed41b76, 0x89d32be0, 0x10da7a5a, 0x67dd4acc, 0xf9b9df6f, 0x8ebeeff9, 0x17b7be43, 0x60b08ed5)
    case 20 => Pick(k, 0xd6d6a3e8, 0xa1d1937e, 0x38d8c2c4, 0x4fdff252, 0xd1bb67f1, 0xa6bc5767, 0x3fb506dd, 0x48b2364b)
    case 21 => Pick(k, 0xd80d2bda, 0xaf0a1b4c, 0x36034af6, 0x41047a60, 0xdf60efc3, 0xa867df55, 0x316e8eef, 0x4669be79)
    case 22 => Pick(k, 0xcb61b38c, 0xbc66831a, 0x256fd2a0, 0x5268e236, 0xcc0c7795, 0xbb0b4703, 0x220216b9, 0x5505262f)
    case 23 => Pick(k, 0xc5ba3bbe, 0xb2bd0b28, 0x2bb45a92, 0x5cb36a04, 0xc2d7ffa7, 0xb5d0cf31, 0x2cd99e8b, 0x5bdeae1d)
    case 24 => Pick(k, 0x9b64c2b0, 0xec63f226, 0x756aa39c, 0x026d930a, 0x9c0906a9, 0xeb0e363f, 0x72076785, 0x05005713)
    case 25 => Pick(k, 0x95bf4a82, 0xe2b87a14, 0x7bb12bae, 0x0cb61b38, 0x92d28e9b, 0xe5d5be0d, 0x7cdcefb7, 0x0bdbdf21)
    case 26 => Pick(k, 0x86d3d2d4, 0xf1d4e242, 0x68ddb3f8, 0x1fda836e, 0x81be16cd, 0xf6b9265b, 0x6fb077e1, 0x18b74777)
    case 27 => Pick(k, 0x88085ae6, 0xff0f6a70, 0x66063bca, 0x11010b5c, 0x8f659eff, 0xf862ae69, 0x616bffd3, 0x166ccf45)
    case 28 => Pick(k, 0xa00ae278, 0xd70dd2ee, 0x4e048354, 0x3903b3c2, 0xa7672661, 0xd06016f7, 0x4969474d, 0x3e6e77db)
    case 29 => Pick(k, 0xaed16a4a, 0xd9d65adc, 0x40df0b66, 0x37d83bf0, 0xa9bcae53, 0xdebb9ec5, 0x47b2cf7f, 0x30b5ffe9)
    case 30 => Pick(k, 0xbdbdf21c, 0xcabac28a, 0x53b39330, 0x24b4a3a6, 0xbad03605, 0xcdd70693, 0x54de5729, 0x23d967bf)
    case _ => Pick(k, 0xb3667a2e, 0xc4614ab8, 0x5d681b02, 0x2a6f2b94, 0xb40bbe37, 0xc30c8ea1, 0x5a05df1b, 0x2d02ef8d)
  }

  function Table(b: bv8): Word32 { Word32(Entry(b)) }

  function RoundBits(x: bv32): bv32 { if x & 1 == 1 then (x >> 1) ^ 0xedb88320 else x >> 1 }

  function Round(x: Word32): Word32 { Word32(RoundBits(x.bits)) }

  function Rounds4(x: Word32): Word32 { Round(Round(Round(Round(x)))) }

  function Rounds8(x: Word32): Word32 { Rounds4(Rounds4(x)) }

  function Bits8(x: bv32): bv32 {
    RoundBits(RoundBits(RoundBits(RoundBits(RoundBits(RoundBits(RoundBits(RoundBits(x))))))))
  }

  lemma EntryRows0(b: bv8)
    requires b >> 5 == 0
    ensures Entry(b) == Bits8(b as bv32)
  {
    match b >> 3
    case 0 => case 1 => case 2 => case _ =>
  }

  lemma EntryRows1(b: bv8)
    requires b >> 5 == 1
    ensures Entry(b) == Bits8(b as bv32)
  {
    match b >> 3
    case 4 => case 5 => case 6 => case _ =>
  }

  lemma EntryRows2(b: bv8)
    requires b >> 5 == 2
    ensures Entry(b) == Bits8(b as bv32)
  {
    match b >> 3
    case 8 => case 9 => case 10 => case _ =>
  }

  lemma EntryRows3(b: bv8)
    requires b >> 5 == 3
    ensures Entry(b) == Bits8(b as bv32)
  {
    match b >> 3
    case 12 => case 13 => case 14 => case _ =>
  }

  lemma EntryRows4(b: bv8)
    requires b >> 5 == 4
    ensures Entry(b) == Bits8(b as bv32)
  {
    match b >> 3
    case 16 => case 17 => case 18 => case _ =>
  }

  lemma EntryRows5(b: bv8)
    requires b >> 5 == 5
    ensures Entry(b) == Bits8(b as bv32)
  {
    match b >> 3
    case 20 => case 21 => case 22 => case _ =>
  }

  lemma EntryRows6(b: bv8)
    requires b >> 5 == 6
    ensures Entry(b) == Bits8(b as bv32)
  {
    match b >> 3
    case 24 => case 25 => case 26 => case _ =>
  }

  lemma EntryRows7(b: bv8)
    requires b >> 5 == 7
    ensures Entry(b) == Bits8(b as bv32)
  {
    match b >> 3
    case 28 => case 29 => case 30 => case _ =>
  }

  /** Each table entry is its index after eight rounds. */
  lemma TableIsEightRounds(b: bv8)
    ensures Table(b) == Rounds8(Wide(b))
  {
    hide Entry;
    hide RoundBits;
    match b >> 5
    case 0 => EntryRows0(b);
    case 1 => EntryRows1(b);
    case 2 => EntryRows2(b);
    case 3 => EntryRows3(b);
    case 4 => EntryRows4(b);
    case 5 => EntryRows5(b);
    case 6 => EntryRows6(b);
    case _ => EntryRows7(b);
  }

  // ---------------------------------------------------------------- the checksum

  function Step(crc: Word32, b: bv8): Word32 {
    Xor(Table(LowByte(Xor(crc, Wide(b)))), Shr8(crc))
  }

  function Fold(crc: Word32, buf: Bytes): Word32
    decreases |buf|
  {
    if buf == [] then crc else Fold(Step(crc, buf[0]), buf[1..])
  }

  function Crc32(crc: Word32, buf: Bytes): Word32 {
    Xor(Fold(Xor(crc, ONES), buf), ONES)
  }

  method CalcCrc32(crc: Word32, buf: Bytes) returns (r: Word32)
    ensures r == Crc32(crc, buf)
  {
    hide Xor;
    hide Table;
    hide Shr8;
    hide LowByte;
    hide Wide;
    r := Xor(crc, ONES);
    var p := 0;
    while p < |buf|
      invariant 0 <= p <= |buf|
      invariant Fold(r, buf[p..]) == Fold(Xor(crc, ONES), buf)
    {
      assert buf[p..][0] == buf[p] && buf[p..][1..] == buf[p + 1..];
      r := Xor(Table(LowByte(Xor(r, Wide(buf[p])))), Shr8(r));
      p := p + 1;
    }
    assert buf[p..] == [];
    r := Xor(r, ONES);
  }

  lemma {:induction false} FoldConcat(crc: Word32, p: Bytes, q: Bytes)
    ensures Fold(crc, p + q) == Fold(Fold(crc, p), q)
    decreases |p|
  {
    hide Step;
    if p == [] {
      assert p + q == q;
    } else {
      assert (p + q)[1..] == p[1..] + q;
      FoldConcat(Step(crc, p[0]), p[1..], q);
    }
  }

  lemma XorZero(x: Word32)
    ensures Xor(x, ZERO) == x
  {
  }

  lemma XorCommutes(x: Word32, y: Word32)
    ensures Xor(x, y) == Xor(y, x)
  {
  }

  lemma XorAssociates(x: Word32, y: Word32, z: Word32)
    ensures Xor(Xor(x, y), z) == Xor(x, Xor(y, z))
  {
  }

  lemma XorUndoes(x: Word32, y: Word32)
    ensures Xor(Xor(x, y), y) == x
  {
  }

  /** Piecewise calculation gives the checksum of the whole. */
  lemma Piecewise(crc: Word32, p: Bytes, q: Bytes)
    ensures Crc32(Crc32(crc, p), q) == Crc32(crc, p + q)
  {
    hide Xor;
    hide Step;
    XorUndoes(Fold(Xor(crc, ONES), p), ONES);
    FoldConcat(Xor(crc, ONES), p, q);
  }

  // ---------------------------------------------------------------- linearity

  lemma XorShift(i: bv32, j: bv32)
    ensures (i ^ j) >> 1 == (i >> 1) ^ (j >> 1)
  {
  }

  lemma XorBit(i: bv32, j: bv32)
    ensures ((i ^ j) & 1 == 1) <==> ((i & 1 == 1) != (j & 1 == 1))
  {
  }

  lemma XorMix(a: bv32, b: bv32, p: bv32)
    ensures (a ^ p) ^ b == (a ^ b) ^ p
    ensures a ^ (b ^ p) == (a ^ b) ^ p
    ensures (a ^ p) ^ (b ^ p) == a ^ b
  {
  }

  lemma RoundBitsLinear(i: bv32, j: bv32)
    ensures RoundBits(i ^ j) == RoundBits(i) ^ RoundBits(j)
  {
    XorShift(i, j);
    XorBit(i, j);
    XorMix(i >> 1, j >> 1, 0xedb88320);
  }

  lemma RoundOfXor(x: Word32, y: Word32)
    ensures Round(Xor(x, y)) == Word32(RoundBits(x.bits ^ y.bits))
  {
    hide RoundBits;
  }

  lemma XorOfRounds(x: Word32, y: Word32)
    ensures Xor(Round(x), Round(y)) == Word32(RoundBits(x.bits) ^ RoundBits(y.bits))
  {
    hide RoundBits;
  }

  lemma RoundLinear(x: Word32, y: Word32)
    ensures Round(Xor(x, y)) == Xor(Round(x), Round(y))
  {
    hide RoundBits;
    hide Round;
    hide Xor;
    RoundOfXor(x, y);
    XorOfRounds(x, y);
    RoundBitsLinear(x.bits, y.bits);
  }

  lemma RoundInjective(x: Word32, y: Word32)
    requires Round(x) == Round(y)
    ensures x == y
  {
  }

  lemma Rounds8Linear(x: Word32, y: Word32)
    ensures Rounds8(Xor(x, y)) == Xor(Rounds8(x), Rounds8(y))
  {
    hide Round;
    hide Xor;
    var x1, y1 := Round(Round(x)), Round(Round(y));
    var x2, y2 := Round(Round(x1)), Round(Round(y1));
    var x3, y3 := Round(Round(x2)), Round(Round(y2));
    RoundLinear(x, y);
    RoundLinear(Round(x), Round(y));
    RoundLinear(x1, y1);
    RoundLinear(Round(x1), Round(y1));
    RoundLinear(x2, y2);
    RoundLinear(Round(x2), Round(y2));
    RoundLinear(x3, y3);
    RoundLinear(Round(x3), Round(y3));
  }

  lemma Rounds4Injective(x: Word32, y: Word32)
    requires Rounds4(x) == Rounds4(y)
    ensures x == y
  {
    hide Round;
    RoundInjective(Round(Round(Round(x))), Round(Round(Round(y))));
    RoundInjective(Round(Round(x)), Round(Round(y)));
    RoundInjective(Round(x), Round(y));
    RoundInjective(x, y);
  }

  lemma Rounds8Injective(x: Word32, y: Word32)
    requires Rounds8(x) == Rounds8(y)
    ensures x == y
  {
    hide Rounds4;
    Rounds4Injective(Rounds4(x), Rounds4(y));
    Rounds4Injective(x, y);
  }

  lemma Bits8Shift(x: bv32)
    requires x & 0xFF == 0
    ensures Bits8(x) == x >> 8
  {
    assert RoundBits(x) == x >> 1;
    assert RoundBits(x >> 1) == x >> 2;
    assert RoundBits(x >> 2) == x >> 3;
    assert RoundBits(x >> 3) == x >> 4;
    assert RoundBits(x >> 4) == x >> 5;
    assert RoundBits(x >> 5) == x >> 6;
    assert RoundBits(x >> 6) == x >> 7;
    assert RoundBits(x >> 7) == x >> 8;
  }

  lemma Rounds8Bits(x: Word32)
    ensures Rounds8(x) == Word32(Bits8(x.bits))
  {
    hide RoundBits;
  }

  /** Eight rounds only shift a word whose low byte is zero. */
  lemma Rounds8Shift(x: Word32)
    requires x.bits & 0xFF == 0
    ensures Rounds8(x) == Shr8(x)
  {
    hide RoundBits;
    hide Rounds8;
    hide Bits8;
    Rounds8Bits(x);
    Bits8Shift(x.bits);
  }

  function HighBytes(x: Word32): Word32 { Word32(x.bits & 0xFFFFFF00) }

  lemma LowAndHigh(crc: Word32, b: bv8)
    ensures Xor(crc, Wide(b)) == Xor(Wide(LowByte(Xor(crc, Wide(b)))), HighBytes(crc))
  {
  }

  lemma HighBytesLow(crc: Word32)
    ensures HighBytes(crc).bits & 0xFF == 0
  {
  }

  lemma HighBytesShift(crc: Word32)
    ensures Shr8(HighBytes(crc)) == Shr8(crc)
  {
  }

  /** One table step is eight rounds of the checksum register with the byte mixed in. */
  lemma StepIsEightRounds(crc: Word32, b: bv8)
    ensures Step(crc, b) == Rounds8(Xor(crc, Wide(b)))
  {
    hide Rounds8;
    hide Table;
    hide Xor;
    hide LowByte;
    hide Wide;
    hide Shr8;
    hide HighBytes;
    var low := Wide(LowByte(Xor(crc, Wide(b))));
    LowAndHigh(crc, b);
    HighBytesLow(crc);
    HighBytesShift(crc);
    Rounds8Linear(low, HighBytes(crc));
    Rounds8Shift(HighBytes(crc));
    TableIsEightRounds(LowByte(Xor(crc, Wide(b))));
  }

  // ---------------------------------------------------------------- error bursts

  /** Up to four bytes as one little-endian word. */
  function Word(u: Bytes): Word32 {
    if u == [] then ZERO else Xor(Wide(u[0]), Shl8(Word(u[1..])))
  }

  function RoundsBytes(x: Word32, n: nat): Word32
    decreases n
  {
    if n == 0 then x else RoundsBytes(Rounds8(x), n - 1)
  }

  /** `x` takes no more than `n` bytes. */
  predicate Within(x: Word32, n: nat) {
    match n
    case 0 => x.bits == 0
    case 1 => x.bits < 0x100
    case 2 => x.bits < 0x10000
    case 3 => x.bits < 0x1000000
    case _ => true
  }

  lemma ShiftInWithin(w: Word32, b: bv8, n: nat)
    requires n < 4 && Within(w, n)
    ensures Within(Xor(Wide(b), Shl8(w)), n + 1)
    ensures w.bits < 0x1000000
  {
  }

  lemma ShiftUpLow(w: Word32)
    ensures Shl8(w).bits & 0xFF == 0
  {
  }

  lemma ShiftUpDown(w: Word32)
    requires w.bits < 0x1000000
    ensures Shr8(Shl8(w)) == w
  {
  }

  lemma LowestByte(w: Word32, b: bv8)
    ensures LowByte(Xor(Wide(b), Shl8(w))) == b
  {
  }

  lemma UpperBytes(w: Word32, b: bv8)
    requires w.bits < 0x1000000
    ensures Shr8(Xor(Wide(b), Shl8(w))) == w
  {
  }

  lemma {:induction false} WordWithin(u: Bytes)
    requires |u| <= 4
    ensures Within(Word(u), |u|)
  {
    hide Xor;
    hide Shl8;
    hide Wide;
    if u != [] {
      WordWithin(u[1..]);
      ShiftInWithin(Word(u[1..]), u[0], |u| - 1);
    }
  }

  lemma WordParts(u: Bytes)
    requires 0 < |u| <= 4
    ensures LowByte(Word(u)) == u[0] && Shr8(Word(u)) == Word(u[1..])
    ensures Shl8(Word(u[1..])).bits & 0xFF == 0 && Shr8(Shl8(Word(u[1..]))) == Word(u[1..])
  {
    hide Xor;
    hide Shl8;
    hide Shr8;
    hide Wide;
    hide LowByte;
    var w := Word(u[1..]);
    WordWithin(u[1..]);
    ShiftInWithin(w, u[0], |u| - 1);
    ShiftUpLow(w);
    ShiftUpDown(w);
    LowestByte(w, u[0]);
    UpperBytes(w, u[0]);
  }

  lemma {:induction false} WordInjective(u: Bytes, v: Bytes)
    requires |u| == |v| <= 4 && Word(u) == Word(v)
    ensures u == v
  {
    hide Xor;
    hide Shl8;
    hide Shr8;
    hide Wide;
    hide LowByte;
    if u != [] {
      WordParts(u);
      WordParts(v);
      WordInjective(u[1..], v[1..]);
      assert u == [u[0]] + u[1..] && v == [v[0]] + v[1..];
    }
  }

  lemma {:induction false} FoldIsWord(crc: Word32, u: Bytes)
    requires |u| <= 4
    ensures Fold(crc, u) == RoundsBytes(Xor(crc, Word(u)), |u|)
    decreases |u|
  {
    hide Step;
    hide Rounds8;
    hide Xor;
    hide Shl8;
    hide Shr8;
    hide Wide;
    hide LowByte;
    if u == [] {
      XorZero(crc);
    } else {
      var b, w := Wide(u[0]), Word(u[1..]);
      StepIsEightRounds(crc, u[0]);
      FoldIsWord(Step(crc, u[0]), u[1..]);
      WordParts(u);
      Rounds8Linear(Xor(crc, b), Shl8(w));
      Rounds8Shift(Shl8(w));
      XorAssociates(crc, b, Shl8(w));
    }
  }

  lemma {:induction false} RoundsBytesInjective(x: Word32, y: Word32, n: nat)
    requires RoundsBytes(x, n) == RoundsBytes(y, n)
    ensures x == y
    decreases n
  {
    hide Rounds8;
    if n > 0 {
      RoundsBytesInjective(Rounds8(x), Rounds8(y), n - 1);
      Rounds8Injective(x, y);
    }
  }

  lemma XorCancel(x: Word32, y: Word32, z: Word32)
    requires Xor(x, z) == Xor(y, z) || Xor(z, x) == Xor(z, y)
    ensures x == y
  {
    hide Xor;
    XorUndoes(x, z);
    XorUndoes(y, z);
    XorCommutes(z, x);
    XorCommutes(z, y);
  }

  lemma {:induction false} FoldInjective(c: Word32, d: Word32, s: Bytes)
    requires Fold(c, s) == Fold(d, s)
    ensures c == d
    decreases |s|
  {
    hide Step;
    hide Rounds8;
    hide Xor;
    hide Wide;
    if s != [] {
      FoldInjective(Step(c, s[0]), Step(d, s[0]), s[1..]);
      StepIsEightRounds(c, s[0]);
      StepIsEightRounds(d, s[0]);
      Rounds8Injective(Xor(c, Wide(s[0])), Xor(d, Wide(s[0])));
      XorCancel(c, d, Wide(s[0]));
    }
  }

  /** Two buffers that differ only inside a window of at most four bytes have different checksums. */
  lemma BurstChangesCrc(crc: Word32, before: Bytes, u: Bytes, v: Bytes, after: Bytes)
    requires |u| == |v| <= 4 && u != v
    ensures Crc32(crc, before + u + after) != Crc32(crc, before + v + after)
  {
    hide Fold;
    hide Step;
    hide Xor;
    hide Word;
    hide RoundsBytes;
    if Crc32(crc, before + u + after) == Crc32(crc, before + v + after) {
      var c := Xor(crc, ONES);
      XorCancel(Fold(c, before + u + after), Fold(c, before + v + after), ONES);
      FoldConcat(c, before + u, after);
      FoldConcat(c, before + v, after);
      FoldConcat(c, before, u);
      FoldConcat(c, before, v);
      var d := Fold(c, before);
      FoldInjective(Fold(d, u), Fold(d, v), after);
      FoldIsWord(d, u);
      FoldIsWord(d, v);
      RoundsBytesInjective(Xor(d, Word(u)), Xor(d, Word(v)), |u|);
      XorCancel(Word(u), Word(v), d);
      WordInjective(u, v);
    }
  }

  // ---------------------------------------------------------------- known values

  /** A checksum in memory, lowest byte first; `Word` reads it back. */
  function WordBytes(w: Word32): (s: Bytes)
    ensures |s| == 4
  {
    [LowByte(w), LowByte(Shr8(w)), LowByte(Shr8(Shr8(w))), LowByte(Shr8(Shr8(Shr8(w))))]
  }

  lemma LowestFirst(w: Word32)
    ensures Xor(Wide(LowByte(w)), Shl8(Shr8(w))) == w
  {
  }

  lemma NothingAbove(w: Word32)
    ensures Shr8(Shr8(Shr8(Shr8(w)))) == ZERO
  {
  }

  lemma WordBack(w: Word32)
    ensures Word(WordBytes(w)) == w
  {
    hide Xor; hide Wide; hide LowByte; hide Shl8; hide Shr8;
    var s := WordBytes(w);
    var w1 := Shr8(w);
    var w2 := Shr8(w1);
    var w3 := Shr8(w2);
    LowestFirst(w);
    LowestFirst(w1);
    LowestFirst(w2);
    LowestFirst(w3);
    NothingAbove(w);
    assert s[1..] == [s[1], s[2], s[3]] && s[1..][1..] == [s[2], s[3]] && s[1..][1..][1..] == [s[3]];
    assert s[1..][1..][1..][1..] == [];
    assert Word(s[1..][1..][1..]) == w3;
    assert Word(s[1..][1..]) == w2;
    assert Word(s[1..]) == w1;
  }

  lemma FourZeros()
    ensures RoundsBytes(ONES, 4) == Word32(0xdebb20e3)
  {
    RoundsOfOnes();
    hide Rounds8;
  }

  lemma RoundsOfOnes()
    ensures Rounds8(ONES) == Word32(0x2dfd1072)
    ensures Rounds8(Word32(0x2dfd1072)) == Word32(0xbe26ed00)
    ensures Rounds8(Word32(0xbe26ed00)) == Word32(0x00be26ed)
    ensures Rounds8(Word32(0x00be26ed)) == Word32(0xdebb20e3)
  {
  }

  lemma RoundsOfDigits()
    ensures Rounds8(Xor(ONES, Wide(0x31))) == Word32(0x7c231048)
    ensures Rounds8(Xor(Word32(0x7c231048), Wide(0x32))) == Word32(0xb0acbb32)
    ensures Rounds8(Xor(Word32(0xb0acbb32), Wide(0x33))) == Word32(0x77b79c2d)
    ensures Rounds8(Xor(Word32(0x77b79c2d), Wide(0x34))) == Word32(0x641c1f5c)
    ensures Rounds8(Xor(Word32(0x641c1f5c), Wide(0x35))) == Word32(0x340ac5e3)
    ensures Rounds8(Xor(Word32(0x340ac5e3), Wide(0x36))) == Word32(0xf68d2c9e)
    ensures Rounds8(Xor(Word32(0xf68d2c9e), Wide(0x37))) == Word32(0xaffc9660)
    ensures Rounds8(Xor(Word32(0xaffc9660), Wide(0x38))) == Word32(0x651f2550)
    ensures Rounds8(Xor(Word32(0x651f2550), Wide(0x39))) == Word32(0x340bc6d9)
  {
  }

  /** A buffer followed by its own checksum always has the same checksum: the residue of this CRC.  It comes from the
      register being inverted before and after. */
  lemma Residue(crc: Word32, d: Bytes)
    ensures Crc32(crc, d + WordBytes(Crc32(crc, d))) == Word32(0x2144df1c)
  {
    hide Fold; hide Xor; hide WordBytes; hide Word; hide RoundsBytes;
    var r := Fold(Xor(crc, ONES), d);
    var w := Xor(r, ONES);
    FoldConcat(Xor(crc, ONES), d, WordBytes(w));
    FoldIsWord(r, WordBytes(w));
    WordBack(w);
    XorAssociates(r, r, ONES);
    XorSelf(r);
    XorCommutes(ZERO, ONES);
    XorZero(ONES);
    FourZeros();
    ResidueValue();
  }

  lemma XorSelf(x: Word32)
    ensures Xor(x, x) == ZERO
  {
  }

  lemma ResidueValue()
    ensures Xor(Word32(0xdebb20e3), ONES) == Word32(0x2144df1c)
  {
  }

  /** The check value that catalogues give for CRC-32: that of the nine digits from 1 to 9. */
  lemma CheckValue()
    ensures Crc32(ZERO, [0x31, 0x32, 0x33, 0x34, 0x35, 0x36, 0x37, 0x38, 0x39]) == Word32(0xcbf43926)
  {
    RoundsOfDigits();
    CheckEnds();
    hide Fold; hide Rounds8; hide Xor; hide Wide;
    var d: Bytes := [0x31, 0x32, 0x33, 0x34, 0x35, 0x36, 0x37, 0x38, 0x39];
    FoldStep(ONES, d, 0, Word32(0x7c231048));
    FoldStep(Word32(0x7c231048), d, 1, Word32(0xb0acbb32));
    FoldStep(Word32(0xb0acbb32), d, 2, Word32(0x77b79c2d));
    FoldStep(Word32(0x77b79c2d), d, 3, Word32(0x641c1f5c));
    FoldStep(Word32(0x641c1f5c), d, 4, Word32(0x340ac5e3));
    FoldStep(Word32(0x340ac5e3), d, 5, Word32(0xf68d2c9e));
    FoldStep(Word32(0xf68d2c9e), d, 6, Word32(0xaffc9660));
    FoldStep(Word32(0xaffc9660), d, 7, Word32(0x651f2550));
    FoldStep(Word32(0x651f2550), d, 8, Word32(0x340bc6d9));
    FoldDone(Word32(0x340bc6d9), d);
  }

  lemma FoldStep(c: Word32, d: Bytes, i: nat, c': Word32)
    requires i < |d| && Rounds8(Xor(c, Wide(d[i]))) == c'
    ensures Fold(c, d[i..]) == Fold(c', d[i + 1..]) && d[0..] == d
  {
    StepIsEightRounds(c, d[i]);
    hide Step; hide Rounds8; hide Xor; hide Wide;
    assert d[i..][1..] == d[i + 1..];
  }

  lemma FoldDone(c: Word32, d: Bytes)
    ensures Fold(c, d[|d|..]) == c
  {
    assert d[|d|..] == [];
  }

  lemma CheckEnds()
    ensures Xor(ZERO, ONES) == ONES && Xor(Word32(0x340bc6d9), ONES) == Word32(0xcbf43926)
  {
  }

  lemma TwoSteps(c: Word32, b0: bv8, b1: bv8)
    ensures Fold(c, [b0, b1]) == Rounds8(Xor(Rounds8(Xor(c, Wide(b0))), Wide(b1)))
  {
    var c1 := Step(c, b0);
    StepIsEightRounds(c, b0);
    StepIsEightRounds(c1, b1);
    hide Step; hide Rounds8; hide Xor; hide Wide;
    FoldConcat(c, [b0], [b1]);
    assert [b0] + [b1] == [b0, b1];
    FoldOne(c, b0);
    FoldOne(c1, b1);
  }

  lemma FoldOne(c: Word32, b: bv8)
    ensures Fold(c, [b]) == Step(c, b)
  {
    hide Step;
    assert [b][1..] == [];
  }

  lemma FourRounds()
    ensures Rounds8(Xor(ONES, Wide(0x63))) == Word32(0xf9462090)
    ensures Rounds8(Xor(Word32(0xf9462090), Wide(0x6f))) == Word32(0x2dfba9ad)
    ensures Rounds8(Xor(Word32(0x2dfba9ad), Wide(0x31))) == Word32(0xf99424c6)
    ensures Rounds8(Xor(Word32(0xf99424c6), Wide(0x39))) == Word32(0x2dfb7ba9)
    ensures Xor(ZERO, ONES) == ONES
    ensures Xor(Word32(0x2dfba9ad), ONES) == Word32(0xd2045652) && Xor(Word32(0x2dfb7ba9), ONES) == Word32(0xd2048456)
  {
  }

  /** The checksums of `co` and of `co19` begin with the same 16 bits. */
  lemma TwoSums()
    ensures Crc32(ZERO, [0x63, 0x6F]) == Word32(0xd2045652)
    ensures Crc32(ZERO, [0x63, 0x6F, 0x31, 0x39]) == Word32(0xd2048456)
  {
    TwoSteps(ONES, 0x63, 0x6F);
    TwoSteps(Word32(0x2dfba9ad), 0x31, 0x39);
    FoldConcat(ONES, [0x63, 0x6F], [0x31, 0x39]);
    FourRounds();
    hide Rounds8; hide Xor; hide Wide; hide Fold;
    assert [0x63 as bv8, 0x6F] + [0x31, 0x39] == [0x63, 0x6F, 0x31, 0x39];
  }
}
