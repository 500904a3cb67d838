/** CRC32C (src/wal.cc).  The reference is the bit-serial shift register of the Castagnoli polynomial
    (section 12.1 of RFC 3720), fed least significant bit first.  The table-driven loop and the
    word-chunked loop both compute it, for every register and every byte string, and two byte strings
    that differ only inside a window of 32 bits never share a checksum. */
module Crc32c {
  import opened Words
  import opened Bytes

  const POLYNOMIAL: nat := 0x82f6_3b78
  const INITIAL: nat := 0xffff_ffff

  // ---------------------------------------------------------------- reference

  /** One clock of the feedback shift register with one input bit. */
  function FeedBit(c: nat, bit: bool): nat {
    if (c % 2 == 1) != bit then Xor(c / 2, POLYNOMIAL) else c / 2
  }

  function FeedBits(c: nat, bits: seq<bool>): nat
    decreases |bits|
  {
    if bits == [] then c else FeedBits(FeedBit(c, bits[0]), bits[1..])
  }

  /** The `n` low bits of a word, least significant first. */
  function BitsOf(word: nat, n: nat): (bits: seq<bool>)
    ensures |bits| == n
    decreases n
  {
    if n == 0 then [] else [word % 2 == 1] + BitsOf(word / 2, n - 1)
  }

  function BitString(bytes: seq<Byte>): (bits: seq<bool>)
    ensures |bits| == 8 * |bytes|
  {
    if bytes == [] then [] else BitsOf(bytes[0], 8) + BitString(bytes[1..])
  }

  /** The register after all bits of `bytes` have been fed. */
  function Register(c: nat, bytes: seq<Byte>): nat {
    FeedBits(c, BitString(bytes))
  }

  /** The bitwise complement of a 32-bit word. */
  function Complement(c: nat): nat
    requires c < U32
  {
    U32 - 1 - c
  }

  function Crc32C(bytes: seq<Byte>): (crc: nat)
    ensures crc < U32
  {
    RegisterIsWord(INITIAL, BitString(bytes));
    Complement(Register(INITIAL, bytes))
  }

  lemma FeedBitIsWord(c: nat, bit: bool)
    requires c < U32
    ensures FeedBit(c, bit) < U32
  {
    Pow2Word();
    XorBound(c / 2, POLYNOMIAL, 32);
  }

  lemma {:induction false} RegisterIsWord(c: nat, bits: seq<bool>)
    requires c < U32
    ensures FeedBits(c, bits) < U32
    decreases |bits|
  {
    if bits != [] {
      FeedBitIsWord(c, bits[0]);
      RegisterIsWord(FeedBit(c, bits[0]), bits[1..]);
    }
  }

  // ------------------------------------------------ feeding piece after piece

  lemma {:induction false} FeedBitsConcat(c: nat, a: seq<bool>, b: seq<bool>)
    ensures FeedBits(c, a + b) == FeedBits(FeedBits(c, a), b)
    decreases |a|
  {
    if a == [] {
      assert a + b == b;
    } else {
      assert (a + b)[1..] == a[1..] + b;
      FeedBitsConcat(FeedBit(c, a[0]), a[1..], b);
    }
  }

  lemma {:induction false} BitStringConcat(a: seq<Byte>, b: seq<Byte>)
    ensures BitString(a + b) == BitString(a) + BitString(b)
  {
    if a == [] {
      assert a + b == b;
    } else {
      assert (a + b)[1..] == a[1..] + b;
      BitStringConcat(a[1..], b);
    }
  }

  /** Extending over pieces is extending over their concatenation. */
  lemma RegisterConcat(c: nat, a: seq<Byte>, b: seq<Byte>)
    ensures Register(c, a + b) == Register(Register(c, a), b)
  {
    BitStringConcat(a, b);
    FeedBitsConcat(c, BitString(a), BitString(b));
  }

  lemma BitStringOfByte(b: Byte)
    ensures BitString([b]) == BitsOf(b, 8)
  {
    assert [b][1..] == [];
    assert BitsOf(b, 8) + [] == BitsOf(b, 8);
  }

  // ------------------------------------------------------------ table driven

  /** The register is linear: feeding a sum feeds the parts. */
  lemma FeedBitLinear(a: nat, x: bool, b: nat, y: bool)
    ensures FeedBit(Xor(a, b), x != y) == Xor(FeedBit(a, x), FeedBit(b, y))
  {
    XorDigits(a, b);
    var (ha, hb, p) := (a / 2, b / 2, POLYNOMIAL);
    var (fa, fb) := ((a % 2 == 1) != x, (b % 2 == 1) != y);
    if fa && fb {
      XorInterchange(ha, p, hb, p);
      XorSelf(p);
      XorZero(Xor(ha, hb));
    } else if fa {
      XorAssociates(ha, p, hb);
      XorCommutes(p, hb);
      XorAssociates(ha, hb, p);
    } else if fb {
      XorAssociates(ha, hb, p);
    }
  }

  /** `n` clocks with no input. */
  function Shifts(c: nat, n: nat): nat
    decreases n
  {
    if n == 0 then c else Shifts(FeedBit(c, false), n - 1)
  }

  /** Feeding the bits of a word one by one is folding the word in first and shifting after. */
  lemma {:induction false} FeedWord(c: nat, word: nat, n: nat)
    requires word < Pow2(n)
    ensures FeedBits(c, BitsOf(word, n)) == Shifts(Xor(word, c), n)
    decreases n
  {
    if n == 0 {
      XorZero(c);
    } else {
      var low := word % 2 == 1;
      assert BitsOf(word, n)[1..] == BitsOf(word / 2, n - 1);
      FeedWord(FeedBit(c, low), word / 2, n - 1);
      FeedBitLinear(word, low, c, low);
    }
  }

  lemma {:induction false} ShiftsLinear(a: nat, b: nat, n: nat)
    ensures Shifts(Xor(a, b), n) == Xor(Shifts(a, n), Shifts(b, n))
    decreases n
  {
    hide Xor, FeedBit;
    if n > 0 {
      FeedBitLinear(a, false, b, false);
      ShiftsLinear(FeedBit(a, false), FeedBit(b, false), n - 1);
    }
  }

  lemma {:induction false} ShiftsUndoUp(x: nat, n: nat)
    ensures Shifts(Up(x, n), n) == x
    decreases n
  {
    if n > 0 {
      assert FeedBit(Up(x, n), false) == Up(x, n - 1);
      ShiftsUndoUp(x, n - 1);
    }
  }

  /** The low n digits of a register are spent in n clocks; what is above them just moves down. */
  lemma ShiftsSplit(x: nat, n: nat)
    ensures Shifts(x, n) == Xor(High(x, n), Shifts(Low(x, n), n))
  {
    XorUpLow(x, n);
    ShiftsLinear(Up(High(x, n), n), Low(x, n), n);
    ShiftsUndoUp(High(x, n), n);
  }

  /** Folding in a word of n bits and looking up its low n bits is n clocks of the register. */
  lemma LookupStep(c: nat, word: nat, n: nat)
    requires word < Pow2(n)
    ensures Xor(High(c, n), Shifts(Low(Xor(c, word), n), n)) == FeedBits(c, BitsOf(word, n))
  {
    XorHigh(c, word, n);
    HighOfSmall(word, n);
    XorZero(High(c, n));
    ShiftsSplit(Xor(c, word), n);
    XorCommutes(c, word);
    FeedWord(c, word, n);
  }

  /** Entry i holds the register i after eight clocks. */
  const CRC_TABLE: seq<nat> := seq(256, i requires 0 <= i < 256 => Shifts(i, 8))

  lemma LowByte(x: nat)
    ensures And(x, 0xff) == x % 256
  {
    Pow2Byte();
    AndMask(x, 8);
    HighLowByte(x);
  }

  /** One step of the table-driven loop is eight clocks of the register. */
  lemma TableStep(c: nat, b: Byte)
    ensures And(Xor(c, b), 0xff) < 256
    ensures Xor(c / 256, CRC_TABLE[And(Xor(c, b), 0xff)]) == Register(c, [b])
  {
    LowByte(Xor(c, b));
    Pow2Byte();
    HighLowByte(c);
    HighLowByte(Xor(c, b));
    LookupStep(c, b, 8);
    BitStringOfByte(b);
  }

  /** The branch-free form of one clock, as the table construction writes it. */
  lemma MaskedClock(c: nat, polynomial: nat, mask: nat)
    requires polynomial < U32 && mask == (U32 - c % 2) % U32
    ensures Xor(c / 2, And(polynomial, mask)) == if c % 2 == 1 then Xor(c / 2, polynomial) else c / 2
  {
    if c % 2 == 1 {
      AllOnes(polynomial, 32);
    } else {
      AndZero(polynomial);
      XorZero(c / 2);
    }
  }

  lemma AllOnes(a: nat, n: nat)
    requires a < U32 && n == 32
    ensures And(a, U32 - 1) == a
  {
    Pow2Word();
    AndMask(a, n);
    LowOfSmall(a, n);
  }

  lemma TableClock(c: nat, mask: nat)
    requires c < U32 && mask == (U32 - c % 2) % U32
    ensures Xor(c / 2, And(POLYNOMIAL, mask)) == FeedBit(c, false) < U32
  {
    MaskedClock(c, POLYNOMIAL, mask);
    FeedBitIsWord(c, false);
  }

  /** One entry of the table. */
  method MakeTableEntry(i: nat) returns (crc: nat)
    requires i < 256
    ensures crc == CRC_TABLE[i]
  {
    hide Xor, And, FeedBit;
    crc := i;
    for bit := 0 to 8
      invariant crc < U32 && Shifts(crc, 8 - bit) == Shifts(i, 8)
    {
      var mask := (U32 - crc % 2) % U32;
      TableClock(crc, mask);
      crc := Xor(crc / 2, And(POLYNOMIAL, mask));
    }
  }

  method MakeCrc32cTable() returns (table: array<nat>)
    ensures table[..] == CRC_TABLE
  {
    hide Shifts;
    table := new nat[256];
    for i := 0 to 256
      invariant forall k :: 0 <= k < i ==> table[k] == CRC_TABLE[k]
    {
      var entry := MakeTableEntry(i);
      table[i] := entry;
    }
  }

  method ExtendCrc32cSoftware(crc: nat, bytes: seq<Byte>) returns (extended: nat)
    ensures extended == Register(crc, bytes)
  {
    extended := crc;
    for i := 0 to |bytes|
      invariant extended == Register(crc, bytes[..i])
    {
      var b := bytes[i];
      var index := And(Xor(extended, b), 0xff);
      TableStep(extended, b);
      RegisterConcat(crc, bytes[..i], [b]);
      assert bytes[..i + 1] == bytes[..i] + [b];
      extended := Xor(extended / 256, CRC_TABLE[index]);
    }
    assert bytes[..|bytes|] == bytes;
  }

  // ------------------------------------------------------------ word chunked

  /** The crc32 instructions of SSE4.2: feed the low `width` bits of a source word. */
  function Crc32Instruction(c: nat, word: nat, width: nat): nat {
    FeedBits(c, BitsOf(word, width))
  }

  lemma DoubledProduct(half: nat, high: nat)
    ensures (2 * half) * high == 2 * (half * high)
  {}

  lemma HalfOfSum(low: nat, above: nat)
    ensures (low + 2 * above) / 2 == low / 2 + above && (low + 2 * above) % 2 == low % 2
  {}

  lemma {:induction false} BitsSplit(low: nat, high: nat, j: nat, k: nat)
    requires low < Pow2(j)
    ensures BitsOf(low + Pow2(j) * high, j + k) == BitsOf(low, j) + BitsOf(high, k)
    decreases j
  {
    if j > 0 {
      DoubledProduct(Pow2(j - 1), high);
      HalfOfSum(low, Pow2(j - 1) * high);
      BitsSplit(low / 2, high, j - 1, k);
    }
  }

  lemma ByteThenRest(b: Byte, high: nat, k: nat)
    ensures BitsOf(b + 256 * high, 8 + k) == BitsOf(b, 8) + BitsOf(high, k)
  {
    hide BitsOf;
    Pow2Byte();
    BitsSplit(b, high, 8, k);
  }

  /** A little-endian load puts the bits of the bytes in order. */
  lemma {:induction false} BitsOfLoad(bytes: seq<Byte>)
    ensures BitsOf(FromLE(bytes), 8 * |bytes|) == BitString(bytes)
  {
    if bytes == [] {
      assert BitsOf(0, 0) == [];
    } else {
      hide FromLE, BitString, BitsOf, Range;
      var b, rest := bytes[0], bytes[1..];
      LoadStep(bytes);
      BitsOfLoad(rest);
      ByteThenRest(b, FromLE(rest), 8 * |rest|);
      assert 8 * |bytes| == 8 + 8 * |rest|;
    }
  }

  lemma LoadStep(bytes: seq<Byte>)
    requires bytes != []
    ensures FromLE(bytes) == bytes[0] + 256 * FromLE(bytes[1..])
    ensures BitString(bytes) == BitsOf(bytes[0], 8) + BitString(bytes[1..])
  {
    hide BitsOf, Range;
  }

  /** One chunk of `width` bytes: load it, issue the instruction of that width. */
  method FeedChunk(ghost start: nat, crc: nat, bytes: seq<Byte>, data: nat, width: nat) returns (next: nat)
    requires data + width <= |bytes|
    requires crc == Register(start, bytes[..data])
    ensures next == Register(start, bytes[..data + width])
  {
    var chunk := FromLE(bytes[data..data + width]);
    next := Crc32Instruction(crc, chunk, 8 * width);
    BitsOfLoad(bytes[data..data + width]);
    RegisterConcat(start, bytes[..data], bytes[data..data + width]);
    assert bytes[..data + width] == bytes[..data] + bytes[data..data + width];
  }

  method ExtendCrc32cHardware(crc: nat, bytes: seq<Byte>) returns (extended: nat)
    ensures extended == Register(crc, bytes)
  {
    extended := crc;
    var data, size := 0, |bytes|;
    while size >= 8
      invariant 0 <= size && data + size == |bytes| && extended == Register(crc, bytes[..data])
    {
      extended := FeedChunk(crc, extended, bytes, data, 8);
      data, size := data + 8, size - 8;
    }
    while size >= 4
      invariant 0 <= size && data + size == |bytes| && extended == Register(crc, bytes[..data])
    {
      extended := FeedChunk(crc, extended, bytes, data, 4);
      data, size := data + 4, size - 4;
    }
    while size > 0
      invariant 0 <= size && data + size == |bytes| && extended == Register(crc, bytes[..data])
    {
      extended := FeedChunk(crc, extended, bytes, data, 1);
      data, size := data + 1, size - 1;
    }
    assert bytes[..|bytes|] == bytes;
  }

  /** Crc32C: the checksum does not depend on what the processor supports. */
  method ComputeCrc32C(bytes: seq<Byte>, hasHardwareCrc32c: bool) returns (crc: nat)
    ensures crc == Crc32C(bytes)
  {
    RegisterIsWord(INITIAL, BitString(bytes));
    if hasHardwareCrc32c {
      crc := ExtendCrc32cHardware(INITIAL, bytes);
    } else {
      crc := ExtendCrc32cSoftware(INITIAL, bytes);
    }
    crc := Complement(crc);
  }

  // ------------------------------------------------------------- check values

  lemma OnesClock(n: nat)
    requires n > 0
    ensures FeedBit(Pow2(n) - 1, true) == Pow2(n - 1) - 1
  {
    assert (Pow2(n) - 1) % 2 == 1 && (Pow2(n) - 1) / 2 == Pow2(n - 1) - 1;
  }

  lemma OnesBits(k: nat)
    requires k > 0
    ensures BitsOf(Pow2(k) - 1, k)[0] && BitsOf(Pow2(k) - 1, k)[1..] == BitsOf(Pow2(k - 1) - 1, k - 1)
  {
    assert (Pow2(k) - 1) % 2 == 1 && (Pow2(k) - 1) / 2 == Pow2(k - 1) - 1;
  }

  lemma NoBits(word: nat)
    ensures BitsOf(word, 0) == []
  {}

  /** A register of n ones is emptied by ones. */
  lemma {:induction false} OnesLeave(n: nat, k: nat)
    requires k <= n
    ensures FeedBits(Pow2(n) - 1, BitsOf(Pow2(k) - 1, k)) == Pow2(n - k) - 1
    decreases k
  {
    hide Pow2, BitsOf, FeedBit;
    NoBits(Pow2(k) - 1);
    if k > 0 {
      OnesClock(n);
      OnesBits(k);
      OnesLeave(n - 1, k - 1);
    }
  }

  /** A single one after n zeros fills an empty register with the polynomial. */
  lemma {:induction false} LoneOne(n: nat)
    ensures FeedBits(0, BitsOf(Pow2(n), n + 1)) == POLYNOMIAL
  {
    var bits := BitsOf(Pow2(n), n + 1);
    if n == 0 {
      assert bits == [true] + [] && bits[1..] == [];
      XorZero(POLYNOMIAL);
    } else {
      assert bits == [false] + BitsOf(Pow2(n - 1), n);
      assert bits[1..] == BitsOf(Pow2(n - 1), n);
      LoneOne(n - 1);
    }
  }

  lemma FullByte(n: nat)
    requires n >= 8
    ensures Register(Pow2(n) - 1, [0xff]) == Pow2(n - 8) - 1
  {
    hide BitsOf, Pow2, FeedBits, BitString;
    Pow2Byte();
    OnesLeave(n, 8);
    BitStringOfByte(0xff);
  }

  lemma TopBitByte()
    ensures Register(0, [0x80]) == 0x82f6_3b78
  {
    hide BitsOf, FeedBits, BitString;
    assert Pow2(7) == 0x80;
    LoneOne(7);
    BitStringOfByte(0x80);
  }

  /** A check value: four bytes of ones empty the initial register, and the last bit of the fifth byte brings
      in the polynomial.  With the laws above it leaves no choice of polynomial, initial value, final
      complement or order of bits. */
  lemma CheckValue()
    ensures Crc32C([0xff, 0xff, 0xff, 0xff]) == 0xffff_ffff
    ensures Crc32C([0xff, 0xff, 0xff, 0xff, 0x80]) == 0x7d09_c487
  {
    hide Register, Pow2;
    Pow2Word();
    FullByte(32);
    FullByte(24);
    FullByte(16);
    FullByte(8);
    TopBitByte();
    RegisterConcat(INITIAL, [0xff], [0xff]);
    RegisterConcat(INITIAL, [0xff, 0xff], [0xff]);
    RegisterConcat(INITIAL, [0xff, 0xff, 0xff], [0xff]);
    RegisterConcat(INITIAL, [0xff, 0xff, 0xff, 0xff], [0x80]);
    assert [0xff, 0xff] == [0xff] + [0xff] && [0xff, 0xff, 0xff] == [0xff, 0xff] + [0xff];
    assert [0xff, 0xff, 0xff, 0xff] == [0xff, 0xff, 0xff] + [0xff];
    assert [0xff, 0xff, 0xff, 0xff, 0x80] == [0xff, 0xff, 0xff, 0xff] + [0x80];
    EmptyPow2();
  }

  lemma EmptyPow2()
    ensures Pow2(0) == 1
  {}

  // --------------------------------------------------------- burst detection

  lemma FeedBitInjective(a: nat, b: nat, bit: bool)
    requires a < U32 && b < U32 && a != b
    ensures FeedBit(a, bit) != FeedBit(b, bit)
  {
    FeedBitLinear(a, bit, b, bit);
    XorEqualOnly(a, b);
    ClockKeepsNonzero(Xor(a, b), a, b);
    XorEqualOnly(FeedBit(a, bit), FeedBit(b, bit));
  }

  lemma ClockKeepsNonzero(d: nat, a: nat, b: nat)
    requires a < U32 && b < U32 && d == Xor(a, b) && d != 0
    ensures FeedBit(d, false) != 0
  {
    Pow2Word();
    XorBound(a, b, 32);
    if d % 2 == 1 {
      XorKeepsTop(d / 2, POLYNOMIAL, 31);
    }
  }

  /** Once two registers differ, equal bits never bring them together again. */
  lemma {:induction false} FeedBitsInjective(a: nat, b: nat, bits: seq<bool>)
    requires a < U32 && b < U32 && a != b
    ensures FeedBits(a, bits) != FeedBits(b, bits)
    decreases |bits|
  {
    if bits != [] {
      FeedBitInjective(a, b, bits[0]);
      FeedBitIsWord(a, bits[0]);
      FeedBitIsWord(b, bits[0]);
      FeedBitsInjective(FeedBit(a, bits[0]), FeedBit(b, bits[0]), bits[1..]);
    }
  }

  /** The difference of two registers loses at most one leading digit in a clock. */
  lemma DifferenceShrinksSlowly(a: nat, x: bool, b: nat, y: bool, floor: nat)
    requires a < U32 && b < U32
    requires 2 <= floor <= U32 && floor % 2 == 0 && floor <= Xor(a, b)
    ensures floor / 2 <= Xor(FeedBit(a, x), FeedBit(b, y))
  {
    FeedBitLinear(a, x, b, y);
    Pow2Word();
    XorBound(a, b, 32);
    var d := Xor(a, b);
    if (d % 2 == 1) != (x != y) {
      XorKeepsTop(d / 2, POLYNOMIAL, 31);
    }
  }

  /** Registers whose difference has k more digits than needed stay apart for k arbitrary bits. */
  lemma {:induction false} ApartForAWhile(a: nat, s: seq<bool>, b: nat, t: seq<bool>, k: nat)
    requires |s| == |t| <= k <= 31
    requires a < U32 && b < U32 && Pow2(k) <= Xor(a, b)
    ensures FeedBits(a, s) != FeedBits(b, t)
    decreases k
  {
    if s == [] {
      XorEqualOnly(a, b);
    } else {
      Pow2Word();
      XorBound(a, b, 32);
      DifferenceShrinksSlowly(a, s[0], b, t[0], Pow2(k));
      FeedBitIsWord(a, s[0]);
      FeedBitIsWord(b, t[0]);
      ApartForAWhile(FeedBit(a, s[0]), s[1..], FeedBit(b, t[0]), t[1..], k - 1);
    }
  }

  /** Two different windows of at most 32 bits drive one register to two different states. */
  lemma {:induction false} WindowSeparates(c: nat, s: seq<bool>, t: seq<bool>)
    requires |s| == |t| <= 32 && s != t && c < U32
    ensures FeedBits(c, s) != FeedBits(c, t)
    decreases |s|
  {
    if s[0] == t[0] {
      assert s == [s[0]] + s[1..] && t == [t[0]] + t[1..];
      FeedBitIsWord(c, s[0]);
      WindowSeparates(FeedBit(c, s[0]), s[1..], t[1..]);
    } else {
      FirstDifference(c, s[0], t[0]);
      FeedBitIsWord(c, s[0]);
      FeedBitIsWord(c, t[0]);
      ApartForAWhile(FeedBit(c, s[0]), s[1..], FeedBit(c, t[0]), t[1..], 31);
    }
  }

  /** A first differing bit makes the registers differ by exactly the polynomial. */
  lemma FirstDifference(c: nat, x: bool, y: bool)
    requires x != y
    ensures Xor(FeedBit(c, x), FeedBit(c, y)) == POLYNOMIAL && Pow2(31) <= POLYNOMIAL
  {
    Pow2Word();
    FeedBitLinear(c, x, c, y);
    XorSelf(c);
    XorZero(POLYNOMIAL);
  }

  /** `p` and `q` agree outside the bits from `from` up to `to`. */
  ghost predicate DifferOnlyWithin(p: seq<bool>, q: seq<bool>, from: nat, to: nat) {
    && |p| == |q|
    && from <= to <= |p|
    && p[..from] == q[..from]
    && p[to..] == q[to..]
  }

  lemma BitBurstDetected(c: nat, p: seq<bool>, q: seq<bool>, from: nat, to: nat)
    requires c < U32 && p != q && DifferOnlyWithin(p, q, from, to) && to - from <= 32
    ensures FeedBits(c, p) != FeedBits(c, q)
  {
    var s, t := p[from..to], q[from..to];
    assert p == p[..from] + (s + p[to..]) && q == p[..from] + (t + p[to..]);
    var r := FeedBits(c, p[..from]);
    RegisterIsWord(c, p[..from]);
    FeedBitsConcat(c, p[..from], s + p[to..]);
    FeedBitsConcat(c, p[..from], t + p[to..]);
    FeedBitsConcat(r, s, p[to..]);
    FeedBitsConcat(r, t, p[to..]);
    WindowSeparates(r, s, t);
    RegisterIsWord(r, s);
    RegisterIsWord(r, t);
    FeedBitsInjective(FeedBits(r, s), FeedBits(r, t), p[to..]);
  }

  lemma {:induction false} BitsInjective(a: nat, b: nat, n: nat)
    requires a < Pow2(n) && b < Pow2(n) && a != b
    ensures BitsOf(a, n) != BitsOf(b, n)
    decreases n
  {
    if a % 2 == b % 2 {
      BitsInjective(a / 2, b / 2, n - 1);
      assert BitsOf(a, n)[1..] == BitsOf(a / 2, n - 1);
      assert BitsOf(b, n)[1..] == BitsOf(b / 2, n - 1);
    } else {
      assert BitsOf(a, n)[0] != BitsOf(b, n)[0];
    }
  }

  lemma {:induction false} BitStringInjective(p: seq<Byte>, q: seq<Byte>)
    requires |p| == |q| && p != q
    ensures BitString(p) != BitString(q)
  {
    hide BitsOf;
    var bp, bq := BitString(p), BitString(q);
    if p[0] != q[0] {
      Pow2Byte();
      BitsInjective(p[0], q[0], 8);
      assert bp[..8] == BitsOf(p[0], 8) && bq[..8] == BitsOf(q[0], 8);
    } else {
      assert p == [p[0]] + p[1..] && q == [q[0]] + q[1..];
      BitStringInjective(p[1..], q[1..]);
      assert bp[8..] == BitString(p[1..]) && bq[8..] == BitString(q[1..]);
    }
  }

  /** Any change confined to 32 consecutive bits of a byte string changes its checksum. */
  lemma BurstDetected(p: seq<Byte>, q: seq<Byte>, from: nat, to: nat)
    requires |p| == |q| && p != q && to - from <= 32
    requires DifferOnlyWithin(BitString(p), BitString(q), from, to)
    ensures Crc32C(p) != Crc32C(q)
  {
    BitStringInjective(p, q);
    BitBurstDetected(INITIAL, BitString(p), BitString(q), from, to);
  }

  /** In particular any change confined to four consecutive bytes. */
  lemma ByteBurstDetected(head: seq<Byte>, s: seq<Byte>, t: seq<Byte>, tail: seq<Byte>)
    requires |s| == |t| <= 4 && s != t
    ensures Crc32C(head + s + tail) != Crc32C(head + t + tail)
  {
    hide BitsOf, BitString;
    var p, q := head + s + tail, head + t + tail;
    assert p[|head|..|head| + |s|] == s && q[|head|..|head| + |s|] == t;
    BitStringConcat(head + s, tail);
    BitStringConcat(head + t, tail);
    BitStringConcat(head, s);
    BitStringConcat(head, t);
    var from, to := 8 * |head|, 8 * |head| + 8 * |s|;
    assert DifferOnlyWithin(BitString(p), BitString(q), from, to) by {
      assert BitString(p)[..from] == BitString(head) == BitString(q)[..from];
      assert BitString(p)[to..] == BitString(tail) == BitString(q)[to..];
    }
    BurstDetected(p, q, from, to);
  }
}
