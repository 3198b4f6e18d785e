// The CRC32 of the benchmark (`crc32_bench.c`, RFC 1952 section 8): eight
// shift-and-xor steps a byte. The step is linear over xor and invertible, and so
// no change confined to 32 consecutive bits goes unnoticed.
module Crc32 {
  import opened Words
  import opened WordBits

  const POLYNOMIAL: word := 0xedb8_8320
  const ONES: word := 0xffff_ffff

  // ----- one step, on bits -----

  /** The register shifted right by one. */
  function Shifted(c: bits32): bits32 {
    seq(32, i requires 0 <= i < 32 => i < 31 && c[i + 1])
  }

  function Step(c: bits32): bits32 {
    if c[0] then Xor(Shifted(c), BitsOf(POLYNOMIAL)) else Shifted(c)
  }

  function Steps(c: bits32, n: nat): bits32 {
    if n == 0 then c else Step(Steps(c, n - 1))
  }

  /** Undoes a step: the top bit tells whether the polynomial was added. */
  function Unstep(c: bits32): bits32 {
    seq(32, i requires 0 <= i < 32 => if i == 0 then c[31] else c[i - 1] != (c[31] && BitsOf(POLYNOMIAL)[i - 1]))
  }

  lemma PolynomialTop()
    ensures BitsOf(POLYNOMIAL)[31]
  {
    PowerOfWord();
    LeadingBit(POLYNOMIAL, 31);
  }

  lemma UnstepStep(c: bits32)
    ensures Unstep(Step(c)) == c
  {
    PolynomialTop();
    forall i | 0 <= i < 32 ensures Unstep(Step(c))[i] == c[i] {
    }
  }

  lemma StepUnstep(c: bits32)
    ensures Step(Unstep(c)) == c
  {
    PolynomialTop();
    forall i | 0 <= i < 32 ensures Step(Unstep(c))[i] == c[i] {
    }
  }

  lemma StepInverts(c: bits32)
    ensures Unstep(Step(c)) == c && Step(Unstep(c)) == c
  {
    UnstepStep(c);
    StepUnstep(c);
  }

  lemma StepIsLinear(a: bits32, b: bits32)
    ensures Step(Xor(a, b)) == Xor(Step(a), Step(b))
  {
  }

  lemma {:induction false} StepsAreLinear(a: bits32, b: bits32, n: nat)
    ensures Steps(Xor(a, b), n) == Xor(Steps(a, n), Steps(b, n))
  {
    if n > 0 {
      StepsAreLinear(a, b, n - 1);
      StepIsLinear(Steps(a, n - 1), Steps(b, n - 1));
    }
  }

  lemma {:induction false} StepsAreInjective(a: bits32, b: bits32, n: nat)
    requires Steps(a, n) == Steps(b, n)
    ensures a == b
  {
    if n > 0 {
      StepInverts(Steps(a, n - 1));
      StepInverts(Steps(b, n - 1));
      StepsAreInjective(a, b, n - 1);
    }
  }

  /** Steps only shift as long as the bits they drop are clear. */
  lemma {:induction false} StepsShift(c: bits32, n: nat)
    requires n <= 32 && forall i :: 0 <= i < n ==> !c[i]
    ensures Steps(c, n) == seq(32, i requires 0 <= i < 32 => i + n < 32 && c[i + n])
  {
    if n > 0 {
      StepsShift(c, n - 1);
    }
  }

  // ----- bytes -----

  function Update(crc: bits32, b: byte): bits32 {
    Steps(Xor(crc, BitsOf(b)), 8)
  }

  /** The register after the first `n` bytes. */
  function Register(start: bits32, msg: seq<byte>, n: nat): bits32
    requires n <= |msg|
  {
    if n == 0 then start else Update(Register(start, msg, n - 1), msg[n - 1])
  }

  function Crc(msg: seq<byte>): bits32 {
    Xor(Register(BitsOf(ONES), msg, |msg|), BitsOf(ONES))
  }

  lemma HalfShifts(w: word)
    ensures BitsOf(w / 2) == Shifted(BitsOf(w))
  {
    forall i | 0 <= i < 32 ensures BitsOf(w / 2)[i] == Shifted(BitsOf(w))[i] {
      if i == 31 {
        TopBitClear(w / 2);
      } else {
        assert Bit(w, i + 1) == Bit(w / 2, i);
      }
    }
  }

  lemma TopBitClear(w: nat)
    requires w < WORD_MODULUS / 2
    ensures !Bit(w, 31)
  {
    PowerOfWord();
    HighBitClear(w, 31, 31);
  }

  /** `crc32_update`, on words. */
  method UpdateByte(crc: word, b: byte) returns (r: word)
    ensures BitsOf(r) == Update(BitsOf(crc), b)
  {
    r := XorWords(crc, b);
    var bit: nat := 0;
    while bit < 8
      invariant bit <= 8 && BitsOf(r) == Steps(Xor(BitsOf(crc), BitsOf(b)), bit)
    {
      HalfShifts(r);
      if r % 2 != 0 {
        r := XorWords(r / 2, POLYNOMIAL);
      } else {
        r := r / 2;
      }
      bit := bit + 1;
    }
  }

  /** `run_crc32`, for a buffer of any length. */
  method RunCrc32(buffer: array<byte>) returns (crc: word)
    ensures BitsOf(crc) == Crc(buffer[..])
    ensures crc == WordOfBits(Crc(buffer[..]))
  {
    crc := ONES;
    var i: nat := 0;
    while i < buffer.Length
      invariant i <= buffer.Length && BitsOf(crc) == Register(BitsOf(ONES), buffer[..], i)
    {
      crc := UpdateByte(crc, buffer[i]);
      i := i + 1;
    }
    crc := XorWords(crc, ONES);
    WordOfItsBits(crc);
  }

  /** The usual form, one table entry a byte: entry `i` of the table is `Steps(BitsOf(i), 8)`. */
  lemma TableForm(crc: bits32, b: byte)
    ensures Update(crc, b) == Xor(Steps(Low(Xor(crc, BitsOf(b)), 8), 8), seq(32, i requires 0 <= i < 32 => i + 8 < 32 && crc[i + 8]))
  {
    var x := Xor(crc, BitsOf(b));
    var high: bits32 := seq(32, i requires 0 <= i < 32 => i >= 8 && crc[i]);
    ByteBits(b);
    assert x == Xor(Low(x, 8), high);
    StepsAreLinear(Low(x, 8), high, 8);
    StepsShift(high, 8);
  }

  /** The low `n` bits. */
  function Low(c: bits32, n: nat): bits32 {
    seq(32, i requires 0 <= i < 32 => i < n && c[i])
  }

  lemma ByteBits(b: byte)
    ensures forall i :: 8 <= i < 32 ==> !BitsOf(b)[i]
  {
    forall i | 8 <= i < 32 ensures !BitsOf(b)[i] {
      assert Power(8) == 256;
      HighBitClear(b, 8, i);
    }
  }

  // ----- bits of a message -----

  /** A message as its bits, each byte's low bit first. */
  function Stream(msg: seq<byte>): (s: seq<bool>)
    ensures |s| == 8 * |msg|
  {
    seq(8 * |msg|, i requires 0 <= i < 8 * |msg| => Bit(msg[i / 8], i % 8))
  }

  function Flip(c: bits32, bit: bool): bits32 {
    c[0 := c[0] != bit]
  }

  /** The register after `n` bits, taken in one at a time. */
  function Feed(c: bits32, s: seq<bool>, n: nat): bits32
    requires n <= |s|
  {
    if n == 0 then c else Step(Flip(Feed(c, s, n - 1), s[n - 1]))
  }

  /** The next `k` bits from position `i`, as a word's low bits. */
  function Window(s: seq<bool>, i: nat, k: nat): bits32
    requires i + k <= |s|
  {
    seq(32, j requires 0 <= j < 32 => j < k && s[i + j])
  }

  /** A single bit at position `k`. */
  function Unit(k: nat, bit: bool): bits32 {
    seq(32, i requires 0 <= i < 32 => bit && i == k)
  }

  lemma WindowGrows(r: bits32, s: seq<bool>, i: nat, k: nat)
    requires i + k < |s| && k < 32
    ensures Xor(Xor(r, Window(s, i, k)), Unit(k, s[i + k])) == Xor(r, Window(s, i, k + 1))
  {
  }

  /** A bit taken in after `k` steps might have been put in, `k` places up, before them. */
  lemma EarlyBit(x: bits32, bit: bool, k: nat)
    requires k < 32
    ensures Flip(Steps(x, k), bit) == Steps(Xor(x, Unit(k, bit)), k)
  {
    StepsShift(Unit(k, bit), k);
    StepsAreLinear(x, Unit(k, bit), k);
    assert Steps(Unit(k, bit), k) == Unit(0, bit);
    assert Flip(Steps(x, k), bit) == Xor(Steps(x, k), Unit(0, bit));
  }

  /** One more bit put in ahead. */
  lemma OneBitFed(c: bits32, s: seq<bool>, i: nat, k: nat)
    requires i + k < |s| && k < 32
    requires Feed(c, s, i + k) == Steps(Xor(Feed(c, s, i), Window(s, i, k)), k)
    ensures Feed(c, s, i + k + 1) == Steps(Xor(Feed(c, s, i), Window(s, i, k + 1)), k + 1)
  {
    WindowGrows(Feed(c, s, i), s, i, k);
    EarlyBit(Xor(Feed(c, s, i), Window(s, i, k)), s[i + k], k);
  }

  lemma EmptyWindow(r: bits32, s: seq<bool>, i: nat)
    requires i <= |s|
    ensures Xor(r, Window(s, i, 0)) == r
  {
  }

  /** Up to 32 bits may be put in all at once, ahead of their steps. */
  lemma {:induction false} FeedWindow(c: bits32, s: seq<bool>, i: nat, k: nat)
    requires i + k <= |s| && k <= 32
    ensures Feed(c, s, i + k) == Steps(Xor(Feed(c, s, i), Window(s, i, k)), k)
    decreases k
  {
    if k == 0 {
      EmptyWindow(Feed(c, s, i), s, i);
    } else {
      FeedWindow(c, s, i, k - 1);
      OneBitFed(c, s, i, k - 1);
    }
  }

  lemma StreamBit(msg: seq<byte>, n: nat, j: nat)
    requires n < |msg| && j < 8
    ensures Stream(msg)[8 * n + j] == Bit(msg[n], j)
  {
    assert (8 * n + j) / 8 == n && (8 * n + j) % 8 == j;
  }

  /** Eight bits of the stream are a byte. */
  lemma ByteWindow(msg: seq<byte>, n: nat)
    requires n < |msg|
    ensures Window(Stream(msg), 8 * n, 8) == BitsOf(msg[n])
  {
    forall j: nat | j < 32 ensures Window(Stream(msg), 8 * n, 8)[j] == BitsOf(msg[n])[j] {
      if j < 8 {
        StreamBit(msg, n, j);
      } else {
        ByteBits(msg[n]);
      }
    }
  }

  lemma OneByteFed(c: bits32, msg: seq<byte>, n: nat, k: nat)
    requires n < |msg| && k == 8 * n && k + 8 <= |Stream(msg)|
    requires Register(c, msg, n) == Feed(c, Stream(msg), k)
    ensures Register(c, msg, n + 1) == Feed(c, Stream(msg), k + 8)
  {
    FeedWindow(c, Stream(msg), k, 8);
    ByteWindow(msg, n);
  }

  /** The byte loop after `n` bytes and the bit loop after `k` bits. */
  lemma {:induction false} RegisterAt(c: bits32, msg: seq<byte>, n: nat, k: nat)
    requires n <= |msg| && k == 8 * n
    ensures k <= |Stream(msg)| && Register(c, msg, n) == Feed(c, Stream(msg), k)
    decreases n
  {
    if n > 0 {
      RegisterAt(c, msg, n - 1, k - 8);
      OneByteFed(c, msg, n - 1, k - 8);
    }
  }

  /** Bytes are their bits: the byte loop and the bit loop give the same register. */
  lemma BytesAreBits(c: bits32, msg: seq<byte>, n: nat)
    requires n <= |msg|
    ensures Register(c, msg, n) == Feed(c, Stream(msg), 8 * n)
  {
    RegisterAt(c, msg, n, 8 * n);
  }

  // ----- four bytes at once -----

  /** The next four bytes as a little-endian word. */
  function NextWord(msg: seq<byte>, n: nat): word
    requires n + 4 <= |msg|
  {
    WordOf(msg[n], msg[n + 1], msg[n + 2], msg[n + 3])
  }

  /** A byte below a number keeps its bits, and the number's come after. */
  lemma ByteBelow(b: byte, high: nat, i: nat)
    ensures Bit(b + 256 * high, i) == if i < 8 then Bit(b, i) else Bit(high, i - 8)
  {
    assert Power(8) == 256;
    LowPart(b, high, 8, i);
  }

  /** Bit `j` of byte `q` of a little-endian word. */
  lemma WordBit(b0: byte, b1: byte, b2: byte, b3: byte, q: nat, j: nat)
    requires q < 4 && j < 8
    ensures Bit(WordOf(b0, b1, b2, b3), 8 * q + j) == Bit([b0, b1, b2, b3][q], j)
  {
    var h2: nat := b2 + 256 * b3;
    var h1: nat := b1 + 256 * h2;
    ByteBelow(b0, h1, 8 * q + j);
    if q > 0 {
      ByteBelow(b1, h2, 8 * (q - 1) + j);
      if q > 1 {
        ByteBelow(b2, b3, 8 * (q - 2) + j);
      }
    }
  }

  lemma StreamBitAt(msg: seq<byte>, m: nat, j: nat, at: nat)
    requires m < |msg| && j < 8 && at == 8 * m + j
    ensures at < |Stream(msg)| && Stream(msg)[at] == Bit(msg[m], j)
  {
    StreamBit(msg, m, j);
  }

  /** Bit `j` of byte `q` of the next word, which is bit `i` of the word and bit `at` of the stream. */
  lemma NextWordBit(msg: seq<byte>, n: nat, q: nat, j: nat, i: nat, at: nat)
    requires n + 4 <= |msg| && q < 4 && j < 8 && i == 8 * q + j && at == 8 * (n + q) + j
    ensures at < |Stream(msg)| && BitsOf(NextWord(msg, n))[i] == Stream(msg)[at]
  {
    WordBit(msg[n], msg[n + 1], msg[n + 2], msg[n + 3], q, j);
    StreamBitAt(msg, n + q, j, at);
    assert [msg[n], msg[n + 1], msg[n + 2], msg[n + 3]][q] == msg[n + q];
  }

  lemma NextWordBits(msg: seq<byte>, n: nat)
    requires n + 4 <= |msg|
    ensures BitsOf(NextWord(msg, n)) == Window(Stream(msg), 8 * n, 32)
  {
    forall i: nat | i < 32 ensures BitsOf(NextWord(msg, n))[i] == Window(Stream(msg), 8 * n, 32)[i] {
      NextWordBit(msg, n, i / 8, i % 8, i, 8 * n + i);
    }
  }

  /** Four bytes are 32 steps on the register xored with their little-endian word. */
  lemma FourBytes(c: bits32, msg: seq<byte>, n: nat)
    requires n + 4 <= |msg|
    ensures Register(c, msg, n + 4) == Steps(Xor(Register(c, msg, n), BitsOf(NextWord(msg, n))), 32)
  {
    NextWordBits(msg, n);
    FourBytesFed(c, msg, n, 8 * n, 32);
  }

  /** The same with the bits of the stream in place of the word; `k` and `count` are positions in bits. */
  lemma FourBytesFed(c: bits32, msg: seq<byte>, n: nat, k: nat, count: nat)
    requires n + 4 <= |msg| && k == 8 * n && count == 32
    ensures Register(c, msg, n + 4) == Steps(Xor(Register(c, msg, n), Window(Stream(msg), k, count)), count)
  {
    RegisterAt(c, msg, n, k);
    RegisterAt(c, msg, n + 4, k + count);
    FeedWindow(c, Stream(msg), k, count);
  }

  // ----- the residue -----

  /** Bit `i` of a machine word. */
  predicate MachineBit(w: bv32, i: nat)
    decreases i
  {
    if i == 0 then w & 1 == 1 else MachineBit(w >> 1, i - 1)
  }

  function MachineBits(w: bv32): bits32 {
    seq(32, i requires 0 <= i < 32 => MachineBit(w, i))
  }

  /** The number that the low `k` bits of a machine word make. */
  function NumberOf(w: bv32, k: nat): nat
    decreases k
  {
    if k == 0 then 0 else (if w & 1 == 1 then 1 else 0) + 2 * NumberOf(w >> 1, k - 1)
  }

  lemma {:induction false} NumberBit(w: bv32, k: nat, i: nat)
    ensures Bit(NumberOf(w, k), i) == (i < k && MachineBit(w, i))
    decreases k
  {
    if k == 0 {
      HighBitClear(0, 0, i);
    } else {
      LowBit(w & 1 == 1, NumberOf(w >> 1, k - 1));
      if i > 0 {
        NumberBit(w >> 1, k - 1, i - 1);
      }
    }
  }

  lemma MachineBitsAre(w: bv32)
    ensures MachineBits(w) == BitsOf(NumberOf(w, 32))
  {
    forall i: nat | i < 32 ensures MachineBits(w)[i] == BitsOf(NumberOf(w, 32))[i] {
      NumberBit(w, 32, i);
    }
  }

  lemma LowBitOfXor(a: bv32, b: bv32)
    ensures MachineBit(a ^ b, 0) == (MachineBit(a, 0) != MachineBit(b, 0))
  {
  }

  lemma NextBit(w: bv32, i: nat)
    ensures MachineBit(w, i + 1) == MachineBit(w >> 1, i)
  {
  }

  lemma SameMachineBit(v: bv32, w: bv32, i: nat)
    requires v == w
    ensures MachineBit(v, i) == MachineBit(w, i)
  {
  }

  lemma RestOfXor(a: bv32, b: bv32, i: nat)
    ensures MachineBit(a ^ b, i + 1) == MachineBit((a >> 1) ^ (b >> 1), i)
  {
    NextBit(a ^ b, i);
    SameMachineBit((a ^ b) >> 1, (a >> 1) ^ (b >> 1), i);
  }

  lemma {:induction false} MachineXor(a: bv32, b: bv32, i: nat)
    ensures MachineBit(a ^ b, i) == (MachineBit(a, i) != MachineBit(b, i))
    decreases i
  {
    if i == 0 {
      LowBitOfXor(a, b);
    } else {
      RestOfXor(a, b, i - 1);
      MachineXor(a >> 1, b >> 1, i - 1);
    }
  }

  /** `m >> i`, one place at a time. */
  function ShiftedDown(m: bv32, i: nat): bv32
    decreases i
  {
    if i == 0 then m else ShiftedDown(m >> 1, i - 1)
  }

  lemma {:induction false} BitIsShifted(w: bv32, i: nat)
    ensures MachineBit(w, i) == (ShiftedDown(w, i) & 1 == 1)
    decreases i
  {
    if i > 0 {
      BitIsShifted(w >> 1, i - 1);
    }
  }

  lemma {:induction false} ShiftsAdd(w: bv32, m: nat, n: nat)
    ensures ShiftedDown(ShiftedDown(w, m), n) == ShiftedDown(w, m + n)
    decreases m
  {
    if m > 0 {
      ShiftsAdd(w >> 1, m - 1, n);
    }
  }

  lemma EightDown(w: bv32)
    ensures ShiftedDown(w, 8) == w >> 8
  {
  }

  lemma NothingAbove(w: bv32)
    ensures ShiftedDown(w, 32) == 0
  {
    ShiftsAdd(w, 8, 24);
    ShiftsAdd(w >> 8, 8, 16);
    ShiftsAdd(w >> 16, 8, 8);
    EightDown(w);
    EightDown(w >> 8);
    EightDown(w >> 16);
    EightDown(w >> 24);
  }

  lemma TopOfHalf(w: bv32)
    ensures !MachineBit(w >> 1, 31)
  {
    NextBit(w, 31);
    BitIsShifted(w, 32);
    NothingAbove(w);
  }

  /** A step and `n` steps of the register, on machine words. */
  function MachineStep(w: bv32): bv32 {
    if w & 1 == 1 then (w >> 1) ^ 0xedb8_8320 else w >> 1
  }

  function MachineSteps(w: bv32, n: nat): bv32 {
    if n == 0 then w else MachineStep(MachineSteps(w, n - 1))
  }

  lemma PolynomialNumber()
    ensures NumberOf(0xedb8_8320, 32) == 0xedb8_8320
  {
    assert NumberOf(0xed, 8) == 0xed;
    assert NumberOf(0xedb8, 16) == 0xedb8;
    assert NumberOf(0xed_b883, 24) == 0xed_b883;
  }

  lemma PolynomialBits()
    ensures MachineBits(0xedb8_8320) == BitsOf(0xedb8_8320)
  {
    MachineBitsAre(0xedb8_8320);
    PolynomialNumber();
  }

  lemma AllOnesNumber()
    ensures NumberOf(0xffff_ffff, 32) == 0xffff_ffff
  {
    assert NumberOf(0xff, 8) == 0xff;
    assert NumberOf(0xffff, 16) == 0xffff;
    assert NumberOf(0xff_ffff, 24) == 0xff_ffff;
  }

  lemma AllOnesBits()
    ensures MachineBits(0xffff_ffff) == BitsOf(0xffff_ffff)
  {
    MachineBitsAre(0xffff_ffff);
    AllOnesNumber();
  }

  lemma ResidueNumber()
    ensures NumberOf(0xdebb_20e3, 32) == 0xdebb_20e3
  {
    assert NumberOf(0xde, 8) == 0xde;
    assert NumberOf(0xdebb, 16) == 0xdebb;
    assert NumberOf(0xde_bb20, 24) == 0xde_bb20;
  }

  lemma ResidueBits()
    ensures MachineBits(0xdebb_20e3) == BitsOf(0xdebb_20e3)
  {
    MachineBitsAre(0xdebb_20e3);
    ResidueNumber();
  }

  lemma ShiftedBit(w: bv32, i: nat)
    requires i < 32
    ensures MachineBit(w >> 1, i) == Shifted(MachineBits(w))[i]
  {
    if i == 31 {
      TopOfHalf(w);
    } else {
      NextBit(w, i);
    }
  }

  lemma MachineStepBit(w: bv32, i: nat)
    ensures MachineBit(MachineStep(w), i)
         == if MachineBit(w, 0) then MachineBit(w >> 1, i) != MachineBit(0xedb8_8320, i) else MachineBit(w >> 1, i)
  {
    MachineXor(w >> 1, 0xedb8_8320, i);
  }

  lemma StepBit(c: bits32, i: nat)
    requires i < 32
    ensures Step(c)[i] == if c[0] then Shifted(c)[i] != BitsOf(POLYNOMIAL)[i] else Shifted(c)[i]
  {
  }

  lemma MachineStepIs(w: bv32)
    ensures MachineBits(MachineStep(w)) == Step(MachineBits(w))
  {
    PolynomialBits();
    forall i: nat | i < 32 ensures MachineBits(MachineStep(w))[i] == Step(MachineBits(w))[i] {
      MachineStepBit(w, i);
      StepBit(MachineBits(w), i);
      ShiftedBit(w, i);
      assert MachineBits(0xedb8_8320)[i] == MachineBit(0xedb8_8320, i);
    }
  }

  lemma {:induction false} MachineStepsAre(w: bv32, n: nat)
    ensures MachineBits(MachineSteps(w, n)) == Steps(MachineBits(w), n)
  {
    if n > 0 {
      MachineStepsAre(w, n - 1);
      MachineStepIs(MachineSteps(w, n - 1));
    }
  }

  lemma {:induction false} MachineStepsAdd(w: bv32, m: nat, n: nat)
    ensures MachineSteps(MachineSteps(w, m), n) == MachineSteps(w, m + n)
  {
    if n > 0 {
      MachineStepsAdd(w, m, n - 1);
    }
  }

  lemma ThirtyTwoSteps()
    ensures MachineSteps(0xffff_ffff, 32) == 0xdebb_20e3
  {
    MachineStepsAdd(0xffff_ffff, 8, 8);
    MachineStepsAdd(0xffff_ffff, 16, 8);
    MachineStepsAdd(0xffff_ffff, 24, 8);
    assert MachineSteps(0xffff_ffff, 8) == 0x2dfd_1072;
    assert MachineSteps(0x2dfd_1072, 8) == 0xbe26_ed00;
    assert MachineSteps(0xbe26_ed00, 8) == 0x00be_26ed;
    assert MachineSteps(0x00be_26ed, 8) == 0xdebb_20e3;
  }

  lemma OnesBecomeResidue()
    ensures Steps(BitsOf(0xffff_ffff), 32) == BitsOf(0xdebb_20e3)
  {
    AllOnesBits();
    ResidueBits();
    ThirtyTwoSteps();
    MachineStepsAre(0xffff_ffff, 32);
  }

  lemma {:induction false} SameRegister(c: bits32, a: seq<byte>, b: seq<byte>, n: nat)
    requires n <= |a|
    ensures Register(c, a + b, n) == Register(c, a, n)
  {
    if n > 0 {
      SameRegister(c, a, b, n - 1);
    }
  }

  /** A message with its CRC behind it, low byte first. */
  function Sent(msg: seq<byte>): seq<byte> {
    msg + Pack([WordOfBits(Crc(msg))])
  }

  lemma SentWord(msg: seq<byte>)
    ensures |Sent(msg)| == |msg| + 4 && BitsOf(NextWord(Sent(msg), |msg|)) == Crc(msg)
  {
    var w := WordOfBits(Crc(msg));
    PackedAt([w], 0, 0);
    PackedAt([w], 0, 1);
    PackedAt([w], 0, 2);
    PackedAt([w], 0, 3);
    WordOfBytes(w);
    BitsOfWordOfBits(Crc(msg));
  }

  /**
   * What a receiver checks: every message followed by its CRC leaves the same
   * register, started at all ones and not inverted at the end.
   */
  lemma ResidueLaw(msg: seq<byte>)
    ensures var sent := msg + Pack([WordOfBits(Crc(msg))]);
      Register(BitsOf(0xffff_ffff), sent, |sent|) == BitsOf(0xdebb_20e3)
  {
    var o := BitsOf(0xffff_ffff);
    SentWord(msg);
    FourBytes(o, Sent(msg), |msg|);
    SameRegister(o, msg, Pack([WordOfBits(Crc(msg))]), |msg|);
    var r := Register(o, msg, |msg|);
    assert Xor(r, Xor(r, o)) == o;
    OnesBecomeResidue();
  }

  // ----- what it detects -----

  /** Two bit streams of one length differ, and only within `k` bits from `i`. */
  predicate DifferWithin(a: seq<bool>, b: seq<bool>, i: nat, k: nat) {
    |a| == |b| && a != b && forall j :: 0 <= j < |a| && !(i <= j < i + k) ==> a[j] == b[j]
  }

  lemma {:induction false} SameFeed(c: bits32, a: seq<bool>, b: seq<bool>, n: nat)
    requires n <= |a| && n <= |b| && forall j :: 0 <= j < n ==> a[j] == b[j]
    ensures Feed(c, a, n) == Feed(c, b, n)
  {
    if n > 0 {
      SameFeed(c, a, b, n - 1);
    }
  }

  /** Different registers stay different over equal bits. */
  lemma {:induction false} FeedKeepsDifference(c: bits32, a: seq<bool>, b: seq<bool>, n: nat, m: nat)
    requires n <= m <= |a| == |b| && (forall j :: n <= j < m ==> a[j] == b[j])
    requires Feed(c, a, n) != Feed(c, b, n)
    ensures Feed(c, a, m) != Feed(c, b, m)
    decreases m
  {
    if n < m {
      FeedKeepsDifference(c, a, b, n, m - 1);
      var x, y := Feed(c, a, m - 1), Feed(c, b, m - 1);
      var bit := a[m - 1];
      assert x == Flip(Flip(x, bit), bit) && y == Flip(Flip(y, bit), bit);
      StepInverts(Flip(x, bit));
      StepInverts(Flip(y, bit));
    }
  }

  /** A change confined to 32 consecutive bits always changes the register. */
  lemma BurstChangesRegister(c: bits32, a: seq<bool>, b: seq<bool>, i: nat)
    requires DifferWithin(a, b, i, 32)
    ensures Feed(c, a, |a|) != Feed(c, b, |b|)
  {
    var j := DifferentAt(a, b, i, 32);
    BurstInWindow(c, a, b, i, if i + 32 <= |a| then 32 else |a| - i, j);
  }

  /** A bit in which the streams differ. */
  lemma DifferentAt(a: seq<bool>, b: seq<bool>, i: nat, k: nat) returns (j: nat)
    requires DifferWithin(a, b, i, k)
    ensures i <= j < i + k && j < |a| && a[j] != b[j]
  {
    j :| 0 <= j < |a| && a[j] != b[j];
  }

  lemma BurstInWindow(c: bits32, a: seq<bool>, b: seq<bool>, i: nat, k: nat, j: nat)
    requires i <= j < i + k <= |a| == |b| && k <= 32 && a[j] != b[j]
    requires forall m :: 0 <= m < |a| && !(i <= m < i + k) ==> a[m] == b[m]
    ensures Feed(c, a, |a|) != Feed(c, b, |b|)
  {
    SameFeed(c, a, b, i);
    WindowChangesRegister(c, a, b, i, k, j - i);
    FeedKeepsDifference(c, a, b, i + k, |a|);
  }

  lemma WindowChangesRegister(c: bits32, a: seq<bool>, b: seq<bool>, i: nat, k: nat, j: nat)
    requires i + k <= |a| == |b| && j < k <= 32 && a[i + j] != b[i + j]
    requires Feed(c, a, i) == Feed(c, b, i)
    ensures Feed(c, a, i + k) != Feed(c, b, i + k)
  {
    FeedWindow(c, a, i, k);
    FeedWindow(c, b, i, k);
    WindowsDiffer(Feed(c, a, i), a, b, i, k, j);
  }

  lemma WindowsDiffer(r: bits32, a: seq<bool>, b: seq<bool>, i: nat, k: nat, j: nat)
    requires i + k <= |a| == |b| && j < k <= 32 && a[i + j] != b[i + j]
    ensures Steps(Xor(r, Window(a, i, k)), k) != Steps(Xor(r, Window(b, i, k)), k)
  {
    var x, y := Xor(r, Window(a, i, k)), Xor(r, Window(b, i, k));
    assert x[j] != y[j];
    if Steps(x, k) == Steps(y, k) {
      StepsAreInjective(x, y, k);
    }
  }

  /**
   * The detection bound: two messages of one length that differ within any 32
   * consecutive bits have different CRCs.
   */
  lemma BurstDetected(a: seq<byte>, b: seq<byte>, i: nat)
    requires DifferWithin(Stream(a), Stream(b), i, 32)
    ensures Crc(a) != Crc(b)
  {
    assert |a| == |b|;
    BytesAreBits(BitsOf(ONES), a, |a|);
    BytesAreBits(BitsOf(ONES), b, |b|);
    BurstChangesRegister(BitsOf(ONES), Stream(a), Stream(b), i);
    var x, y := Register(BitsOf(ONES), a, |a|), Register(BitsOf(ONES), b, |b|);
    assert Xor(Xor(x, BitsOf(ONES)), BitsOf(ONES)) == x && Xor(Xor(y, BitsOf(ONES)), BitsOf(ONES)) == y;
  }

  lemma StreamsDiffer(a: seq<byte>, b: seq<byte>, n: nat)
    requires |a| == |b| && n < |a| && a[n] != b[n]
    ensures Stream(a) != Stream(b)
  {
    if Stream(a) == Stream(b) {
      assert Power(8) == 256;
      forall j: nat | j < 8 ensures Bit(a[n], j) == Bit(b[n], j) {
        StreamBit(a, n, j);
        StreamBit(b, n, j);
      }
      SameBits(a[n], b[n], 8);
    }
  }

  /** In particular, messages that differ only in four consecutive bytes have different CRCs. */
  lemma FourByteChangeDetected(a: seq<byte>, b: seq<byte>, n: nat)
    requires |a| == |b| && a != b
    requires forall j :: 0 <= j < |a| && !(n <= j < n + 4) ==> a[j] == b[j]
    ensures Crc(a) != Crc(b)
  {
    var m :| 0 <= m < |a| && a[m] != b[m];
    StreamsDiffer(a, b, m);
    forall j | 0 <= j < |Stream(a)| && !(8 * n <= j < 8 * n + 32) ensures Stream(a)[j] == Stream(b)[j] {
      assert !(n <= j / 8 < n + 4);
    }
    BurstDetected(a, b, 8 * n);
  }

  /** The stream with the generator polynomial's 33 bits flipped into it at `i`. */
  function Disturbed(s: seq<bool>, i: nat): seq<bool>
    requires i + 33 <= |s|
  {
    seq(|s|, j requires 0 <= j < |s| =>
      if j == i then !s[j] else if i < j <= i + 32 then s[j] != BitsOf(POLYNOMIAL)[j - i - 1] else s[j])
  }

  lemma DisturbedWithin(s: seq<bool>, i: nat)
    requires i + 33 <= |s|
    ensures DifferWithin(s, Disturbed(s, i), i, 33)
  {
    assert s[i] != Disturbed(s, i)[i];
  }

  lemma DisturbedWindow(s: seq<bool>, i: nat)
    requires i + 33 <= |s|
    ensures Window(Disturbed(s, i), i + 1, 32) == Xor(Window(s, i + 1, 32), BitsOf(POLYNOMIAL))
  {
  }

  lemma XorTwice(x: bits32, w: bits32, p: bits32)
    ensures Xor(Xor(x, p), Xor(w, p)) == Xor(x, w)
  {
  }

  /** The bound is exact: 33 bits can hide a change, wherever they lie. */
  lemma ThirtyThreeBitsCanHide(c: bits32, s: seq<bool>, i: nat)
    requires i + 33 <= |s|
    ensures DifferWithin(s, Disturbed(s, i), i, 33)
    ensures Feed(c, s, i + 33) == Feed(c, Disturbed(s, i), i + 33)
  {
    var t := Disturbed(s, i);
    DisturbedWithin(s, i);
    SameFeed(c, s, t, i);
    FirstDisturbed(Feed(c, s, i), s[i]);
    FeedWindow(c, s, i + 1, 32);
    FeedWindow(c, t, i + 1, 32);
    DisturbedWindow(s, i);
    XorTwice(Feed(c, s, i + 1), Window(s, i + 1, 32), BitsOf(POLYNOMIAL));
  }

  /** The bytes of a stream of whole bytes. */
  function Bytes(s: seq<bool>): (msg: seq<byte>)
    requires |s| % 8 == 0
    ensures |s| == 8 * |msg|
  {
    seq(|s| / 8, n requires 0 <= n < |s| / 8 => ByteAt(s, n))
  }

  function ByteAt(s: seq<bool>, n: nat): byte
    requires 8 * n + 8 <= |s|
  {
    ValueFits(s[8 * n..8 * n + 8], 0);
    assert Power(8) == 256;
    Value(s[8 * n..8 * n + 8], 0)
  }

  lemma ByteAtBit(s: seq<bool>, n: nat, j: nat)
    requires 8 * n + 8 <= |s| && j < 8
    ensures Bit(ByteAt(s, n), j) == s[8 * n + j]
  {
    BitOfValue(s[8 * n..8 * n + 8], 0, j);
  }

  /** Every stream of whole bytes is that of a message. */
  lemma StreamOfBytes(s: seq<bool>)
    requires |s| % 8 == 0
    ensures Stream(Bytes(s)) == s
  {
    forall i: nat | i < |s| ensures Stream(Bytes(s))[i] == s[i] {
      ByteAtBit(s, i / 8, i % 8);
    }
  }

  /** Equal registers stay equal over equal bits. */
  lemma {:induction false} FeedKeepsEquality(c: bits32, a: seq<bool>, b: seq<bool>, n: nat, m: nat)
    requires n <= m <= |a| == |b| && (forall j :: n <= j < m ==> a[j] == b[j])
    requires Feed(c, a, n) == Feed(c, b, n)
    ensures Feed(c, a, m) == Feed(c, b, m)
    decreases m
  {
    if n < m {
      FeedKeepsEquality(c, a, b, n, m - 1);
    }
  }

  /** The message with the generator polynomial flipped into it, from bit `i` on. */
  function DisturbedMessage(a: seq<byte>, i: nat): seq<byte>
    requires i + 33 <= 8 * |a|
  {
    Bytes(Disturbed(Stream(a), i))
  }

  /**
   * So the detection bound is exact: every message, at every place with room for
   * 33 bits, can be changed within them and keep its CRC.
   */
  lemma ThirtyThreeBitsCanKeepCrc(a: seq<byte>, i: nat)
    requires i + 33 <= 8 * |a|
    ensures DifferWithin(Stream(a), Stream(DisturbedMessage(a, i)), i, 33)
    ensures DisturbedMessage(a, i) != a && Crc(DisturbedMessage(a, i)) == Crc(a)
  {
    var s, t := Stream(a), Disturbed(Stream(a), i);
    StreamOfBytes(t);
    DisturbedWithin(s, i);
    DisturbedToTheEnd(BitsOf(ONES), s, i);
    SameCrc(a, DisturbedMessage(a, i));
  }

  lemma DisturbedToTheEnd(c: bits32, s: seq<bool>, i: nat)
    requires i + 33 <= |s|
    ensures Feed(c, s, |s|) == Feed(c, Disturbed(s, i), |s|)
  {
    ThirtyThreeBitsCanHide(c, s, i);
    FeedKeepsEquality(c, s, Disturbed(s, i), i + 33, |s|);
  }

  lemma SameCrc(a: seq<byte>, b: seq<byte>)
    requires |a| == |b| && Feed(BitsOf(ONES), Stream(a), |Stream(a)|) == Feed(BitsOf(ONES), Stream(b), |Stream(b)|)
    ensures Crc(a) == Crc(b)
  {
    BytesAreBits(BitsOf(ONES), a, |a|);
    BytesAreBits(BitsOf(ONES), b, |b|);
  }

  /** One flipped bit adds the polynomial to the register. */
  lemma FirstDisturbed(r: bits32, bit: bool)
    ensures Step(Flip(r, !bit)) == Xor(Step(Flip(r, bit)), BitsOf(POLYNOMIAL))
  {
    assert Flip(r, !bit) == Xor(Flip(r, bit), Unit(0, true));
    StepIsLinear(Flip(r, bit), Unit(0, true));
    assert Step(Unit(0, true)) == BitsOf(POLYNOMIAL);
  }

  // ----- the affine law -----

  function XorBytes(a: seq<byte>, b: seq<byte>): (r: seq<byte>)
    requires |a| == |b|
    ensures |r| == |a|
  {
    seq(|a|, i requires 0 <= i < |a| => XorByte(a[i], b[i]))
  }

  function XorByte(a: byte, b: byte): (r: byte)
    ensures BitsOf(r) == Xor(BitsOf(a), BitsOf(b))
  {
    ByteBits(a);
    ByteBits(b);
    SmallWord(XorWords(a, b));
    XorWords(a, b)
  }

  /** A word with no bit from 8 up is a byte. */
  lemma SmallWord(w: word)
    requires forall i :: 8 <= i < 32 ==> !BitsOf(w)[i]
    ensures w < 256
  {
    PowerOfWord();
    assert Power(8) == 256;
    var m: nat := w % 256;
    forall i: nat | i < 32 ensures Bit(w, i) == Bit(m, i) {
      BitOfRemainder(w, 8, w / 256, m, i);
      assert BitsOf(w)[i] == Bit(w, i);
    }
    SameBits(w, m, 32);
  }

  lemma {:induction false} RegisterIsLinear(c: bits32, d: bits32, a: seq<byte>, b: seq<byte>, n: nat)
    requires |a| == |b| && n <= |a|
    ensures Register(Xor(c, d), XorBytes(a, b), n) == Xor(Register(c, a, n), Register(d, b, n))
  {
    if n > 0 {
      RegisterIsLinear(c, d, a, b, n - 1);
      var x, y := Register(c, a, n - 1), Register(d, b, n - 1);
      var p, q := BitsOf(a[n - 1]), BitsOf(b[n - 1]);
      assert Xor(Xor(x, y), Xor(p, q)) == Xor(Xor(x, p), Xor(y, q));
      StepsAreLinear(Xor(x, p), Xor(y, q), 8);
    }
  }

  /** The CRC is affine: of three messages of one length, the CRCs add up as the messages do. */
  lemma CrcIsAffine(a: seq<byte>, b: seq<byte>, c: seq<byte>)
    requires |a| == |b| == |c|
    ensures Crc(XorBytes(XorBytes(a, b), c)) == Xor(Xor(Crc(a), Crc(b)), Crc(c))
  {
    var o := BitsOf(ONES);
    RegisterIsLinear(o, o, a, b, |a|);
    RegisterIsLinear(Xor(o, o), o, XorBytes(a, b), c, |a|);
    assert Xor(Xor(o, o), o) == o;
    var x, y, z := Register(o, a, |a|), Register(o, b, |a|), Register(o, c, |a|);
    assert Xor(Xor(Xor(x, y), z), o) == Xor(Xor(Xor(x, o), Xor(y, o)), Xor(z, o));
  }
}
