// The hex codec of `gdb_packet.c`: 32-bit words as eight digits, low byte
// first, and numbers as one to eight digits, high digit first.
module GdbHex {
  import opened Words
  import opened GdbPacket

  predicate AllHex(s: seq<byte>) {
    forall i :: 0 <= i < |s| ==> IsHex(s[i])
  }

  /** The same digits in lower case. */
  function Lower(s: seq<byte>): (l: seq<byte>)
    requires AllHex(s)
    ensures |l| == |s| && forall i :: 0 <= i < |s| ==> l[i] == LowerDigit(s[i])
  {
    seq(|s|, i requires 0 <= i < |s| => LowerDigit(s[i]))
  }

  /** A byte as two lower-case digits. */
  function HexByte(b: byte): (s: seq<byte>)
    ensures |s| == 2 && AllHex(s)
  {
    [HexDigit(b / 16), HexDigit(b % 16)]
  }

  /** The byte two digits stand for. */
  function UnhexByte(high: byte, low: byte): byte
    requires IsHex(high) && IsHex(low)
  {
    16 * HexNibble(high) + HexNibble(low)
  }

  lemma HexByteRoundTrip(b: byte)
    ensures UnhexByte(HexByte(b)[0], HexByte(b)[1]) == b
  {
  }

  lemma UnhexByteRoundTrip(high: byte, low: byte)
    requires IsHex(high) && IsHex(low)
    ensures HexByte(UnhexByte(high, low)) == [LowerDigit(high), LowerDigit(low)]
  {
    var n, m := HexNibble(high), HexNibble(low);
    assert (16 * n + m) / 16 == n && (16 * n + m) % 16 == m;
  }

  // ----- data of any length -----

  /** Bytes as digits, two for each. */
  function HexOf(data: seq<byte>): (s: seq<byte>)
    ensures |s| == 2 * |data| && AllHex(s)
  {
    if data == [] then [] else HexOf(data[..|data| - 1]) + HexByte(data[|data| - 1])
  }

  /** The bytes that pairs of digits stand for. */
  function Unhex(s: seq<byte>): (data: seq<byte>)
    requires |s| % 2 == 0 && AllHex(s)
    ensures |data| == |s| / 2
  {
    if s == [] then [] else Unhex(s[..|s| - 2]) + [UnhexByte(s[|s| - 2], s[|s| - 1])]
  }

  lemma LowerOfMore(s: seq<byte>, high: byte, low: byte)
    requires AllHex(s) && IsHex(high) && IsHex(low)
    ensures AllHex(s + [high, low]) && Lower(s + [high, low]) == Lower(s) + [LowerDigit(high), LowerDigit(low)]
  {
  }

  /** Digits written back are the same digits in lower case. */
  lemma {:induction false} HexOfUnhex(s: seq<byte>)
    requires |s| % 2 == 0 && AllHex(s)
    ensures HexOf(Unhex(s)) == Lower(s)
  {
    if s != [] {
      var init, high, low := s[..|s| - 2], s[|s| - 2], s[|s| - 1];
      HexOfUnhex(init);
      UnhexByteRoundTrip(high, low);
      LowerOfMore(init, high, low);
      assert s == init + [high, low];
      assert Unhex(s)[..|Unhex(s)| - 1] == Unhex(init);
    }
  }

  // ----- words, low byte first -----

  /** A 32-bit word as eight lower-case digits. */
  function HexLe(v: word): (s: seq<byte>)
    ensures |s| == 8 && AllHex(s)
  {
    HexByte(ByteOf(v, 0)) + HexByte(ByteOf(v, 1)) + HexByte(ByteOf(v, 2)) + HexByte(ByteOf(v, 3))
  }

  /** The word that eight digits stand for. */
  function UnhexLe(s: seq<byte>): word
    requires |s| == 8 && AllHex(s)
  {
    WordOf(UnhexByte(s[0], s[1]), UnhexByte(s[2], s[3]), UnhexByte(s[4], s[5]), UnhexByte(s[6], s[7]))
  }

  lemma UnhexHexLe(v: word)
    ensures UnhexLe(HexLe(v)) == v
  {
    HexByteRoundTrip(ByteOf(v, 0));
    HexByteRoundTrip(ByteOf(v, 1));
    HexByteRoundTrip(ByteOf(v, 2));
    HexByteRoundTrip(ByteOf(v, 3));
    WordOfBytes(v);
  }

  lemma HexUnhexLe(s: seq<byte>)
    requires |s| == 8 && AllHex(s)
    ensures HexLe(UnhexLe(s)) == Lower(s)
  {
    BytesOfWord(UnhexByte(s[0], s[1]), UnhexByte(s[2], s[3]), UnhexByte(s[4], s[5]), UnhexByte(s[6], s[7]));
    UnhexByteRoundTrip(s[0], s[1]);
    UnhexByteRoundTrip(s[2], s[3]);
    UnhexByteRoundTrip(s[4], s[5]);
    UnhexByteRoundTrip(s[6], s[7]);
  }

  /** `value >> (8 * index)`, as a number. */
  function ShiftBytes(value: nat, index: nat): nat {
    if index == 0 then value else ShiftBytes(value / 256, index - 1)
  }

  lemma {:induction false} ByteIsShifted(value: nat, index: nat)
    ensures ShiftBytes(value, index) % 256 == ByteOf(value, index)
  {
    if index > 0 {
      ByteIsShifted(value / 256, index - 1);
    }
  }

  lemma {:induction false} ShiftOneMore(value: nat, index: nat)
    ensures ShiftBytes(value, index + 1) == ShiftBytes(value, index) / 256
  {
    if index > 0 {
      ShiftOneMore(value / 256, index - 1);
    }
  }

  /** `gdb_encode_u32_le`. */
  method EncodeU32Le(output: array<byte>, value: word)
    requires output.Length == 9
    modifies output
    ensures output[..8] == HexLe(value) && output[8] == 0
  {
    var shifted: nat := value;
    var index := 0;
    ghost var digits := HexLe(value);
    while index < 4
      invariant 0 <= index <= 4 && shifted == ShiftBytes(value, index)
      invariant forall i :: 0 <= i < 2 * index ==> output[i] == digits[i]
    {
      var b := shifted % 256;
      output[index * 2] := HexDigit(b / 16);
      output[index * 2 + 1] := HexDigit(b % 16);
      ByteIsShifted(value, index);
      ShiftOneMore(value, index);
      HexLePair(value, index);
      shifted := shifted / 256;
      index := index + 1;
    }
    output[8] := 0;
  }

  lemma HexLePair(value: word, index: nat)
    requires index < 4
    ensures [HexLe(value)[2 * index], HexLe(value)[2 * index + 1]] == HexByte(ByteOf(value, index))
  {
  }

  /** The value of the first `n` bytes of eight digits. */
  function PartialLe(s: seq<byte>, n: nat): nat
    requires |s| == 8 && AllHex(s) && n <= 4
  {
    if n == 0 then 0 else PartialLe(s, n - 1) + UnhexByte(s[2 * n - 2], s[2 * n - 1]) * Scale(n - 1)
  }

  /** `1 << (8 * index)`. */
  function Scale(index: nat): nat {
    match index case 0 => 1 case 1 => 0x100 case 2 => 0x1_0000 case _ => 0x100_0000
  }

  lemma PartialIsWhole(s: seq<byte>)
    requires |s| == 8 && AllHex(s)
    ensures PartialLe(s, 4) == UnhexLe(s)
  {
    assert PartialLe(s, 1) == UnhexByte(s[0], s[1]);
    assert PartialLe(s, 2) == PartialLe(s, 1) + UnhexByte(s[2], s[3]) * 0x100;
    assert PartialLe(s, 3) == PartialLe(s, 2) + UnhexByte(s[4], s[5]) * 0x1_0000;
  }

  /** `gdb_decode_u32_le`; or-ing bytes into distinct places adds them. */
  method DecodeU32Le(input: seq<byte>) returns (ok: bool, value: word)
    requires |input| == 8
    ensures ok <==> AllHex(input)
    ensures ok ==> value == UnhexLe(input)
  {
    var decoded: nat := 0;
    var index := 0;
    while index < 4
      invariant 0 <= index <= 4
      invariant forall i :: 0 <= i < 2 * index ==> IsHex(input[i])
      invariant AllHex(input) ==> decoded == PartialLe(input, index)
    {
      var high, low := HexNibble(input[index * 2]), HexNibble(input[index * 2 + 1]);
      if high < 0 || low < 0 {
        return false, 0;
      }
      var b := high * 16 + low;
      decoded := decoded + b * Scale(index);
      index := index + 1;
    }
    assert AllHex(input);
    PartialIsWhole(input);
    return true, decoded;
  }

  // ----- numbers, high digit first -----

  /** The value of digits, high digit first. */
  function HexNumber(s: seq<byte>): nat
    requires AllHex(s)
  {
    if s == [] then 0 else 16 * HexNumber(s[..|s| - 1]) + HexNibble(s[|s| - 1])
  }

  function Sixteens(n: nat): nat {
    if n == 0 then 1 else 16 * Sixteens(n - 1)
  }

  lemma {:induction false} HexNumberBound(s: seq<byte>)
    requires AllHex(s)
    ensures HexNumber(s) < Sixteens(|s|)
  {
    if s != [] {
      HexNumberBound(s[..|s| - 1]);
    }
  }

  lemma {:induction false} SixteensGrow(n: nat, m: nat)
    requires n <= m
    ensures 1 <= Sixteens(n) <= Sixteens(m)
  {
    if n < m {
      SixteensGrow(n, m - 1);
    } else if n > 0 {
      SixteensGrow(n - 1, n - 1);
    }
  }

  /** One to eight digits. */
  predicate IsNumber(s: seq<byte>) {
    1 <= |s| <= 8 && AllHex(s)
  }

  lemma NumberFits(s: seq<byte>)
    requires IsNumber(s)
    ensures HexNumber(s) < WORD_MODULUS
  {
    HexNumberBound(s);
    SixteensGrow(|s|, 8);
    assert Sixteens(8) == 16 * Sixteens(7) == 256 * Sixteens(6) == 0x1000 * Sixteens(5) == 0x1_0000 * Sixteens(4);
    assert Sixteens(4) == 16 * Sixteens(3) == 256 * Sixteens(2) == 0x1000 * Sixteens(1);
  }

  /** The first digit counts most: by position, as numbers are written. */
  lemma {:induction false} HighDigitFirst(d: byte, s: seq<byte>)
    requires IsHex(d) && AllHex(s)
    ensures AllHex([d] + s) && HexNumber([d] + s) == HexNibble(d) * Sixteens(|s|) + HexNumber(s)
  {
    assert AllHex([d] + s);
    if s == [] {
      assert ([d] + s)[..0] == [];
    } else {
      var init, last := s[..|s| - 1], s[|s| - 1];
      assert ([d] + s)[..|s|] == [d] + init && ([d] + s)[|s|] == last;
      HighDigitFirst(d, init);
      OneDigitMore(HexNibble(d), Sixteens(|init|), HexNumber(init), HexNibble(last));
    }
  }

  lemma OneDigitMore(n: int, scale: int, rest: int, last: int)
    ensures 16 * (n * scale + rest) + last == n * (16 * scale) + (16 * rest + last)
  {
  }

  /** Nibbles are written with the digits 0 to 9 and a to f, bytes with two of them, high one first. */
  lemma BytesAreWritten(b: byte)
    ensures HexByte(b) == ["0123456789abcdef"[b / 16] as int, "0123456789abcdef"[b % 16] as int]
    ensures HexNumber(HexByte(b)) == b
  {
    DigitIs(b / 16);
    DigitIs(b % 16);
    var s := HexByte(b);
    assert s[..1] == [HexDigit(b / 16)] && s[..1][..0] == [];
    assert HexNumber([]) == 0;
    assert HexNumber(s[..1]) == b / 16;
  }

  lemma DigitIs(n: nat)
    requires n < 16
    ensures HexDigit(n) == "0123456789abcdef"[n] as int
  {
  }

  /** A digit is read in either case, and nothing else is. */
  lemma DigitsRead(ch: byte)
    ensures IsHex(ch) <==> exists n :: 0 <= n < 16 && IsDigit(ch, n)
    ensures forall n :: 0 <= n < 16 && IsDigit(ch, n) ==> HexNibble(ch) == n
  {
    forall n | 0 <= n < 16 && IsDigit(ch, n) ensures HexNibble(ch) == n {
      DigitNibble(ch, n);
    }
    if IsHex(ch) {
      NibbleDigit(ch);
    }
  }

  predicate IsDigit(ch: byte, n: nat)
    requires n < 16
  {
    ch == "0123456789abcdef"[n] as int || ch == "0123456789ABCDEF"[n] as int
  }

  lemma DigitNibble(ch: byte, n: nat)
    requires n < 16 && IsDigit(ch, n)
    ensures HexNibble(ch) == n
  {
  }

  lemma NibbleDigit(ch: byte)
    requires IsHex(ch)
    ensures IsDigit(ch, HexNibble(ch))
  {
  }

  /** Each byte has its two digits at its place. */
  lemma {:induction false} HexOfAt(data: seq<byte>, k: nat)
    requires k < |data|
    ensures HexOf(data)[2 * k..2 * k + 2] == HexByte(data[k])
  {
    var init := data[..|data| - 1];
    if k < |init| {
      HexOfAt(init, k);
      assert HexOf(data)[2 * k..2 * k + 2] == HexOf(init)[2 * k..2 * k + 2];
    } else {
      assert HexOf(data)[2 * k..2 * k + 2] == HexByte(data[k]);
    }
  }

  /** A register is written as its bytes lie in memory, low byte first. */
  lemma RegisterAsMemory(v: word)
    ensures HexLe(v) == HexOf(Pack([v]))
  {
    var data := Pack([v]);
    PackedAt([v], 0, 0);
    PackedAt([v], 0, 1);
    PackedAt([v], 0, 2);
    PackedAt([v], 0, 3);
    assert data[..3][..2] == data[..2] && data[..2][..1] == data[..1];
    assert data[..4] == data;
    HexOfFour(data);
  }

  lemma HexOfFour(data: seq<byte>)
    requires |data| == 4
    ensures HexOf(data) == HexByte(data[0]) + HexByte(data[1]) + HexByte(data[2]) + HexByte(data[3])
  {
    assert data[..3][..2] == data[..2] && data[..2][..1] == data[..1] && data[..1][..0] == [];
    assert HexOf(data[..1]) == HexByte(data[0]);
    assert HexOf(data[..2]) == HexOf(data[..1]) + HexByte(data[1]);
    assert HexOf(data[..3]) == HexOf(data[..2]) + HexByte(data[2]);
  }

  function ParseHex(s: seq<byte>): Option<word> {
    if IsNumber(s) then (NumberFits(s); Some(HexNumber(s))) else None
  }

  /** `gdb_parse_hex_u32`: the shift is a 32-bit shift, but never loses a digit. */
  method ParseHexU32(text: seq<byte>) returns (ok: bool, value: word)
    ensures ok <==> IsNumber(text)
    ensures ok ==> ParseHex(text) == Some(value)
  {
    if |text| == 0 || |text| > 8 {
      return false, 0;
    }
    var parsed: word := 0;
    for index := 0 to |text|
      invariant AllHex(text[..index]) && parsed == HexNumber(text[..index])
    {
      var nibble := HexNibble(text[index]);
      if nibble < 0 {
        return false, 0;
      }
      var more := text[..index + 1];
      assert more[..index] == text[..index];
      assert AllHex(more) by {
        assert forall i :: 0 <= i < index ==> more[i] == text[..index][i];
      }
      NumberFits(more);
      parsed := (parsed * 16) % WORD_MODULUS + nibble;
    }
    assert text[..|text|] == text;
    return true, parsed;
  }
}
