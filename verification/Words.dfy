// 32-bit words, bytes and their little-endian packing: the data every other
// module of the model is made of.
module Words {
  const WORD_MODULUS: int := 0x1_0000_0000

  type byte = x: int | 0 <= x < 256
  type word = x: int | 0 <= x < WORD_MODULUS

  datatype Option<+T> = None | Some(value: T)

  /** True when a Python integer fits the `I` format of `struct.pack`. */
  predicate FitsWord(x: int) {
    0 <= x < WORD_MODULUS
  }

  /** Byte `k` of a number, least significant first. */
  function ByteOf(w: nat, k: nat): (b: byte) {
    if k == 0 then w % 256 else ByteOf(w / 256, k - 1)
  }

  function WordOf(b0: byte, b1: byte, b2: byte, b3: byte): word {
    b0 + 256 * (b1 + 256 * (b2 + 256 * b3))
  }

  /** `struct.pack("<nI", *ws)`. */
  function Pack(ws: seq<word>): (data: seq<byte>)
    ensures |data| == 4 * |ws|
  {
    seq(4 * |ws|, i requires 0 <= i < 4 * |ws| => ByteOf(ws[i / 4], i % 4))
  }

  /** `struct.unpack("<nI", data)`. */
  function Unpack(data: seq<byte>): (ws: seq<word>)
    requires |data| % 4 == 0
    ensures |ws| == |data| / 4
  {
    seq(|data| / 4, i requires 0 <= i < |data| / 4 =>
      WordOf(data[4 * i], data[4 * i + 1], data[4 * i + 2], data[4 * i + 3]))
  }

  /** A byte put below a number comes off again. */
  lemma LowByte(b: byte, high: nat)
    ensures (b + 256 * high) % 256 == b && (b + 256 * high) / 256 == high
  {
  }

  /** Splitting the lowest byte off. */
  lemma SplitByte(w: nat)
    ensures w == ByteOf(w, 0) + 256 * (w / 256)
  {
  }

  /** The four bytes of a word make it up. */
  lemma WordOfBytes(w: word)
    ensures WordOf(ByteOf(w, 0), ByteOf(w, 1), ByteOf(w, 2), ByteOf(w, 3)) == w
  {
    var w1: nat := w / 256;
    var w2: nat := w1 / 256;
    var w3: nat := w2 / 256;
    SplitByte(w);
    SplitByte(w1);
    SplitByte(w2);
    assert ByteOf(w3, 0) == w3;
  }

  /** The word made of four bytes has those bytes. */
  lemma BytesOfWord(b0: byte, b1: byte, b2: byte, b3: byte)
    ensures var w := WordOf(b0, b1, b2, b3);
      ByteOf(w, 0) == b0 && ByteOf(w, 1) == b1 && ByteOf(w, 2) == b2 && ByteOf(w, 3) == b3
  {
    var w3: nat := b3;
    var w2: nat := b2 + 256 * w3;
    var w1: nat := b1 + 256 * w2;
    var w: nat := b0 + 256 * w1;
    LowByte(b0, w1);
    LowByte(b1, w2);
    LowByte(b2, w3);
    assert ByteOf(w, 1) == ByteOf(w1, 0) && ByteOf(w, 2) == ByteOf(w1, 1) == ByteOf(w2, 0);
    assert ByteOf(w, 3) == ByteOf(w1, 2) == ByteOf(w2, 1) == ByteOf(w3, 0);
  }

  /** Where `Pack` puts the bytes of word `i`. */
  lemma PackedAt(ws: seq<word>, i: nat, k: nat)
    requires i < |ws| && k < 4
    ensures Pack(ws)[4 * i + k] == ByteOf(ws[i], k)
  {
    assert (4 * i + k) / 4 == i && (4 * i + k) % 4 == k;
  }

  /** Words lie in the file low byte first. */
  lemma LowByteFirst(ws: seq<word>, i: nat)
    requires i < |ws|
    ensures Pack(ws)[4 * i] == ws[i] % 0x100 && Pack(ws)[4 * i + 1] == ws[i] / 0x100 % 0x100
    ensures Pack(ws)[4 * i + 2] == ws[i] / 0x1_0000 % 0x100 && Pack(ws)[4 * i + 3] == ws[i] / 0x100_0000
  {
    PackedAt(ws, i, 0);
    PackedAt(ws, i, 1);
    PackedAt(ws, i, 2);
    PackedAt(ws, i, 3);
    UpperBytes(ws[i]);
  }

  lemma ShiftedTwice(w: nat)
    ensures w / 0x100 / 0x100 == w / 0x1_0000
  {
    var q, r := w / 0x1_0000, w % 0x1_0000;
    assert w == 0x100 * (0x100 * q) + r;
    assert w / 0x100 == 0x100 * q + r / 0x100;
  }

  lemma ShiftedThrice(w: nat)
    ensures w / 0x1_0000 / 0x100 == w / 0x100_0000
  {
    var q, r := w / 0x100_0000, w % 0x100_0000;
    assert w == 0x1_0000 * (0x100 * q) + r;
    assert w / 0x1_0000 == 0x100 * q + r / 0x1_0000;
  }

  lemma UpperBytes(w: word)
    ensures ByteOf(w, 1) == w / 0x100 % 0x100 && ByteOf(w, 2) == w / 0x1_0000 % 0x100 && ByteOf(w, 3) == w / 0x100_0000
  {
    var w1: nat := w / 0x100;
    var w2: nat := w1 / 0x100;
    var w3: nat := w2 / 0x100;
    ShiftedTwice(w);
    ShiftedThrice(w);
    assert ByteOf(w, 1) == ByteOf(w1, 0) && ByteOf(w, 2) == ByteOf(w1, 1) == ByteOf(w2, 0);
    assert ByteOf(w, 3) == ByteOf(w1, 2) == ByteOf(w2, 1) == ByteOf(w3, 0);
  }

  lemma UnpackPackAt(ws: seq<word>, i: nat)
    requires i < |ws|
    ensures Unpack(Pack(ws))[i] == ws[i]
  {
    PackedAt(ws, i, 0);
    PackedAt(ws, i, 1);
    PackedAt(ws, i, 2);
    PackedAt(ws, i, 3);
    WordOfBytes(ws[i]);
  }

  /** Unpacking undoes packing. */
  lemma UnpackPack(ws: seq<word>)
    ensures Unpack(Pack(ws)) == ws
  {
    var data := Pack(ws);
    forall i | 0 <= i < |ws|
      ensures Unpack(data)[i] == ws[i]
    {
      UnpackPackAt(ws, i);
    }
  }

  lemma PackUnpackAt(data: seq<byte>, i: nat, k: nat)
    requires |data| % 4 == 0 && i < |data| / 4 && k < 4
    ensures Pack(Unpack(data))[4 * i + k] == data[4 * i + k]
  {
    PackedAt(Unpack(data), i, k);
    BytesOfWord(data[4 * i], data[4 * i + 1], data[4 * i + 2], data[4 * i + 3]);
  }

  /** Packing undoes unpacking: a file of whole words is its list of words. */
  lemma PackUnpack(data: seq<byte>)
    requires |data| % 4 == 0
    ensures Pack(Unpack(data)) == data
  {
    forall j | 0 <= j < |data|
      ensures Pack(Unpack(data))[j] == data[j]
    {
      PackUnpackAt(data, j / 4, j % 4);
    }
  }
}
