// Words as their 32 bits, for the code that works on them with shifts, masks
// and exclusive or.
module WordBits {
  import opened Words

  type bits32 = b: seq<bool> | |b| == 32 witness seq(32, _ => false)

  /** Bit `i` of a number. */
  predicate Bit(w: nat, i: nat) {
    if i == 0 then w % 2 == 1 else Bit(w / 2, i - 1)
  }

  function BitsOf(w: nat): bits32 {
    seq(32, i requires 0 <= i < 32 => Bit(w, i))
  }

  function Power(k: nat): (p: nat)
    ensures p >= 1
  {
    if k == 0 then 1 else 2 * Power(k - 1)
  }

  lemma {:induction false} PowerAdds(j: nat, k: nat)
    ensures Power(j + k) == Power(j) * Power(k)
  {
    if k > 0 {
      PowerAdds(j, k - 1);
      assert Power(j + k) == 2 * Power(j + k - 1);
    }
  }

  lemma PowerOfWord()
    ensures Power(32) == WORD_MODULUS
  {
    assert Power(8) == 0x100;
    PowerAdds(8, 8);
    PowerAdds(16, 16);
  }

  /** The number made of bits `i` and up. */
  function Value(b: seq<bool>, i: nat): nat
    requires i <= |b|
    decreases |b| - i
  {
    if i == |b| then 0 else (if b[i] then 1 else 0) + 2 * Value(b, i + 1)
  }

  lemma {:induction false} ValueFits(b: seq<bool>, i: nat)
    requires i <= |b|
    ensures Value(b, i) < Power(|b| - i)
    decreases |b| - i
  {
    if i < |b| {
      ValueFits(b, i + 1);
    }
  }

  function WordOfBits(b: bits32): word {
    ValueFits(b, 0);
    PowerOfWord();
    Value(b, 0)
  }

  lemma LowBit(bit: bool, high: nat)
    ensures var n := (if bit then 1 else 0) + 2 * high;
            n / 2 == high && (n % 2 == 1) == bit
  {
  }

  lemma {:induction false} BitOfValue(b: seq<bool>, i: nat, k: nat)
    requires i + k < |b|
    ensures Bit(Value(b, i), k) == b[i + k]
    decreases k
  {
    LowBit(b[i], Value(b, i + 1));
    if k > 0 {
      BitOfValue(b, i + 1, k - 1);
    }
  }

  /** Every pattern of 32 bits is that of a word. */
  lemma BitsOfWordOfBits(b: bits32)
    ensures BitsOf(WordOfBits(b)) == b
  {
    forall i | 0 <= i < 32 ensures BitsOf(WordOfBits(b))[i] == b[i] {
      BitOfValue(b, 0, i);
    }
  }

  /** Numbers below a power of two are told apart by their low bits. */
  lemma {:induction false} SameBits(a: nat, b: nat, n: nat)
    requires a < Power(n) && b < Power(n)
    requires forall i: nat :: i < n ==> Bit(a, i) == Bit(b, i)
    ensures a == b
  {
    if n > 0 {
      assert Bit(a, 0) == Bit(b, 0);
      forall i: nat | i < n - 1 ensures Bit(a / 2, i) == Bit(b / 2, i) {
        assert Bit(a, i + 1) == Bit(b, i + 1);
      }
      SameBits(a / 2, b / 2, n - 1);
    }
  }

  lemma WordOfItsBits(w: word)
    ensures WordOfBits(BitsOf(w)) == w
  {
    var v: nat := WordOfBits(BitsOf(w));
    BitsOfWordOfBits(BitsOf(w));
    PowerOfWord();
    forall i: nat | i < 32 ensures Bit(v, i) == Bit(w, i) {
      assert BitsOf(v)[i] == BitsOf(w)[i];
    }
    SameBits(v, w, 32);
  }

  /** A number below `2^k` has no bit from `k` up. */
  lemma {:induction false} HighBitClear(w: nat, k: nat, i: nat)
    requires w < Power(k) && k <= i
    ensures !Bit(w, i)
    decreases i
  {
    if i > 0 {
      HighBitClear(w / 2, if k == 0 then 0 else k - 1, i - 1);
    }
  }

  /** Bit `k` is the top one of a number from `2^k` up to twice that. */
  lemma {:induction false} LeadingBit(w: nat, k: nat)
    requires Power(k) <= w < 2 * Power(k)
    ensures Bit(w, k)
  {
    if k > 0 {
      LeadingBit(w / 2, k - 1);
    }
  }

  /** Bits of a number whose low `k` bits are `b`. */
  lemma {:induction false} LowPart(b: nat, high: nat, k: nat, i: nat)
    requires b < Power(k)
    ensures Bit(b + Power(k) * high, i) == if i < k then Bit(b, i) else Bit(high, i - k)
    decreases k
  {
    if k > 0 {
      var p: nat := Power(k - 1) * high;
      assert Power(k) * high == 2 * p;
      assert (b + 2 * p) / 2 == b / 2 + p && (b + 2 * p) % 2 == b % 2;
      if i > 0 {
        LowPart(b / 2, high, k - 1, i - 1);
      }
    }
  }

  // ----- bitwise operators -----

  function Xor(a: bits32, b: bits32): bits32 {
    seq(32, i requires 0 <= i < 32 => a[i] != b[i])
  }

  function And(a: bits32, b: bits32): bits32 {
    seq(32, i requires 0 <= i < 32 => a[i] && b[i])
  }

  /** `a ^ b` on words. */
  function XorWords(a: word, b: word): (r: word)
    ensures BitsOf(r) == Xor(BitsOf(a), BitsOf(b))
  {
    BitsOfWordOfBits(Xor(BitsOf(a), BitsOf(b)));
    WordOfBits(Xor(BitsOf(a), BitsOf(b)))
  }

  /** `a & b` on words. */
  function AndWords(a: word, b: word): (r: word)
    ensures BitsOf(r) == And(BitsOf(a), BitsOf(b))
  {
    BitsOfWordOfBits(And(BitsOf(a), BitsOf(b)));
    WordOfBits(And(BitsOf(a), BitsOf(b)))
  }

  function Or(a: bits32, b: bits32): bits32 {
    seq(32, i requires 0 <= i < 32 => a[i] || b[i])
  }

  /** `a | b` on words. */
  function OrWords(a: word, b: word): (r: word)
    ensures BitsOf(r) == Or(BitsOf(a), BitsOf(b))
  {
    BitsOfWordOfBits(Or(BitsOf(a), BitsOf(b)));
    WordOfBits(Or(BitsOf(a), BitsOf(b)))
  }

  /** Combining a number with one shifted clear of it adds them. */
  lemma OrIsSum(low: nat, high: nat, k: nat, p: nat)
    requires p == Power(k) && low < p && low + p * high < WORD_MODULUS
    ensures 0 <= p * high < WORD_MODULUS && OrWords(low, p * high) == low + p * high
  {
    var sum: nat := low + p * high;
    var up: word := p * high;
    var r: nat := OrWords(low, up);
    forall i: nat | i < 32 ensures Bit(r, i) == Bit(sum, i) {
      assert BitsOf(r)[i] == (BitsOf(low)[i] || BitsOf(up)[i]);
      LowPart(low, high, k, i);
      LowPart(0, high, k, i);
      if i < k {
        HighBitClear(0, 0, i);
      } else {
        HighBitClear(low, k, i);
      }
    }
    PowerOfWord();
    SameBits(r, sum, 32);
  }

  // ----- masks -----

  /** Bits of `2^k - 1`: the low `k`. */
  lemma {:induction false} BitOfMask(k: nat, i: nat)
    ensures Bit(Power(k) - 1, i) == (i < k)
    decreases k
  {
    if k == 0 {
      HighBitClear(0, 0, i);
    } else if i > 0 {
      assert (Power(k) - 1) / 2 == Power(k - 1) - 1;
      BitOfMask(k - 1, i - 1);
    }
  }

  lemma Division(w: nat, d: nat) returns (q: nat, r: nat)
    requires d >= 1
    ensures w == d * q + r && r < d && r <= w && r == w % d
  {
    q, r := w / d, w % d;
  }

  lemma RemainderUnique(n: nat, d: nat, q: nat, r: nat)
    requires d >= 1 && n == d * q + r && r < d
    ensures n % d == r
  {
    var q1, r1 := n / d, n % d;
    assert d * (q1 - q) == r - r1;
    Multiples(d, q1 - q);
  }

  /** A multiple of `d` other than 0 is at least `d` away from it. */
  lemma Multiples(d: int, t: int)
    requires d >= 0
    ensures t >= 1 ==> d * t >= d
    ensures t <= -1 ==> d * t <= 0 - d
  {
    if t >= 1 {
      assert d * (t - 1) >= 0;
    } else if t <= -1 {
      assert d * (t + 1) <= 0;
    }
  }

  /** Bits of a remainder modulo `2^k`: the low `k` of the number. */
  lemma BitOfRemainder(w: nat, k: nat, q: nat, r: nat, i: nat)
    requires w == r + Power(k) * q && r < Power(k)
    ensures Bit(r, i) == (i < k && Bit(w, i))
  {
    LowPart(r, q, k, i);
    if i >= k {
      HighBitClear(r, k, i);
    }
  }

  lemma MaskedBit(w: word, k: nat, mask: word, q: nat, r: nat, i: nat)
    requires i < 32 && mask == Power(k) - 1 && w == r + Power(k) * q && r < Power(k)
    ensures Bit(AndWords(w, mask), i) == Bit(r, i)
  {
    assert BitsOf(AndWords(w, mask))[i] == (BitsOf(w)[i] && BitsOf(mask)[i]);
    BitOfMask(k, i);
    BitOfRemainder(w, k, q, r, i);
  }

  lemma MaskIs(w: word, k: nat, p: nat, mask: word, q: nat, r: nat)
    requires p == Power(k) && mask == p - 1 && w == p * q + r && r < p && r < WORD_MODULUS
    ensures AndWords(w, mask) == r
  {
    var a: nat := AndWords(w, mask);
    forall i: nat | i < 32 ensures Bit(a, i) == Bit(r, i) {
      MaskedBit(w, k, mask, q, r, i);
    }
    PowerOfWord();
    SameBits(a, r, 32);
  }

  /** Masking with `2^k - 1` is the remainder modulo `2^k`. */
  lemma MaskIsRemainder(w: word, k: nat, p: nat, mask: word)
    requires p == Power(k) && mask == p - 1
    ensures AndWords(w, mask) == w % p
  {
    var q, r := Division(w, p);
    MaskIs(w, k, p, mask, q, r);
  }

  lemma {:induction false} PowerGrows(j: nat, k: nat)
    requires j <= k
    ensures Power(j) <= Power(k)
  {
    if j < k {
      PowerGrows(j, k - 1);
    }
  }
}
