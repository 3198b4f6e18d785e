// The runtime's memory routines (`rt_string.c`): copies and fills that go word
// by word where both addresses allow it, and moves between overlapping ranges.
// Memory is an array of bytes indexed by address.
module RtString {
  import opened Words
  import opened WordBits

  // ----- what the routines promise (C11 sections 7.24.2 and 7.24.6) -----

  predicate InMemory(size: nat, at: nat, n: nat) {
    at + n <= size <= WORD_MODULUS
  }

  predicate Apart(dest: nat, src: nat, n: nat) {
    dest + n <= src || src + n <= dest
  }

  /** Memory with the `n` bytes that were at `src` now also at `dest`, and nothing else changed. */
  function Copied(m: seq<byte>, dest: nat, src: nat, n: nat): (r: seq<byte>)
    requires InMemory(|m|, dest, n) && InMemory(|m|, src, n)
  {
    seq(|m|, i requires 0 <= i < |m| => if dest <= i < dest + n then m[src + i - dest] else m[i])
  }

  /** Memory with `n` bytes `v` at `dest`. */
  function Filled(m: seq<byte>, dest: nat, v: byte, n: nat): (r: seq<byte>)
    requires InMemory(|m|, dest, n)
  {
    seq(|m|, i requires 0 <= i < |m| => if dest <= i < dest + n then v else m[i])
  }

  // ----- word accesses -----

  /** A word load: only from an aligned address. */
  method LoadWord(mem: array<byte>, at: nat) returns (w: word)
    requires at % 4 == 0 && at + 4 <= mem.Length
    ensures w == WordOf(mem[at], mem[at + 1], mem[at + 2], mem[at + 3])
  {
    w := WordOf(mem[at], mem[at + 1], mem[at + 2], mem[at + 3]);
  }

  /** A word store: only to an aligned address. */
  method StoreWord(mem: array<byte>, at: nat, w: word)
    requires at % 4 == 0 && at + 4 <= mem.Length
    modifies mem
    ensures mem[..] == old(mem[..])[at := ByteOf(w, 0)][at + 1 := ByteOf(w, 1)][at + 2 := ByteOf(w, 2)][at + 3 := ByteOf(w, 3)]
  {
    mem[at] := ByteOf(w, 0);
    mem[at + 1] := ByteOf(w, 1);
    mem[at + 2] := ByteOf(w, 2);
    mem[at + 3] := ByteOf(w, 3);
  }

  /** Moving a word moves its four bytes. */
  method CopyWord(mem: array<byte>, d: nat, s: nat)
    requires d % 4 == 0 && s % 4 == 0 && d + 4 <= mem.Length <= WORD_MODULUS && s + 4 <= mem.Length
    modifies mem
    ensures mem[..] == Copied(old(mem[..]), d, s, 4)
  {
    var w := LoadWord(mem, s);
    BytesOfWord(mem[s], mem[s + 1], mem[s + 2], mem[s + 3]);
    StoreWord(mem, d, w);
  }

  lemma StaysAligned(at: nat)
    requires at % 4 == 0
    ensures (at + 4) % 4 == 0
  {
  }

  // ----- memcpy -----

  /** A copy grows by the next bytes, still unchanged at their source. */
  lemma CopyGrows(m: seq<byte>, dest: nat, src: nat, k: nat, more: nat)
    requires InMemory(|m|, dest, k + more) && InMemory(|m|, src, k + more) && Apart(dest, src, k + more)
    ensures Copied(Copied(m, dest, src, k), dest + k, src + k, more) == Copied(m, dest, src, k + more)
  {
  }

  /** One byte more of a copy that has reached `k`. */
  method CopyByte(mem: array<byte>, d: nat, s: nat, ghost m: seq<byte>, ghost dest: nat, ghost src: nat, ghost k: nat)
    requires InMemory(mem.Length, dest, k + 1) && InMemory(mem.Length, src, k + 1) && Apart(dest, src, k + 1)
    requires |m| == mem.Length && mem[..] == Copied(m, dest, src, k) && d == dest + k && s == src + k
    modifies mem
    ensures mem[..] == Copied(m, dest, src, k + 1)
  {
    mem[d] := mem[s];
  }

  /** Four bytes more, as a word. */
  method CopyFour(mem: array<byte>, d: nat, s: nat, ghost m: seq<byte>, ghost dest: nat, ghost src: nat, ghost k: nat)
    requires InMemory(mem.Length, dest, k + 4) && InMemory(mem.Length, src, k + 4) && Apart(dest, src, k + 4)
    requires |m| == mem.Length && mem[..] == Copied(m, dest, src, k) && d == dest + k && s == src + k
    requires d % 4 == 0 && s % 4 == 0
    modifies mem
    ensures mem[..] == Copied(m, dest, src, k + 4)
  {
    CopyGrows(m, dest, src, k, 4);
    CopyWord(mem, d, s);
  }

  /** `rt_memcpy`: for disjoint ranges, whatever their alignment. */
  method MemCpy(mem: array<byte>, dest: nat, src: nat, n: nat)
    requires InMemory(mem.Length, dest, n) && InMemory(mem.Length, src, n) && Apart(dest, src, n)
    modifies mem
    ensures mem[..] == Copied(old(mem[..]), dest, src, n)
  {
    ghost var m, done: nat := mem[..], 0;
    var d: nat, s: nat, left: nat := dest, src, n;
    while left != 0 && (d % 4 != 0 || s % 4 != 0)
      invariant left + done == n && d == dest + done && s == src + done
      invariant mem[..] == Copied(m, dest, src, done)
      decreases left
    {
      CopyByte(mem, d, s, m, dest, src, done);
      d, s, left := d + 1, s + 1, left - 1;
      done := done + 1;
    }
    while left >= 4
      invariant left + done == n && d == dest + done && s == src + done
      invariant left != 0 ==> d % 4 == 0 && s % 4 == 0
      invariant mem[..] == Copied(m, dest, src, done)
      decreases left
    {
      StaysAligned(d);
      StaysAligned(s);
      CopyFour(mem, d, s, m, dest, src, done);
      d, s, left := d + 4, s + 4, left - 4;
      done := done + 4;
    }
    while left != 0
      invariant left + done == n && d == dest + done && s == src + done
      invariant mem[..] == Copied(m, dest, src, done)
      decreases left
    {
      CopyByte(mem, d, s, m, dest, src, done);
      d, s, left := d + 1, s + 1, left - 1;
      done := done + 1;
    }
  }

  // ----- memset -----

  /** `w << k`, for `p` the power `2^k`. */
  function ShiftLeft(w: word, p: nat): word {
    w * p % WORD_MODULUS
  }

  /** The fill word: the value doubled twice by shift and or. */
  function FillWord(v: byte): word {
    var w := OrWords(v, ShiftLeft(v, 256));
    OrWords(w, ShiftLeft(w, 65536))
  }

  /** A value or-ed with itself shifted clear: `up` is the shifted value. */
  lemma Doubled(v: nat, k: nat, p: nat, up: nat)
    requires p == Power(k) && v < p && up == p * v && v + up < WORD_MODULUS
    ensures OrWords(v, up) == v + up
  {
    OrIsSum(v, v, k, p);
  }

  lemma ShiftIs(w: word, p: nat)
    requires p * w < WORD_MODULUS
    ensures ShiftLeft(w, p) == p * w
  {
  }

  lemma PairOf(v: byte)
    ensures OrWords(v, ShiftLeft(v, 256)) == 257 * v
  {
    assert Power(8) == 256;
    var up: nat := 256 * v;
    Doubled(v, 8, 256, up);
    ShiftIs(v, 256);
  }

  lemma QuadOf(w: word)
    requires w < 65536
    ensures OrWords(w, ShiftLeft(w, 65536)) == 65537 * w
  {
    assert Power(8) == 256;
    PowerAdds(8, 8);
    var up: nat := 65536 * w;
    Doubled(w, 16, 65536, up);
    ShiftIs(w, 65536);
  }

  /** Its four bytes are the value. */
  lemma FillWordBytes(v: byte)
    ensures FillWord(v) == WordOf(v, v, v, v)
  {
    PairOf(v);
    QuadOf(OrWords(v, ShiftLeft(v, 256)));
  }

  method FillFour(mem: array<byte>, d: nat, w: word, v: byte)
    requires d % 4 == 0 && d + 4 <= mem.Length <= WORD_MODULUS && w == WordOf(v, v, v, v)
    modifies mem
    ensures mem[..] == Filled(old(mem[..]), d, v, 4)
  {
    BytesOfWord(v, v, v, v);
    StoreWord(mem, d, w);
  }

  lemma FillGrows(m: seq<byte>, dest: nat, v: byte, k: nat, more: nat)
    requires InMemory(|m|, dest, k + more)
    ensures Filled(Filled(m, dest, v, k), dest + k, v, more) == Filled(m, dest, v, k + more)
  {
  }

  method FillByte(mem: array<byte>, d: nat, v: byte)
    requires d < mem.Length <= WORD_MODULUS
    modifies mem
    ensures mem[..] == Filled(old(mem[..]), d, v, 1)
  {
    mem[d] := v;
  }

  /** `rt_memset`: only the low byte of `value` counts. */
  method MemSet(mem: array<byte>, dest: nat, value: int, n: nat)
    requires InMemory(mem.Length, dest, n)
    modifies mem
    ensures mem[..] == Filled(old(mem[..]), dest, value % 256, n)
  {
    ghost var m, done: nat := mem[..], 0;
    var v: byte := value % 256;
    var d: nat, left: nat := dest, n;
    var w := FillWord(v);
    FillWordBytes(v);
    while left != 0 && d % 4 != 0
      invariant left + done == n && d == dest + done
      invariant mem[..] == Filled(m, dest, v, done)
      decreases left
    {
      FillGrows(m, dest, v, done, 1);
      FillByte(mem, d, v);
      d, left := d + 1, left - 1;
      done := done + 1;
    }
    while left >= 4
      invariant left + done == n && d == dest + done
      invariant left != 0 ==> d % 4 == 0
      invariant mem[..] == Filled(m, dest, v, done)
      decreases left
    {
      FillGrows(m, dest, v, done, 4);
      StaysAligned(d);
      FillFour(mem, d, w, v);
      d, left := d + 4, left - 4;
      done := done + 4;
    }
    while left != 0
      invariant left + done == n && d == dest + done
      invariant mem[..] == Filled(m, dest, v, done)
      decreases left
    {
      FillGrows(m, dest, v, done, 1);
      FillByte(mem, d, v);
      d, left := d + 1, left - 1;
      done := done + 1;
    }
  }

  // ----- memmove -----

  /** `rt_memmove`: the bytes that were at `src`, however the ranges overlap. */
  method MemMove(mem: array<byte>, dest: nat, src: nat, n: nat)
    requires InMemory(mem.Length, dest, n) && InMemory(mem.Length, src, n)
    modifies mem
    ensures mem[..] == Copied(old(mem[..]), dest, src, n)
  {
    if dest == src || n == 0 {
      return;
    }
    var i: nat;
    if dest < src {
      i := 0;
      while i < n
        invariant i <= n && mem[..] == Copied(old(mem[..]), dest, src, i)
      {
        mem[dest + i] := mem[src + i];
        i := i + 1;
      }
    } else {
      i := n;
      while i > 0
        invariant i <= n && mem[..] == Copied(old(mem[..]), dest + i, src + i, n - i)
      {
        mem[dest + i - 1] := mem[src + i - 1];
        i := i - 1;
      }
    }
  }

  // ----- why the direction matters -----

  /** Byte by byte upwards, each byte read from memory as it then is. */
  function Upwards(m: seq<byte>, dest: nat, src: nat, n: nat): (r: seq<byte>)
    requires InMemory(|m|, dest, n) && InMemory(|m|, src, n)
    ensures |r| == |m|
  {
    if n == 0 then m
    else
      var r := Upwards(m, dest, src, n - 1);
      r[dest + n - 1 := r[src + n - 1]]
  }

  /** A repetition of the first `dest - src` bytes: what an upward copy leaves when `dest` lies inside the source. */
  predicate Smeared(m: seq<byte>, r: seq<byte>, dest: nat, src: nat, n: nat)
    requires |r| == |m| && src < dest && InMemory(|m|, dest, n)
  {
    forall i {:trigger r[i]} :: 0 <= i < |m| ==>
      r[i] == if dest <= i < dest + n then m[src + (i - dest) % (dest - src)] else m[i]
  }

  /** Byte `k` of a range repeating its first `p` bytes. */
  lemma Repeats(k: nat, p: nat)
    requires p > 0
    ensures k < p ==> k % p == k
    ensures k >= p ==> (k - p) % p == k % p
  {
    if k < p {
      RemainderUnique(k, p, 0, k);
    } else {
      var q, r := k / p, k % p;
      assert q >= 1;
      assert k - p == p * (q - 1) + r;
      RemainderUnique(k - p, p, q - 1, r);
    }
  }

  lemma {:induction false} UpwardsSmears(m: seq<byte>, dest: nat, src: nat, n: nat)
    requires InMemory(|m|, dest, n) && src < dest
    ensures Smeared(m, Upwards(m, dest, src, n), dest, src, n)
  {
    if n > 0 {
      UpwardsSmears(m, dest, src, n - 1);
      SmearedByte(m, Upwards(m, dest, src, n - 1), dest, src, n - 1);
      SmearedGrows(m, Upwards(m, dest, src, n - 1), dest, src, n - 1);
    }
  }

  lemma SmearedGrows(m: seq<byte>, r: seq<byte>, dest: nat, src: nat, k: nat)
    requires InMemory(|m|, dest, k + 1) && src < dest && |r| == |m| && Smeared(m, r, dest, src, k)
    requires r[src + k] == m[src + k % (dest - src)]
    ensures Smeared(m, r[dest + k := r[src + k]], dest, src, k + 1)
  {
  }

  /** The next byte to copy is the repetition's next. */
  lemma SmearedByte(m: seq<byte>, r: seq<byte>, dest: nat, src: nat, k: nat)
    requires InMemory(|m|, dest, k + 1) && src < dest && |r| == |m| && Smeared(m, r, dest, src, k)
    ensures r[src + k] == m[src + k % (dest - src)]
  {
    var p := dest - src;
    Repeats(k, p);
    if k >= p {
      assert src + k - dest == k - p;
    }
  }
}
