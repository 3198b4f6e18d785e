// The bump allocator (`rt_alloc.c`): a cursor rounded up to each request's
// alignment with a mask, in 32-bit pointer arithmetic.
module RtAlloc {
  import opened Words
  import opened WordBits

  const DEFAULT_ALIGN: word := 4

  /** The linker's heap range. */
  datatype Range = Range(start: word, end: word)

  /** A request. */
  datatype Call = Call(size: word, align: word)

  predicate RangeOk(h: Range) {
    0 < h.start <= h.end
  }

  /** The alignments the allocator is written for. */
  ghost predicate PowerOfTwo(a: word) {
    exists k: nat :: k < 32 && a == Power(k)
  }

  function Effective(align: word): (a: word)
    ensures a != 0
  {
    if align == 0 then DEFAULT_ALIGN else align
  }

  ghost predicate AlignOk(align: word) {
    align == 0 || PowerOfTwo(align)
  }

  // ----- rounding up -----

  /** The first multiple of `a` from `cursor` on. */
  function RoundUp(cursor: nat, a: nat): (b: nat)
    requires a != 0
    ensures cursor <= b < cursor + a
  {
    if cursor % a == 0 then cursor else cursor + (a - cursor % a)
  }

  lemma RoundUpIsMultiple(cursor: nat, a: nat)
    requires a != 0
    ensures RoundUp(cursor, a) % a == 0
  {
    var q, r := Division(cursor, a);
    if r == 0 {
    } else {
      assert RoundUp(cursor, a) == a * (q + 1) + 0;
      RemainderUnique(RoundUp(cursor, a), a, q + 1, 0);
    }
  }

  /** Aligning the cursor would pass the top of the address space. */
  predicate Wraps(cursor: word, a: word)
    requires a != 0
  {
    RoundUp(cursor, a) >= WORD_MODULUS
  }

  lemma MaskedCursor(cursor: word, a: word)
    requires PowerOfTwo(a)
    ensures a != 0 && AndWords(cursor, a - 1) == cursor % a
  {
    var k: nat :| k < 32 && a == Power(k);
    MaskIsRemainder(cursor, k, a, a - 1);
  }

  /** The candidate address: the cursor rounded up, in 32 bits. */
  function Candidate(cursor: word, a: word): word
    requires a != 0
  {
    RoundUp(cursor, a) % WORD_MODULUS
  }

  lemma CandidateIs(cursor: word, a: word, misalign: nat)
    requires a != 0 && misalign == cursor % a
    ensures Candidate(cursor, a) == if misalign == 0 then cursor else (cursor + (a - misalign)) % WORD_MODULUS
  {
  }

  /** When rounding wraps, the candidate is the null address. */
  lemma WrapsToNull(cursor: word, a: word)
    requires PowerOfTwo(a)
    ensures a != 0 && (Wraps(cursor, a) <==> RoundUp(cursor, a) == WORD_MODULUS)
    ensures Candidate(cursor, a) == if Wraps(cursor, a) then 0 else RoundUp(cursor, a)
  {
    if Wraps(cursor, a) {
      TopIsMultiple(a);
      RoundUpIsMultiple(cursor, a);
      NoMultipleBetween(RoundUp(cursor, a), WORD_MODULUS, a);
    }
  }

  lemma TopIsMultiple(a: word)
    requires PowerOfTwo(a)
    ensures a != 0 && WORD_MODULUS % a == 0
  {
    var k: nat :| k < 32 && a == Power(k);
    PowerOfWord();
    PowerAdds(k, 32 - k);
    RemainderUnique(WORD_MODULUS, a, Power(32 - k), 0);
  }

  /** Two multiples of `a` less than `a` apart are equal. */
  lemma NoMultipleBetween(x: nat, y: nat, a: nat)
    requires a != 0 && x % a == 0 && y % a == 0 && y <= x < y + a
    ensures x == y
  {
    var q, r := Division(x, a);
    var p, s := Division(y, a);
    assert a * (q - p) == x - y;
    Multiples(a, q - p);
  }

  // ----- one call -----

  /** `bump_alloc` from an initialised cursor: the pointer returned, 0 on failure, and the new cursor. */
  function Bumped(h: Range, cursor: word, c: Call): (r: (word, word))
    requires RangeOk(h)
  {
    var base := Candidate(cursor, Effective(c.align));
    if base > h.end || c.size > h.end - base then (0, cursor) else (base, base + c.size)
  }

  /** The request fits behind the rounded cursor. */
  predicate Fits(h: Range, cursor: word, c: Call) {
    RoundUp(cursor, Effective(c.align)) + c.size <= h.end
  }

  /** What an allocator owes its caller: an aligned block of fresh heap, or a refusal that changes nothing. */
  predicate Honest(h: Range, cursor: word, c: Call)
    requires RangeOk(h)
  {
    var (at, after) := Bumped(h, cursor, c);
    if at == 0 then after == cursor
    else h.start <= cursor <= at && at + c.size == after <= h.end && at % Effective(c.align) == 0
  }

  lemma EffectiveOk(align: word)
    requires AlignOk(align)
    ensures PowerOfTwo(Effective(align))
  {
    assert Power(2) == 4;
  }

  /** An alignment of 0 asks for whole words. */
  lemma DefaultIsFour(h: Range, cursor: word, size: word)
    requires RangeOk(h)
    ensures Bumped(h, cursor, Call(size, 0)) == Bumped(h, cursor, Call(size, 4))
  {
  }

  /** Unless aligning wraps, a block is refused exactly when the aligned request does not fit. */
  lemma RefusedIff(h: Range, cursor: word, c: Call)
    requires RangeOk(h) && h.start <= cursor <= h.end && AlignOk(c.align)
    requires !Wraps(cursor, Effective(c.align))
    ensures var (at, after) := Bumped(h, cursor, c);
            && (at != 0 <==> Fits(h, cursor, c))
            && (at != 0 ==> at == RoundUp(cursor, Effective(c.align)) && after == at + c.size)
            && (at == 0 ==> after == cursor)
  {
    EffectiveOk(c.align);
    WrapsToNull(cursor, Effective(c.align));
  }

  /**
   * A call goes wrong exactly when aligning wraps and the size is no more than
   * the heap's end address: it returns null, as if refused, but moves the
   * cursor to the address `size` (harmless only if it already was there).
   */
  lemma HonestIff(h: Range, cursor: word, c: Call)
    requires RangeOk(h) && h.start <= cursor <= h.end && AlignOk(c.align)
    ensures Honest(h, cursor, c) <==> !Wraps(cursor, Effective(c.align)) || c.size > h.end || c.size == cursor
  {
    EffectiveOk(c.align);
    var a := Effective(c.align);
    WrapsToNull(cursor, a);
    if !Wraps(cursor, a) {
      RoundUpIsMultiple(cursor, a);
    }
  }

  /** A call that goes wrong: 16 bytes at 2 GiB alignment from a heap at the bottom of SDRAM. */
  lemma LostHeap()
    ensures var h := Range(0x8000_1000, 0x8000_2000);
      RangeOk(h) && Bumped(h, h.start, Call(16, 0x8000_0000)) == (0, 16) && !Honest(h, h.start, Call(16, 0x8000_0000))
  {
  }

  // ----- a heap in SDRAM -----

  const SDRAM_BASE: word := 0x8000_0000
  const SDRAM_END: word := 0x8200_0000

  lemma Gibibytes()
    ensures Power(30) == 0x4000_0000 && Power(31) == 0x8000_0000
  {
    PowerOfWord();
    assert Power(32) == 2 * Power(31) && Power(31) == 2 * Power(30);
  }

  /** In SDRAM only an alignment of 2 GiB wraps, from everywhere but the very first address. */
  lemma SdramWrapsIff(cursor: word, a: word)
    requires SDRAM_BASE <= cursor <= SDRAM_END && PowerOfTwo(a)
    ensures a != 0 && (Wraps(cursor, a) <==> a == 0x8000_0000 && cursor != SDRAM_BASE)
  {
    var k: nat :| k < 32 && a == Power(k);
    Gibibytes();
    if k == 31 {
      if cursor != SDRAM_BASE {
        RemainderUnique(cursor, a, 1, cursor - a);
      }
    } else {
      PowerGrows(k, 30);
    }
  }

  /** So in SDRAM a call goes wrong exactly so. */
  lemma SdramHonestIff(h: Range, cursor: word, c: Call)
    requires SDRAM_BASE <= h.start <= cursor <= h.end <= SDRAM_END && AlignOk(c.align)
    ensures RangeOk(h)
    ensures Honest(h, cursor, c) <==>
      c.align != 0x8000_0000 || cursor == SDRAM_BASE || c.size > h.end || c.size == cursor
  {
    EffectiveOk(c.align);
    SdramWrapsIff(cursor, Effective(c.align));
    HonestIff(h, cursor, c);
  }

  // ----- any sequence of calls -----

  /** The cursor after the first `n` calls. */
  function CursorAfter(h: Range, calls: seq<Call>, n: nat): word
    requires RangeOk(h) && n <= |calls|
  {
    if n == 0 then h.start else Bumped(h, CursorAfter(h, calls, n - 1), calls[n - 1]).1
  }

  /** What call `n` returned. */
  function Returned(h: Range, calls: seq<Call>, n: nat): word
    requires RangeOk(h) && n < |calls|
  {
    Bumped(h, CursorAfter(h, calls, n), calls[n]).0
  }

  /** Alignments are powers of two, or 0 for the default, and too small to wrap from inside the heap. */
  ghost predicate CallsOk(h: Range, calls: seq<Call>) {
    forall n :: 0 <= n < |calls| ==> AlignOk(calls[n].align) && h.end + Effective(calls[n].align) <= WORD_MODULUS
  }

  lemma {:induction false} CursorStays(h: Range, calls: seq<Call>, n: nat)
    requires RangeOk(h) && CallsOk(h, calls) && n <= |calls|
    ensures h.start <= CursorAfter(h, calls, n) <= h.end
  {
    if n > 0 {
      CursorStays(h, calls, n - 1);
      CallIsHonest(h, CursorAfter(h, calls, n - 1), calls[n - 1]);
    }
  }

  lemma CallIsHonest(h: Range, cursor: word, c: Call)
    requires RangeOk(h) && h.start <= cursor <= h.end
    requires AlignOk(c.align) && h.end + Effective(c.align) <= WORD_MODULUS
    ensures !Wraps(cursor, Effective(c.align)) && Honest(h, cursor, c)
  {
    HonestIff(h, cursor, c);
  }

  /** A call returns an aligned block inside the heap, or refuses and leaves the cursor alone. */
  lemma EveryCallIsHonest(h: Range, calls: seq<Call>, n: nat)
    requires RangeOk(h) && CallsOk(h, calls) && n < |calls|
    ensures Honest(h, CursorAfter(h, calls, n), calls[n])
    ensures Returned(h, calls, n) != 0 <==> Fits(h, CursorAfter(h, calls, n), calls[n])
  {
    CursorStays(h, calls, n);
    CallIsHonest(h, CursorAfter(h, calls, n), calls[n]);
    RefusedIff(h, CursorAfter(h, calls, n), calls[n]);
  }

  lemma {:induction false} CursorGrows(h: Range, calls: seq<Call>, m: nat, n: nat)
    requires RangeOk(h) && CallsOk(h, calls) && m <= n <= |calls|
    ensures CursorAfter(h, calls, m) <= CursorAfter(h, calls, n)
    decreases n
  {
    if m < n {
      CursorGrows(h, calls, m, n - 1);
      CallGrows(h, calls, n - 1);
    }
  }

  lemma CallGrows(h: Range, calls: seq<Call>, n: nat)
    requires RangeOk(h) && CallsOk(h, calls) && n < |calls|
    ensures CursorAfter(h, calls, n) <= CursorAfter(h, calls, n + 1)
  {
    EveryCallIsHonest(h, calls, n);
  }

  /** Blocks never overlap: a later one starts at or after the end of every earlier one. */
  lemma BlocksAreDisjoint(h: Range, calls: seq<Call>, m: nat, n: nat)
    requires RangeOk(h) && CallsOk(h, calls) && m < n < |calls|
    requires Returned(h, calls, m) != 0 && Returned(h, calls, n) != 0
    ensures Returned(h, calls, m) + calls[m].size <= Returned(h, calls, n)
  {
    EveryCallIsHonest(h, calls, m);
    EveryCallIsHonest(h, calls, n);
    CursorGrows(h, calls, m + 1, n);
  }

  /** What call `n` used up: its block and the padding before it. */
  function Used(h: Range, calls: seq<Call>, n: nat): nat
    requires RangeOk(h) && CallsOk(h, calls) && n < |calls|
  {
    var cursor := CursorAfter(h, calls, n);
    if Fits(h, cursor, calls[n]) then RoundUp(cursor, Effective(calls[n].align)) - cursor + calls[n].size else 0
  }

  function TotalUsed(h: Range, calls: seq<Call>, n: nat): nat
    requires RangeOk(h) && CallsOk(h, calls) && n <= |calls|
  {
    if n == 0 then 0 else TotalUsed(h, calls, n - 1) + Used(h, calls, n - 1)
  }

  /** Nothing is lost: the heap in use is the blocks handed out and their padding. */
  lemma {:induction false} UsedAddsUp(h: Range, calls: seq<Call>, n: nat)
    requires RangeOk(h) && CallsOk(h, calls) && n <= |calls|
    ensures CursorAfter(h, calls, n) - h.start == TotalUsed(h, calls, n)
  {
    if n > 0 {
      UsedAddsUp(h, calls, n - 1);
      CallUses(h, calls, n - 1);
    }
  }

  lemma CallUses(h: Range, calls: seq<Call>, n: nat)
    requires RangeOk(h) && CallsOk(h, calls) && n < |calls|
    ensures CursorAfter(h, calls, n + 1) == CursorAfter(h, calls, n) + Used(h, calls, n)
  {
    var cursor := CursorAfter(h, calls, n);
    CursorStays(h, calls, n);
    CallIsHonest(h, cursor, calls[n]);
    RefusedIff(h, cursor, calls[n]);
  }

  // ----- the allocator -----

  /** `b - a` in 32 bits. */
  function Distance(a: word, b: word): word {
    if a <= b then b - a else WORD_MODULUS - (a - b)
  }

  class Heap {
    const range: Range
    /** 0 until the first call. */
    var cursor: word
    /** The calls since the cursor was last at the start of the heap. */
    ghost var calls: seq<Call>

    constructor (range: Range)
      requires RangeOk(range)
      ensures this.range == range && Valid() && cursor == 0 && calls == []
    {
      this.range, cursor, calls := range, 0, [];
    }

    ghost predicate Valid()
      reads this
    {
      RangeOk(range) && if cursor == 0 then calls == [] else cursor == CursorAfter(range, calls, |calls|)
    }

    /** `heap_init`. */
    method HeapInit()
      requires Valid()
      modifies this
      ensures Valid() && calls == [] && cursor == range.start
    {
      cursor, calls := range.start, [];
    }

    /** `bump_alloc`. */
    method BumpAlloc(size: word, align: word) returns (at: word)
      requires Valid() && AlignOk(align)
      modifies this
      ensures calls == old(calls) + [Call(size, align)]
      ensures at == Returned(range, calls, |calls| - 1)
      ensures CallsOk(range, calls) ==> Valid()
    {
      if cursor == 0 {
        cursor := range.start;
      }
      ghost var c, before, past := Call(size, align), cursor, calls;
      var a := if align == 0 then DEFAULT_ALIGN else align;
      EffectiveOk(align);
      var base := AlignCursor(a);
      at := 0;
      if base <= range.end {
        var room := range.end - base;
        if size <= room {
          cursor := base + size;
          at := base;
        }
      }
      assert at == Bumped(range, before, c).0 && cursor == Bumped(range, before, c).1;
      calls := past + [c];
      Appended(range, past, c);
      StaysInHeap(range, calls);
    }

    /** The cursor moved up by what the mask leaves. */
    method AlignCursor(a: word) returns (base: word)
      requires PowerOfTwo(a)
      ensures a != 0 && base == Candidate(cursor, a)
    {
      MaskedCursor(cursor, a);
      CandidateIs(cursor, a, cursor % a);
      var mask: word := a - 1;
      var misalign := AndWords(cursor, mask);
      base := cursor;
      if misalign != 0 {
        base := (base + (a - misalign)) % WORD_MODULUS;
      }
    }

    /** `heap_used`: a pointer difference, and what the calls have used while none of them wrapped. */
    method HeapUsed() returns (used: word)
      ensures used == if cursor == 0 then 0 else Distance(range.start, cursor)
      ensures Valid() && CallsOk(range, calls) ==> used == TotalUsed(range, calls, |calls|)
    {
      if Valid() && CallsOk(range, calls) {
        UsedIsDistance(range, calls);
      }
      if cursor == 0 {
        return 0;
      }
      used := Distance(range.start, cursor);
    }
  }

  lemma {:induction false} SamePrefix(h: Range, a: seq<Call>, b: seq<Call>, n: nat)
    requires RangeOk(h) && n <= |a| <= |b| && a <= b
    ensures CursorAfter(h, a, n) == CursorAfter(h, b, n)
  {
    if n > 0 {
      SamePrefix(h, a, b, n - 1);
    }
  }

  lemma StaysInHeap(h: Range, calls: seq<Call>)
    requires RangeOk(h)
    ensures CallsOk(h, calls) ==> h.start <= CursorAfter(h, calls, |calls|) <= h.end
  {
    if CallsOk(h, calls) {
      CursorStays(h, calls, |calls|);
    }
  }

  lemma UsedIsDistance(h: Range, calls: seq<Call>)
    requires RangeOk(h) && CallsOk(h, calls)
    ensures 0 <= CursorAfter(h, calls, |calls|) - h.start == TotalUsed(h, calls, |calls|) < WORD_MODULUS
    ensures calls == [] ==> TotalUsed(h, calls, |calls|) == 0
  {
    StaysInHeap(h, calls);
    UsedAddsUp(h, calls, |calls|);
  }

  /** One more call. */
  lemma Appended(h: Range, calls: seq<Call>, c: Call)
    requires RangeOk(h)
    ensures CursorAfter(h, calls + [c], |calls|) == CursorAfter(h, calls, |calls|)
    ensures Returned(h, calls + [c], |calls|) == Bumped(h, CursorAfter(h, calls, |calls|), c).0
    ensures CursorAfter(h, calls + [c], |calls| + 1) == Bumped(h, CursorAfter(h, calls, |calls|), c).1
  {
    SamePrefix(h, calls, calls + [c], |calls|);
  }
}
