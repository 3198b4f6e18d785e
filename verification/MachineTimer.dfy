// The machine timer (`machine_timer.c`) and the compare value the FreeRTOS
// port keeps in it: reading a 64-bit counter through two 32-bit registers,
// moving the compare value without a false interrupt, and ticks that do not
// drift however late they are served.
module MachineTimer {
  import opened Words

  const TIME_MODULUS: int := 0x1_0000_0000_0000_0000

  type time = t: int | 0 <= t < TIME_MODULUS

  function HighOf(t: time): word {
    t / WORD_MODULUS
  }

  function LowOf(t: time): word {
    t % WORD_MODULUS
  }

  function Joined(high: word, low: word): time {
    WORD_MODULUS * high + low
  }

  lemma JoinedParts(t: time)
    ensures Joined(HighOf(t), LowOf(t)) == t
  {
  }

  // ----- reading mtime -----

  /** The counter at each bus access of a reader, first to last: it never runs backwards. */
  ghost predicate Clock(mtime: nat -> time) {
    forall i: nat :: Forward(mtime, i)
  }

  predicate Forward(mtime: nat -> time, i: nat) {
    mtime(i) <= mtime(i + 1)
  }

  /** The round of three reads that starts at access `i` sees its high word change. */
  predicate Torn(mtime: nat -> time, i: nat) {
    HighOf(mtime(i)) != HighOf(mtime(i + 2))
  }

  lemma RoundGrows(mtime: nat -> time, i: nat)
    requires Clock(mtime)
    ensures HighOf(mtime(i)) <= HighOf(mtime(i + 1)) <= HighOf(mtime(i + 2)) <= HighOf(mtime(i + 3))
  {
    assert Forward(mtime, i) && Forward(mtime, i + 1) && Forward(mtime, i + 2);
  }

  /** An untorn round gives the counter as it was at its low read. */
  lemma UntornReadsTrue(mtime: nat -> time, i: nat)
    requires Clock(mtime) && !Torn(mtime, i)
    ensures Joined(HighOf(mtime(i + 2)), LowOf(mtime(i + 1))) == mtime(i + 1)
  {
    RoundGrows(mtime, i);
    JoinedParts(mtime(i + 1));
  }

  /** Rounds before `rounds`, starting at access `at`, were all torn. */
  ghost predicate AllTorn(mtime: nat -> time, at: nat, rounds: nat) {
    forall k: nat :: k < rounds ==> Torn(mtime, at + 3 * k)
  }

  /**
   * `machine_timer_now`, started at bus access `at`: reads high, low and high
   * until the high words agree. The result is the counter at the last low read;
   * every round before was torn, and there were no more of them than carries
   * into the high word.
   */
  method Now(mtime: nat -> time, at: nat) returns (now: time, retries: nat)
    requires Clock(mtime)
    ensures now == mtime(at + 3 * retries + 1)
    ensures AllTorn(mtime, at, retries) && !Torn(mtime, at + 3 * retries)
    ensures retries <= HighOf(now) - HighOf(mtime(at))
  {
    retries := 0;
    ghost var i := at;
    var high := HighOf(mtime(at));
    var low := LowOf(mtime(at + 1));
    var again := HighOf(mtime(at + 2));
    while high != again
      invariant i == at + 3 * retries
      invariant high == HighOf(mtime(i)) && low == LowOf(mtime(i + 1)) && again == HighOf(mtime(i + 2))
      invariant AllTorn(mtime, at, retries)
      invariant retries <= high - HighOf(mtime(at))
      decreases WORD_MODULUS - high
    {
      RoundGrows(mtime, i);
      assert Torn(mtime, i);
      retries := retries + 1;
      i := i + 3;
      high := HighOf(mtime(at + 3 * retries));
      low := LowOf(mtime(at + 3 * retries + 1));
      again := HighOf(mtime(at + 3 * retries + 2));
    }
    now := Joined(again, low);
    RoundGrows(mtime, i);
    UntornReadsTrue(mtime, i);
  }

  /** Why the high word is read twice: one high and one low read can give a time that never was. */
  lemma OneHighReadIsNotEnough(before: time)
    requires before % WORD_MODULUS == WORD_MODULUS - 1 && before + 1 < TIME_MODULUS
    ensures Joined(HighOf(before), LowOf(before + 1)) < before
    ensures Joined(HighOf(before + 1), LowOf(before)) > before + 1
  {
  }

  // ----- writing mtimecmp -----

  /** The interrupt line: level, while the counter has reached the compare value. */
  predicate Pending(mtime: time, compare: time) {
    mtime >= compare
  }

  /** The values the compare register holds during an update, after each of its three writes. */
  function UpdateSteps(before: time, value: time): (steps: seq<time>) {
    [Joined(HighOf(before), 0xffff_ffff), Joined(HighOf(value), 0xffff_ffff), value]
  }

  /** No step of an update raises the line unless the old or the new compare value has been reached. */
  lemma NoFalseInterrupt(before: time, value: time, k: nat, mtime: time)
    requires k < 3 && Pending(mtime, UpdateSteps(before, value)[k])
    ensures Pending(mtime, before) || Pending(mtime, value)
    ensures k == 0 ==> Pending(mtime, before)
    ensures k > 0 ==> Pending(mtime, value)
  {
    JoinedParts(before);
    JoinedParts(value);
  }

  /** Writing the two halves directly can raise it falsely: low half first, between these two deadlines. */
  lemma TwoWritesCanMisfire(mtime: time)
    requires HighOf(mtime) < 0xffff_ffff && LowOf(mtime) < 0xffff_ffff
    ensures exists before: time, value: time :: !Pending(mtime, before) && !Pending(mtime, value)
                                             && Pending(mtime, Joined(HighOf(before), LowOf(value)))
  {
    JoinedParts(mtime);
    var before: time := Joined(HighOf(mtime), 0xffff_ffff);
    var value: time := Joined(HighOf(mtime) + 1, 0);
    assert HighOf(before) == HighOf(mtime) && LowOf(value) == 0;
    assert !Pending(mtime, before) && !Pending(mtime, value);
    assert Pending(mtime, Joined(HighOf(before), LowOf(value)));
  }

  class CompareRegister {
    var low: word
    var high: word
    /** Every value the register has held, in order. */
    ghost var held: seq<time>

    constructor ()
      ensures Compare() == TIME_MODULUS - 1 && held == []
    {
      low, high, held := 0xffff_ffff, 0xffff_ffff, [];
    }

    function Compare(): time
      reads `low, `high
    {
      Joined(high, low)
    }

    method WriteLow(w: word)
      modifies this
      ensures low == w && high == old(high) && held == old(held) + [Compare()]
    {
      low := w;
      held := held + [Joined(high, low)];
    }

    method WriteHigh(w: word)
      modifies this
      ensures high == w && low == old(low) && held == old(held) + [Compare()]
    {
      high := w;
      held := held + [Joined(high, low)];
    }

    /** `machine_timer_set_compare`. */
    method SetCompare(value: time)
      modifies this
      ensures Compare() == value
      ensures held == old(held) + UpdateSteps(old(Compare()), value)
    {
      WriteLow(0xffff_ffff);
      WriteHigh(HighOf(value));
      WriteLow(LowOf(value));
      JoinedParts(value);
    }
  }

  // ----- ticks -----

  /** The running timer: the counter, the compare value, and the ticks served so far. */
  datatype Ticking = Ticking(mtime: time, compare: time, served: nat)

  datatype Moment = Passes(to: time) | Trap

  /** `next_compare += counts_per_tick`, in 64 bits. */
  function NextCompare(compare: time, counts: word): time {
    (compare + counts) % TIME_MODULUS
  }

  predicate MomentPossible(s: Ticking, m: Moment) {
    match m
    case Passes(to) => s.mtime <= to
    case Trap => Pending(s.mtime, s.compare)
  }

  function AfterMoment(s: Ticking, m: Moment, counts: word): Ticking {
    match m
    case Passes(to) => s.(mtime := to)
    case Trap => s.(compare := NextCompare(s.compare, counts), served := s.served + 1)
  }

  /** The state after the first `n` moments. */
  function Ticked(start: Ticking, run: seq<Moment>, counts: word, n: nat): Ticking
    requires n <= |run|
  {
    if n == 0 then start else AfterMoment(Ticked(start, run, counts, n - 1), run[n - 1], counts)
  }

  ghost predicate PossibleRun(start: Ticking, run: seq<Moment>, counts: word) {
    forall n: nat :: n < |run| ==> MomentPossible(Ticked(start, run, counts, n), run[n])
  }

  /** `xPortStartScheduler`: the counter was read as `t0` and has not gone back since. */
  predicate Started(s: Ticking, t0: time, counts: word) {
    t0 <= s.mtime && s.served == 0 && s.compare == NextCompare(t0, counts)
  }

  /** How far the ticks have got: tick `served` was due at its exact time. */
  predicate OnTime(s: Ticking, t0: time, counts: word) {
    && t0 + s.served * counts <= s.mtime
    && s.compare == t0 + (s.served + 1) * counts
  }

  lemma {:induction false} TimeGrows(start: Ticking, run: seq<Moment>, counts: word, n: nat)
    requires PossibleRun(start, run, counts) && n <= |run|
    ensures Ticked(start, run, counts, n).mtime <= Ticked(start, run, counts, |run|).mtime
    decreases |run| - n
  {
    if n < |run| {
      TimeGrows(start, run, counts, n + 1);
      assert MomentPossible(Ticked(start, run, counts, n), run[n]);
    }
  }

  /**
   * The compare value is always a whole number of ticks after the start: a trap
   * served late delays no later one.
   */
  lemma {:induction false} NoDrift(start: Ticking, run: seq<Moment>, counts: word, t0: time, n: nat)
    requires Started(start, t0, counts) && PossibleRun(start, run, counts) && n <= |run|
    requires Ticked(start, run, counts, |run|).mtime + counts < TIME_MODULUS
    ensures OnTime(Ticked(start, run, counts, n), t0, counts)
  {
    if n == 0 {
      TimeGrows(start, run, counts, 0);
    } else {
      NoDrift(start, run, counts, t0, n - 1);
      assert MomentPossible(Ticked(start, run, counts, n - 1), run[n - 1]);
      TimeGrows(start, run, counts, n);
      OneMoment(Ticked(start, run, counts, n - 1), run[n - 1], counts, t0);
    }
  }

  lemma OneMoment(s: Ticking, m: Moment, counts: word, t0: time)
    requires OnTime(s, t0, counts) && MomentPossible(s, m)
    requires AfterMoment(s, m, counts).mtime + counts < TIME_MODULUS
    ensures OnTime(AfterMoment(s, m, counts), t0, counts)
  {
    if m.Trap? {
      assert (s.served + 1) * counts + counts == (s.served + 2) * counts;
    }
  }

  /** Whenever no tick is pending, exactly the ticks that fell due have been served. */
  lemma ServedIsElapsed(start: Ticking, run: seq<Moment>, counts: word, t0: time)
    requires Started(start, t0, counts) && PossibleRun(start, run, counts) && counts > 0
    requires Ticked(start, run, counts, |run|).mtime + counts < TIME_MODULUS
    ensures var s := Ticked(start, run, counts, |run|);
            !Pending(s.mtime, s.compare) <==> s.served == (s.mtime - t0) / counts
  {
    NoDrift(start, run, counts, t0, |run|);
    var s := Ticked(start, run, counts, |run|);
    Quotient(s.mtime - t0, counts, s.served);
  }

  lemma ProductGrows(a: int, b: int, c: nat)
    ensures a <= b ==> a * c <= b * c
  {
  }

  lemma Quotient(d: int, c: nat, q: nat)
    requires c > 0 && q * c <= d
    ensures d < (q + 1) * c <==> q == d / c
  {
    var k := d / c;
    assert k * c <= d < (k + 1) * c;
    ProductGrows(q + 1, k, c);
    ProductGrows(k + 1, q, c);
  }

  /** Ticks served one after another while the counter stands still. */
  function Served(s: Ticking, counts: word, n: nat): Ticking {
    if n == 0 then s else AfterMoment(Served(s, counts, n - 1), Trap, counts)
  }

  /**
   * A backlog clears: serving the missing ticks back to back, each of them
   * pending in its turn, leaves nothing pending.
   */
  lemma {:induction false} BacklogClears(s: Ticking, counts: word, t0: time, n: nat)
    requires OnTime(s, t0, counts) && counts > 0 && s.mtime + counts < TIME_MODULUS
    requires s.served + n <= (s.mtime - t0) / counts
    ensures OnTime(Served(s, counts, n), t0, counts)
    ensures Served(s, counts, n).mtime == s.mtime && Served(s, counts, n).served == s.served + n
    ensures Pending(s.mtime, Served(s, counts, n).compare) <==> s.served + n < (s.mtime - t0) / counts
  {
    if n > 0 {
      BacklogClears(s, counts, t0, n - 1);
      OneMoment(Served(s, counts, n - 1), Trap, counts, t0);
    }
    Quotient(s.mtime - t0, counts, s.served + n);
  }
}
