// The playback position: a 16-bit hardware frame counter, a 32-bit `start`
// that absorbs pauses, and the round that samples it. Real time is the
// unbounded number of VGA ticks since power-on.
module PlaybackClock {
  import opened Words
  import opened Bam2Format
  import opened PackValidator
  import opened AudioEvents
  import opened FirmwareValidator
  import opened Player

  const COUNTER_MODULUS := 0x1_0000

  /** `vga_frame_count()` at real tick `t`. */
  function Counter(t: nat): (c: word) {
    t % COUNTER_MODULUS
  }

  /** `elapsed_vga_ticks(start)` at real tick `t`: an unsigned subtraction, then a 16-bit mask. */
  function ElapsedVgaTicks(t: nat, start: word): (e: word) {
    ((Counter(t) - start) % WORD_MODULUS) % COUNTER_MODULUS
  }

  lemma WrapTwice(x: int)
    ensures (x % WORD_MODULUS) % COUNTER_MODULUS == x % COUNTER_MODULUS
  {
    var q := x / WORD_MODULUS;
    assert x % WORD_MODULUS == x - q * WORD_MODULUS;
    AddMultiple(x - q * WORD_MODULUS, q * COUNTER_MODULUS);
  }

  lemma AddMultiple(x: int, q: int)
    ensures (x + q * COUNTER_MODULUS) % COUNTER_MODULUS == x % COUNTER_MODULUS
  {
  }

  /** Numbers that agree modulo 2^16 are a multiple of 2^16 apart. */
  predicate Agree(x: int, y: int) {
    x % COUNTER_MODULUS == y % COUNTER_MODULUS
  }

  lemma AgreeSub(x: int, y: int, x': int, y': int)
    requires Agree(x, x') && Agree(y, y')
    ensures Agree(x - y, x' - y') && Agree(x + y, x' + y')
  {
    var p, q := x / COUNTER_MODULUS - x' / COUNTER_MODULUS, y / COUNTER_MODULUS - y' / COUNTER_MODULUS;
    assert x == x' + p * COUNTER_MODULUS && y == y' + q * COUNTER_MODULUS;
    AddMultiple(x' - y', p - q);
    AddMultiple(x' + y', p + q);
  }

  class Clock {
    var start: word
    /** The real tick at which the round began, and the real length of all pauses since. */
    ghost var begun: nat
    ghost var paused: nat

    ghost predicate Valid()
      reads this
    {
      Agree(start, begun + paused)
    }

    /** The ticks played at real tick `t`: time since the round began, pauses not counted. */
    ghost function Played(t: nat): int
      reads this
    {
      t - begun - paused
    }

    constructor (t: nat)
      ensures Valid() && begun == t && paused == 0
    {
      start := Counter(t);
      begun, paused := t, 0;
    }

    /** The position is the played time modulo 2^16, through every wrap of counter and `start`. */
    method Elapsed(t: nat) returns (elapsed: word)
      requires Valid()
      ensures elapsed == Played(t) % COUNTER_MODULUS
      ensures 0 <= Played(t) < COUNTER_MODULUS ==> elapsed == Played(t)
    {
      elapsed := ElapsedVgaTicks(t, start);
      WrapTwice(Counter(t) - start);
      AgreeSub(Counter(t), start, t, begun + paused);
    }

    /** A pause from real tick `from` to real tick `to`, of any length, moves no position. */
    method Pause(from: nat, to: nat)
      requires Valid() && from <= to
      modifies this
      ensures Valid() && begun == old(begun) && paused == old(paused) + (to - from)
      ensures Played(to) == old(Played(from))
    {
      var pauseStart := Counter(from);
      var span := ElapsedVgaTicks(to, pauseStart);
      WrapTwice(Counter(to) - pauseStart);
      AgreeSub(Counter(to), pauseStart, to, from);
      AgreeSub(start, span, begun + paused, to - from);
      WrapTwice(start + span);
      start := (start + span) % WORD_MODULUS;
      paused := paused + (to - from);
    }
  }

  // ----- a round -----

  /**
   * One pass of the playback loop as the scheduler lets it happen: when the
   * guard and the body read the counter, the pause found between them if any,
   * and how many tones the audio queue takes.
   */
  datatype Pass = Pass(guardAt: nat, sampleAt: nat, pause: Option<(nat, nat, nat)>, room: nat)

  datatype RoundEnd = Passed | StreamNotFinished | Failed(outcome: Outcome) | StillPlaying

  /** The last tick that any part of the asset waits for. */
  function LastDue(a: Asset): int
    requires a.records != []
  {
    var lastFrame, lastEvent := (|a.records| - 1) * VIDEO_PERIOD_TICKS, if a.events == [] then 0 else a.events[|a.events| - 1].key;
    if lastFrame < lastEvent then lastEvent else lastFrame
  }

  /** When the body of a pass samples the position it plays by. */
  function SampleTime(p: Pass): nat {
    match p.pause
    case None => p.sampleAt
    case Some((_, _, resumed)) => resumed
  }

  /** Real time does not run backwards from `previous` on through the readings of a pass. */
  predicate PassInOrder(p: Pass, previous: nat) {
    && previous <= p.guardAt <= p.sampleAt
    && match p.pause
       case None => true
       case Some((from, to, resumed)) => p.sampleAt <= from <= to <= resumed
  }

  /** The latest time read before pass `i`. */
  function TimeBefore(passes: seq<Pass>, begun: nat, i: nat): nat
    requires i <= |passes|
  {
    if i == 0 then begun else SampleTime(passes[i - 1])
  }

  predicate InOrder(passes: seq<Pass>, begun: nat) {
    forall i :: 0 <= i < |passes| ==> PassInOrder(passes[i], TimeBefore(passes, begun, i))
  }

  // ----- what the passes amount to -----

  function PauseLength(p: Pass): int {
    match p.pause
    case None => 0
    case Some((from, to, _)) => to - from
  }

  /** The length of the pauses in the first `n` passes. */
  function PausedAfter(passes: seq<Pass>, n: nat): int
    requires n <= |passes|
  {
    if n == 0 then 0 else PausedAfter(passes, n - 1) + PauseLength(passes[n - 1])
  }

  /** The time played by the last reading of the first `n` passes: real time less the pauses. */
  function PlayedAfter(passes: seq<Pass>, begun: nat, n: nat): int
    requires n <= |passes|
  {
    TimeBefore(passes, begun, n) - begun - PausedAfter(passes, n)
  }

  /** The position that the guard of pass `i` sees, and the one its body plays by. */
  function GuardPosition(passes: seq<Pass>, begun: nat, i: nat): int
    requires i < |passes|
  {
    (passes[i].guardAt - begun - PausedAfter(passes, i)) % COUNTER_MODULUS
  }

  function SamplePosition(passes: seq<Pass>, begun: nat, i: nat): int
    requires i < |passes|
  {
    PlayedAfter(passes, begun, i + 1) % COUNTER_MODULUS
  }

  /** The largest position that the first `n` passes play by, -1 without a pass. */
  function PeakAfter(passes: seq<Pass>, begun: nat, n: nat): (peak: int)
    requires n <= |passes|
    ensures n > 0 ==> peak >= 0
    ensures n == 0 ==> peak == -1
  {
    if n == 0 then -1 else Later(PeakAfter(passes, begun, n - 1), SamplePosition(passes, begun, n - 1))
  }

  /** Played time starts at 0 and does not run backwards. */
  lemma {:induction false} PlayedGrows(passes: seq<Pass>, begun: nat, m: nat, n: nat)
    requires InOrder(passes, begun) && m <= n <= |passes|
    ensures 0 <= PlayedAfter(passes, begun, m) <= PlayedAfter(passes, begun, n)
    decreases n
  {
    if n > 0 {
      PlayedGrows(passes, begun, if m < n then m else n - 1, n - 1);
      assert PassInOrder(passes[n - 1], TimeBefore(passes, begun, n - 1));
    }
  }

  /** As long as the played time fits the counter, the largest position is the time played by the last sample. */
  lemma {:induction false} PeakIsPlayed(passes: seq<Pass>, begun: nat, n: nat)
    requires InOrder(passes, begun) && 0 < n <= |passes| && PlayedAfter(passes, begun, n) < COUNTER_MODULUS
    ensures PeakAfter(passes, begun, n) == PlayedAfter(passes, begun, n)
  {
    PlayedGrows(passes, begun, n - 1, n);
    if n > 1 {
      PeakIsPlayed(passes, begun, n - 1);
    }
  }

  /** The guard of pass `i` lets the round go on. */
  predicate GuardHolds(a: Asset, passes: seq<Pass>, begun: nat, i: nat)
    requires i < |passes|
  {
    GuardPosition(passes, begun, i) < a.duration
  }

  /** Everything that falls due in pass `i` can be played: tones in range, and room for their changes. */
  predicate CanPlayPass(a: Asset, passes: seq<Pass>, begun: nat, i: nat)
    requires i < |passes|
  {
    var first := DueEvents(a.events, PeakAfter(passes, begun, i));
    CanPlay(a.events, first, PeakAfter(passes, begun, i + 1), |TonesAfter(a.events, first)| + passes[i].room)
  }

  /** The first `n` passes were run. */
  predicate AllRan(a: Asset, passes: seq<Pass>, begun: nat, n: nat)
    requires n <= |passes|
  {
    forall i :: 0 <= i < n ==> GuardHolds(a, passes, begun, i) && CanPlayPass(a, passes, begun, i)
  }

  /** How a round ends after `n` passes: it leaves no choice, neither of the end nor of `n`. */
  predicate RoundIs(a: Asset, passes: seq<Pass>, begun: nat, n: nat, end: RoundEnd)
    requires a.records != []
  {
    && n <= |passes| && AllRan(a, passes, begun, n)
    && match end
       case StillPlaying => n == |passes|
       case Failed(outcome) =>
         outcome != Running && n < |passes| && GuardHolds(a, passes, begun, n) && !CanPlayPass(a, passes, begun, n)
       case Passed => n < |passes| && !GuardHolds(a, passes, begun, n) && PeakAfter(passes, begun, n) >= LastDue(a)
       case StreamNotFinished => n < |passes| && !GuardHolds(a, passes, begun, n) && PeakAfter(passes, begun, n) < LastDue(a)
  }

  lemma RoundNotAfter(a: Asset, passes: seq<Pass>, begun: nat, m: nat, end: RoundEnd, n: nat, other: RoundEnd)
    requires a.records != [] && RoundIs(a, passes, begun, m, end) && RoundIs(a, passes, begun, n, other)
    ensures m <= n
  {
  }

  /** Asset and passes determine how many passes are run and how the round ends. */
  lemma RoundDetermined(a: Asset, passes: seq<Pass>, begun: nat, m: nat, end: RoundEnd, n: nat, other: RoundEnd)
    requires a.records != [] && RoundIs(a, passes, begun, m, end) && RoundIs(a, passes, begun, n, other)
    ensures m == n && (end == other || (end.Failed? && other.Failed?))
  {
    RoundNotAfter(a, passes, begun, m, end, n, other);
    RoundNotAfter(a, passes, begun, n, other, m, end);
  }

  /**
   * The verdict on a round that was played to its end: it passes exactly when
   * the time played by its last sample had reached the last due tick, and never
   * without a sample.
   */
  lemma PassedIff(a: Asset, passes: seq<Pass>, begun: nat, n: nat, end: RoundEnd)
    requires a.records != [] && RoundIs(a, passes, begun, n, end) && InOrder(passes, begun)
    requires end in {Passed, StreamNotFinished} && PlayedAfter(passes, begun, n) < COUNTER_MODULUS
    ensures end == Passed <==> n > 0 && PlayedAfter(passes, begun, n) >= LastDue(a)
  {
    if n > 0 {
      PeakIsPlayed(passes, begun, n);
    }
  }

  /** A player that has reached the end of all streams has seen the last due tick, and the other way round. */
  lemma FinishedIff(events: seq<Pair>, records: seq<Record>, at: nat, peak: int)
    requires records != [] && SplitAt(events, at, peak) && peak >= -1
    requires forall i :: 1 <= i < |events| ==> events[i - 1].key < events[i].key
    ensures DueFrames(|records|, peak) == |records| && at == |events|
      <==> peak >= LastDue(Asset(0, 0, records, events))
  {
    if at < |events| - 1 {
      StrictOrder(events, at, |events| - 1);
    }
  }

  // ----- running the passes -----

  /** The position that one pass plays by, after the pause it may have found. */
  method Sample(clock: Clock, p: Pass, ghost previous: nat) returns (elapsed: word)
    requires clock.Valid() && PassInOrder(p, previous)
    modifies clock
    ensures clock.Valid() && clock.begun == old(clock.begun)
    ensures clock.paused == old(clock.paused) + PauseLength(p)
    ensures elapsed == clock.Played(SampleTime(p)) % COUNTER_MODULUS
  {
    elapsed := clock.Elapsed(p.sampleAt);
    match p.pause {
      case None =>
      case Some((from, to, resumed)) =>
        clock.Pause(from, to);
        elapsed := clock.Elapsed(resumed);
    }
  }

  /** The queue has room for every change of tone in the asset. */
  predicate Roomy(room: nat, events: seq<Pair>) {
    room >= |TonesAfter(events, |events|)|
  }

  /** What a pass that stopped says about the asset and the room it was given. */
  lemma WhyStopped(events: seq<Pair>, at: nat, outcome: Outcome, elapsed: int, later: int, limit: nat, room: nat)
    requires at <= |events| && StoppedBy(events, at, outcome, elapsed, |TonesAfter(events, at)| == limit)
    requires elapsed <= later && room <= limit
    ensures outcome != Running ==> StoppedBy(events, at, outcome, later, true)
    ensures InRange(events) ==> !outcome.RuntimeFail?
    ensures Roomy(room, events) ==> outcome != QueueFull
  {
    if outcome != Running {
      StoppedLater(events, at, outcome, elapsed, later, |TonesAfter(events, at)| == limit);
      if Roomy(room, events) {
        RoomIsEnough(events, at, outcome, elapsed, limit);
      }
    }
  }

  /**
   * One pass of the loop; `over` says that the guard found the round at its end,
   * and then nothing happens. Otherwise the pass takes its pause and plays by the
   * position after it; it goes on exactly when the tones due are in range and fit
   * the queue, and else has stopped at a due tone that is not or does not.
   */
  method RunPass(player: Player, clock: Clock, p: Pass, ghost last: nat) returns (over: bool, outcome: Outcome)
    requires player.Loaded() && player.CaughtUp() && clock.Valid() && PassInOrder(p, last)
    modifies player, player.framebuffer, clock
    ensures clock.Valid() && clock.begun == old(clock.begun) && player.before == old(player.before)
    ensures over <==> old(clock.Played(p.guardAt)) % COUNTER_MODULUS >= player.info.duration
    ensures clock.paused == old(clock.paused) + if over then 0 else PauseLength(p)
    ensures player.peak == if over then old(player.peak)
                           else Later(old(player.peak), clock.Played(SampleTime(p)) % COUNTER_MODULUS)
    ensures over ==> outcome == Running
    ensures outcome == Running ==> player.CaughtUp()
    ensures outcome == Running <==>
      over || CanPlay(player.a.events, old(player.audioIndex), player.peak, |old(player.queued)| + p.room)
    ensures outcome != Running ==> StoppedBy(player.a.events, player.audioIndex, outcome, player.peak, true)
    ensures Roomy(p.room, player.a.events) ==> outcome != QueueFull
  {
    var position := clock.Elapsed(p.guardAt);
    if position >= player.info.duration {
      return true, Running;
    }
    var elapsed := Sample(clock, p, last);
    ghost var limit := |player.queued| + p.room;
    outcome := player.CatchUp(elapsed, p.room);
    over := false;
    WhyStopped(player.a.events, player.audioIndex, outcome, elapsed, player.peak, limit, p.room);
  }

  /** Player and clock stand as the first `n` passes leave them. */
  ghost predicate StandsAfter(player: Player, clock: Clock, passes: seq<Pass>, n: nat)
    reads player, player.framebuffer, clock
  {
    && n <= |passes| && player.CaughtUp() && clock.Valid()
    && clock.paused == PausedAfter(passes, n) && player.peak == PeakAfter(passes, clock.begun, n)
  }

  /** Whether the loop goes on: it does, the guard ended it, or a pass could not be played. */
  datatype Halt = Going | AtGuard | Stopped(outcome: Outcome)

  /** The loop has run `n` passes and stands as `halt` says. */
  ghost predicate HaltIs(player: Player, clock: Clock, passes: seq<Pass>, n: nat, halt: Halt)
    reads player, player.framebuffer, clock
  {
    match halt
    case Going => StandsAfter(player, clock, passes, n)
    case AtGuard => StandsAfter(player, clock, passes, n) && n < |passes| && !GuardHolds(player.a, passes, clock.begun, n)
    case Stopped(outcome) =>
      && outcome != Running && n < |passes|
      && GuardHolds(player.a, passes, clock.begun, n) && !CanPlayPass(player.a, passes, clock.begun, n)
      && player.peak == PeakAfter(passes, clock.begun, n + 1)
      && StoppedBy(player.a.events, player.audioIndex, outcome, player.peak, true)
      && (Roomy(passes[n].room, player.a.events) ==> outcome != QueueFull)
  }

  /** The positions of pass `n`, told by the played times at its guard and its sample. */
  lemma NextPositions(a: Asset, passes: seq<Pass>, begun: nat, n: nat, atGuard: int, atSample: int)
    requires n < |passes|
    requires atGuard == passes[n].guardAt - begun - PausedAfter(passes, n)
    requires atSample == SampleTime(passes[n]) - begun - PausedAfter(passes, n) - PauseLength(passes[n])
    ensures PausedAfter(passes, n + 1) == PausedAfter(passes, n) + PauseLength(passes[n])
    ensures GuardHolds(a, passes, begun, n) <==> atGuard % COUNTER_MODULUS < a.duration
    ensures PeakAfter(passes, begun, n + 1) == Later(PeakAfter(passes, begun, n), atSample % COUNTER_MODULUS)
  {
    assert atSample == PlayedAfter(passes, begun, n + 1);
  }

  /** Pass `n` can be played, told by where the player stands before it. */
  lemma NextPass(a: Asset, passes: seq<Pass>, begun: nat, n: nat, at: nat, held: nat)
    requires n < |passes| && StrictTicks(a.events) && SplitAt(a.events, at, PeakAfter(passes, begun, n))
    requires held == |TonesAfter(a.events, at)|
    ensures CanPlayPass(a, passes, begun, n)
       <==> CanPlay(a.events, at, PeakAfter(passes, begun, n + 1), held + passes[n].room)
  {
    var peak := PeakAfter(passes, begun, n);
    DueEventsSplit(a.events, peak);
    SplitUnique(a.events, at, DueEvents(a.events, peak), peak);
  }

  /** Pass `n` of a round. */
  method RunNext(player: Player, clock: Clock, passes: seq<Pass>, n: nat) returns (halt: Halt)
    requires player.Loaded() && n < |passes|
    requires StandsAfter(player, clock, passes, n) && InOrder(passes, clock.begun)
    modifies player, player.framebuffer, clock
    ensures clock.begun == old(clock.begun) && player.before == old(player.before)
    ensures halt == Going ==> GuardHolds(player.a, passes, clock.begun, n) && CanPlayPass(player.a, passes, clock.begun, n)
    ensures HaltIs(player, clock, passes, if halt == Going then n + 1 else n, halt)
  {
    ghost var p, begun := passes[n], clock.begun;
    ghost var atGuard, atSample := clock.Played(p.guardAt), clock.Played(SampleTime(p)) - PauseLength(p);
    assert PassInOrder(p, TimeBefore(passes, begun, n));
    TicksIncrease(player.asset, player.info, player.a);
    NextPass(player.a, passes, begun, n, player.audioIndex, |player.queued|);
    NextPositions(player.a, passes, begun, n, atGuard, atSample);
    var over, outcome := RunPass(player, clock, passes[n], TimeBefore(passes, begun, n));
    assert over <==> atGuard % COUNTER_MODULUS >= player.info.duration;
    assert !over ==> clock.Played(SampleTime(p)) == atSample;
    assert player.peak == PeakAfter(passes, begun, if over then n else n + 1);
    halt := if over then AtGuard else if outcome == Running then Going else Stopped(outcome);
  }

  lemma OneMoreRan(a: Asset, passes: seq<Pass>, begun: nat, n: nat)
    requires n < |passes| && AllRan(a, passes, begun, n)
    requires GuardHolds(a, passes, begun, n) && CanPlayPass(a, passes, begun, n)
    ensures AllRan(a, passes, begun, n + 1)
  {
  }

  /** The passes of a round, up to the one that ends it. */
  method RunPasses(player: Player, clock: Clock, passes: seq<Pass>) returns (halt: Halt, n: nat)
    requires player.Loaded() && StandsAfter(player, clock, passes, 0) && InOrder(passes, clock.begun)
    modifies player, player.framebuffer, clock
    ensures clock.begun == old(clock.begun) && player.before == old(player.before)
    ensures n <= |passes| && AllRan(player.a, passes, clock.begun, n) && (halt == Going ==> n == |passes|)
    ensures HaltIs(player, clock, passes, n, halt)
  {
    n, halt := 0, Going;
    while n < |passes|
      invariant n <= |passes| && clock.begun == old(clock.begun) && player.before == old(player.before)
      invariant halt == Going && StandsAfter(player, clock, passes, n)
      invariant AllRan(player.a, passes, clock.begun, n)
    {
      ghost var ran := n;
      halt := RunNext(player, clock, passes, n);
      if halt != Going {
        return;
      }
      n := n + 1;
      OneMoreRan(player.a, passes, clock.begun, ran);
    }
  }

  /**
   * The playback loop of one round and the verdict after it. The number `n` of
   * passes run and the end are those the asset and the passes determine; a round
   * that did not fail leaves player and clock as those passes do. A round fails
   * only at a due tone that is out of range or finds the queue full.
   */
  method PlayRound(player: Player, clock: Clock, passes: seq<Pass>) returns (end: RoundEnd, n: nat)
    requires player.Loaded() && player.CaughtUp() && player.peak == -1 && player.a.records != []
    requires clock.Valid() && clock.paused == 0 && InOrder(passes, clock.begun)
    modifies player, player.framebuffer, clock
    ensures clock.begun == old(clock.begun) && player.before == old(player.before)
    ensures RoundIs(player.a, passes, clock.begun, n, end)
    ensures !end.Failed? ==> StandsAfter(player, clock, passes, n)
    ensures end.Failed? ==> player.peak == PeakAfter(passes, clock.begun, n + 1)
    ensures end.Failed? ==> StoppedBy(player.a.events, player.audioIndex, end.outcome, player.peak, true)
    ensures InRange(player.a.events) ==> !(end.Failed? && end.outcome.RuntimeFail?)
    ensures (forall i :: 0 <= i < |passes| ==> Roomy(passes[i].room, player.a.events)) ==> end != Failed(QueueFull)
  {
    var halt;
    halt, n := RunPasses(player, clock, passes);
    match halt {
      case Going =>
        end := StillPlaying;
      case AtGuard =>
        end := Verdict(player);
      case Stopped(outcome) =>
        end := Failed(outcome);
    }
  }

  /** The check after the loop: have all streams been played to their ends? */
  method Verdict(player: Player) returns (end: RoundEnd)
    requires player.Loaded() && player.CaughtUp() && player.peak >= -1 && player.a.records != []
    ensures end == if player.peak >= LastDue(player.a) then Passed else StreamNotFinished
  {
    TicksIncrease(player.asset, player.info, player.a);
    FinishedIff(player.a.events, player.a.records, player.audioIndex, player.peak);
    if player.frame != player.info.frameCount || player.videoCursor != player.info.videoEndWord ||
       player.audioIndex != player.info.audioCount
    {
      return StreamNotFinished;
    }
    return Passed;
  }
}
