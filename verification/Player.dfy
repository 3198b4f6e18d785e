// The playback task of `bad_apple_full.c`: it samples an elapsed tick at
// irregular times and catches the screen and the tone up with it.
module Player {
  import opened Words
  import opened Bam2Format
  import opened Packer
  import opened PackValidator
  import opened AudioEvents
  import opened FirmwareValidator

  const MAX_HZ: word := 5000
  const FAIL_FREQUENCY: word := 0xba17

  /**
   * How one catch-up ends. `runtime_fail` and `fail` never return; the codes
   * for a broken stream (0xba13 to 0xba16) do not occur in this type because
   * the branches that would raise them are proved dead.
   */
  datatype Outcome = Running | RuntimeFail(code: word) | QueueFull

  // ----- what the first `k` records and events amount to -----

  /** The screen after the first `k` records. */
  function PictureAfter(fb: Frame, rs: seq<Record>, k: nat): Frame
    requires k <= |rs| && AllIndicesOk(rs)
  {
    if k == 0 then fb else Apply(PictureAfter(fb, rs, k - 1), rs[k - 1])
  }

  /** The word at which record `k` begins. */
  function CursorAfter(rs: seq<Record>, k: nat): nat
    requires k <= |rs|
  {
    if k == 0 then HEADER_WORDS else CursorAfter(rs, k - 1) + 1 + 2 * |rs[k - 1]|
  }

  /** The tone left by the first `k` events, 0 before the first. */
  function HzAfter(events: seq<Pair>, k: nat): int
    requires k <= |events|
  {
    if k == 0 then 0 else MaskBeat(events[k - 1].value)
  }

  /** The number of beats among the first `k` events. */
  function BeatsAfter(events: seq<Pair>, k: nat): nat
    requires k <= |events|
  {
    if k == 0 then 0 else BeatsAfter(events, k - 1) + if HasBeat(events[k - 1].value) then 1 else 0
  }

  /** What the audio queue has been sent after the first `k` events: every change of tone. */
  function TonesAfter(events: seq<Pair>, k: nat): seq<int>
    requires k <= |events|
  {
    if k == 0 then []
    else if HzAfter(events, k) != HzAfter(events, k - 1) then TonesAfter(events, k - 1) + [HzAfter(events, k)]
    else TonesAfter(events, k - 1)
  }

  /** How many of `n` frames are due at elapsed tick `t`. */
  function DueFrames(n: nat, t: int): nat {
    if t < 0 then 0 else if t / VIDEO_PERIOD_TICKS + 1 <= n then t / VIDEO_PERIOD_TICKS + 1 else n
  }

  /** The loop guard says that frame `k` is due. */
  lemma DueIff(n: nat, k: nat, t: nat)
    ensures k < n && k * VIDEO_PERIOD_TICKS <= t <==> k < DueFrames(n, t)
  {
  }

  lemma {:induction false} PictureIsPlayback(fb: Frame, rs: seq<Record>, k: nat)
    requires k <= |rs| && AllIndicesOk(rs)
    ensures AllIndicesOk(rs[..k]) && PictureAfter(fb, rs, k) == Playback(fb, rs[..k])
  {
    if k > 0 {
      PictureIsPlayback(fb, rs, k - 1);
      assert rs[..k][..k - 1] == rs[..k - 1];
    }
  }

  /** The last tone sent to the queue is the tone the player believes in. */
  lemma {:induction false} LastToneIsCurrent(events: seq<Pair>, k: nat)
    requires k <= |events|
    ensures var tones := TonesAfter(events, k); HzAfter(events, k) == if tones == [] then 0 else tones[|tones| - 1]
  {
    if k > 0 {
      LastToneIsCurrent(events, k - 1);
    }
  }

  /** Nothing the queue was sent is ever taken back, and each event sends at most one tone. */
  lemma {:induction false} TonesExtend(events: seq<Pair>, k: nat, n: nat)
    requires k <= n <= |events|
    ensures TonesAfter(events, k) <= TonesAfter(events, n) && |TonesAfter(events, n)| <= |TonesAfter(events, k)| + (n - k)
  {
    if k < n {
      TonesExtend(events, k, n - 1);
    }
  }

  /** The queue is sent changes only: never silence first, never the tone it was sent last. */
  lemma {:induction false} TonesAreChanges(events: seq<Pair>, k: nat)
    requires k <= |events|
    ensures var tones := TonesAfter(events, k);
      (tones != [] ==> tones[0] != 0) && forall i :: 1 <= i < |tones| ==> tones[i - 1] != tones[i]
  {
    if k > 0 {
      TonesAreChanges(events, k - 1);
      LastToneIsCurrent(events, k - 1);
    }
  }

  // ----- where things stand in the asset -----

  lemma {:induction false} CursorIsStream(rs: seq<Record>, k: nat)
    requires k <= |rs|
    ensures CursorAfter(rs, k) == HEADER_WORDS + |VideoWords(rs[..k])|
  {
    if k > 0 {
      CursorIsStream(rs, k - 1);
      VideoUpTo(rs, k - 1);
    }
  }

  lemma RecordsFrom(asset: seq<word>, a: Asset, k: nat)
    requires Serialize(a) <= asset && k <= |a.records|
    ensures CursorAfter(a.records, k) <= AudioByte(a) / 4 <= |asset|
    ensures asset[CursorAfter(a.records, k)..AudioByte(a) / 4] == VideoWords(a.records[k..])
  {
    SerializeParts(a, asset);
    CursorIsStream(a.records, k);
    VideoFrom(a.records, k);
    var end, at := AudioByte(a) / 4, |VideoWords(a.records[..k])|;
    SliceOfSlice(asset, HEADER_WORDS, end, at, end - HEADER_WORDS);
    assert VideoWords(a.records)[at..] == VideoWords(a.records[k..]);
  }

  /** Every check the player repeats on record `k` passes. */
  ghost predicate RecordReady(asset: seq<word>, info: Info, a: Asset, k: nat)
    requires k < |a.records|
  {
    var cursor, r := CursorAfter(a.records, k), a.records[k];
    && cursor + 1 + 2 * |r| <= info.videoEndWord <= |asset|
    && asset[cursor] == |r| <= FRAMEBUFFER_WORDS
    && PairsAt(asset, cursor + 1, |r|) == r
    && IndicesOk(r)
  }

  /** Every check the player repeats on event `i` passes. */
  ghost predicate EventReady(asset: seq<word>, info: Info, a: Asset, i: nat)
    requires i < |a.events|
  {
    var at := info.audioWord + i * 2;
    && at + 1 < |asset| && asset[at] == a.events[i].key && asset[at + 1] == a.events[i].value
    && 0 <= a.events[i].key < info.duration && (i > 0 ==> a.events[i - 1].key < a.events[i].key)
  }

  /** What the player needs of an asset, its arithmetic staying inside 32 bits. */
  ghost predicate Playable(asset: seq<word>, info: Info, a: Asset) {
    && |asset| < WORD_MODULUS && info.videoEndWord == CursorAfter(a.records, |a.records|)
    && info.frameCount == |a.records| && info.audioCount == |a.events| && info.videoWord == HEADER_WORDS
    && info.duration == a.duration
    && |a.records| * VIDEO_PERIOD_TICKS < WORD_MODULUS && info.audioWord + 2 * |a.events| < WORD_MODULUS
    && AllIndicesOk(a.records)
    && (forall k :: 0 <= k < |a.records| ==> RecordReady(asset, info, a, k))
    && (forall i :: 0 <= i < |a.events| ==> EventReady(asset, info, a, i))
  }

  lemma ValidRecordReady(asset: seq<word>, a: Asset, k: nat)
    requires FirmwareOk(a) && Serialize(a) <= asset && k < |a.records|
    ensures |asset| >= HEADER_WORDS && RecordReady(asset, InfoOf(asset), a, k)
  {
    RecordsFrom(asset, a, k);
    FirstRecordAt(asset, CursorAfter(a.records, k), AudioByte(a) / 4, a.records[k..]);
    HeaderFields(a, asset);
  }

  /** The two words of an event. */
  lemma EventWords(asset: seq<word>, a: Asset, i: nat)
    requires Serialize(a) <= asset && i < |a.events|
    ensures var at := AudioByte(a) / 4 + i * 2;
      at + 1 < |asset| && asset[at] == a.events[i].key && asset[at + 1] == a.events[i].value
  {
    SerializeParts(a, asset);
    PairWords(asset, AudioByte(a) / 4, a.events, i);
  }

  lemma PairWords(ws: seq<word>, at: nat, ps: seq<Pair>, i: nat)
    requires i < |ps| && at + 2 * |ps| <= |ws| && PairsAt(ws, at, |ps|) == ps
    ensures ws[at + i * 2] == ps[i].key && ws[at + i * 2 + 1] == ps[i].value
  {
    assert PairsAt(ws, at, |ps|)[i] == ps[i];
  }

  lemma ValidEventReady(asset: seq<word>, a: Asset, i: nat)
    requires FirmwareOk(a) && Serialize(a) <= asset && i < |a.events|
    ensures |asset| >= HEADER_WORDS && EventReady(asset, InfoOf(asset), a, i)
  {
    HeaderFields(a, asset);
    EventWords(asset, a, i);
  }

  /** An asset that passed validation is playable: no check the player repeats can fail. */
  lemma ValidIsPlayable(asset: seq<word>, a: Asset)
    requires FirmwareOk(a) && Serialize(a) <= asset && |asset| < WORD_MODULUS
    ensures |asset| >= HEADER_WORDS && Playable(asset, InfoOf(asset), a)
  {
    HeaderFields(a, asset);
    RecordCountBound(a.records);
    CursorIsStream(a.records, |a.records|);
    assert a.records[..|a.records|] == a.records;
    forall k | 0 <= k < |a.records|
      ensures RecordReady(asset, InfoOf(asset), a, k)
    {
      ValidRecordReady(asset, a, k);
    }
    forall i | 0 <= i < |a.events|
      ensures EventReady(asset, InfoOf(asset), a, i)
    {
      ValidEventReady(asset, a, i);
    }
  }

  /** The events from `first` to `at` were due at `elapsed`, and their tones in range. */
  predicate PlayedDue(events: seq<Pair>, first: nat, at: nat, elapsed: int) {
    && first <= at <= |events|
    && (forall i :: first <= i < at ==> events[i].key <= elapsed && MaskBeat(events[i].value) <= MAX_HZ)
  }

  lemma TicksIncrease(asset: seq<word>, info: Info, a: Asset)
    requires Playable(asset, info, a)
    ensures StrictTicks(a.events)
  {
    forall i | 1 <= i < |a.events|
      ensures a.events[i - 1].key < a.events[i].key
    {
      assert EventReady(asset, info, a, i);
    }
  }

  lemma SplitIsAfter(events: seq<Pair>, n: nat, i: nat, t: int)
    requires StrictTicks(events) && SplitAt(events, n, t) && i < |events| && events[i].key <= t
    ensures i < n
  {
    if n < i {
      StrictOrder(events, n, i);
    }
  }

  lemma SplitNotAfter(events: seq<Pair>, m: nat, n: nat, t: int)
    requires SplitAt(events, m, t) && SplitAt(events, n, t)
    ensures m <= n
  {
  }

  lemma SplitUnique(events: seq<Pair>, m: nat, n: nat, t: int)
    requires SplitAt(events, m, t) && SplitAt(events, n, t)
    ensures m == n
  {
    SplitNotAfter(events, m, n, t);
    SplitNotAfter(events, n, m, t);
  }

  /** How many of the first `n` events come before the first that is after `t`, looking from the end. */
  function DueUpTo(events: seq<Pair>, n: nat, t: int): (due: nat)
    requires n <= |events|
    ensures due <= n
  {
    if n == 0 || events[n - 1].key <= t then n else DueUpTo(events, n - 1, t)
  }

  /** How many events are due at `t`. */
  function DueEvents(events: seq<Pair>, t: int): (due: nat)
    ensures due <= |events|
  {
    DueUpTo(events, |events|, t)
  }

  lemma {:induction false} DueUpToSplits(events: seq<Pair>, n: nat, t: int)
    requires StrictTicks(events) && n <= |events| && (n < |events| ==> t < events[n].key)
    ensures SplitAt(events, DueUpTo(events, n, t), t)
  {
    if n > 0 {
      if events[n - 1].key <= t {
        forall i | 0 <= i < n
          ensures events[i].key <= t
        {
          if i < n - 1 {
            StrictOrder(events, i, n - 1);
          }
        }
      } else {
        DueUpToSplits(events, n - 1, t);
      }
    }
  }

  lemma DueEventsSplit(events: seq<Pair>, t: int)
    requires StrictTicks(events)
    ensures SplitAt(events, DueEvents(events, t), t)
  {
    DueUpToSplits(events, |events|, t);
  }

  /** Every tone from event `first` to time `t` is in range, and `limit` sends are enough for all changes so far. */
  predicate CanPlay(events: seq<Pair>, first: nat, t: int, limit: nat) {
    && (forall i :: first <= i < DueEvents(events, t) ==> MaskBeat(events[i].value) <= MAX_HZ)
    && |TonesAfter(events, DueEvents(events, t))| <= limit
  }

  lemma {:induction false} TonesGrow(events: seq<Pair>, k: nat, n: nat)
    requires k <= n <= |events|
    ensures |TonesAfter(events, k)| <= |TonesAfter(events, n)|
  {
    if k < n {
      TonesGrow(events, k, n - 1);
    }
  }

  /** Why the audio loop ended at event `at`; `full` says that the queue had no room left. */
  predicate StoppedBy(events: seq<Pair>, at: nat, outcome: Outcome, elapsed: int, full: bool) {
    && at <= |events|
    && match outcome
       case Running => at < |events| ==> elapsed < events[at].key
       case RuntimeFail(code) =>
         at < |events| && events[at].key <= elapsed && code == FAIL_FREQUENCY && MaskBeat(events[at].value) > MAX_HZ
       case QueueFull =>
         at < |events| && events[at].key <= elapsed && MaskBeat(events[at].value) != HzAfter(events, at) && full
  }

  /** No tone is out of the buzzer's range. */
  predicate InRange(events: seq<Pair>) {
    forall i :: 0 <= i < |events| ==> MaskBeat(events[i].value) <= MAX_HZ
  }

  /** A loop that could not go on stopped for a reason still true of any later time. */
  lemma StoppedLater(events: seq<Pair>, at: nat, outcome: Outcome, elapsed: int, later: int, full: bool)
    requires StoppedBy(events, at, outcome, elapsed, full) && outcome != Running && elapsed <= later
    ensures StoppedBy(events, at, outcome, later, true)
    ensures InRange(events) ==> !outcome.RuntimeFail?
  {
  }

  /** A queue that takes every change of tone in the asset is never found full. */
  lemma RoomIsEnough(events: seq<Pair>, at: nat, outcome: Outcome, elapsed: int, limit: nat)
    requires at <= |events| && StoppedBy(events, at, outcome, elapsed, |TonesAfter(events, at)| == limit)
    requires limit >= |TonesAfter(events, |events|)|
    ensures outcome != QueueFull
  {
    if outcome == QueueFull {
      TonesGrow(events, at + 1, |events|);
    }
  }

  /** The audio loop ran through exactly when every due tone is in range and fits the queue. */
  lemma RunsIff(events: seq<Pair>, first: nat, at: nat, outcome: Outcome, peak: int, elapsed: int, limit: nat)
    requires StrictTicks(events) && first <= at <= |events| && SplitAt(events, first, peak)
    requires PlayedDue(events, first, at, elapsed)
    requires |TonesAfter(events, at)| <= limit
    requires StoppedBy(events, at, outcome, elapsed, |TonesAfter(events, at)| == limit)
    ensures outcome == Running ==> SplitAt(events, at, Later(peak, elapsed))
    ensures outcome == Running <==> CanPlay(events, first, Later(peak, elapsed), limit)
  {
    var due := DueEvents(events, Later(peak, elapsed));
    DueEventsSplit(events, Later(peak, elapsed));
    if outcome == Running {
      if first < at && first < at - 1 {
        StrictOrder(events, first, at - 1);
      }
      assert SplitAt(events, at, Later(peak, elapsed));
    } else {
      SplitIsAfter(events, due, at, Later(peak, elapsed));
      TonesGrow(events, at + 1, due);
    }
  }

  function Later(peak: int, elapsed: int): int {
    if peak < elapsed then elapsed else peak
  }

  class Player {
    const asset: seq<word>
    const info: Info
    ghost const a: Asset

    var videoCursor: word
    var frame: word
    var audioIndex: word
    var previousAudioTick: word
    var currentHz: word
    const framebuffer: array<int>
    var notifications: nat
    var queued: seq<int>

    /** What the screen held when the round began. */
    ghost var before: Frame
    /** The largest elapsed tick sampled so far, -1 before the first sample. */
    ghost var peak: int

    ghost predicate Loaded() {
      Playable(asset, info, a)
    }

    /** The screen shows the first `frame` records played over what it held before. */
    ghost predicate VideoOk()
      reads `frame, `videoCursor, `before, framebuffer
    {
      && framebuffer.Length == FRAMEBUFFER_WORDS
      && frame <= |a.records| && AllIndicesOk(a.records)
      && framebuffer[..] == PictureAfter(before, a.records, frame)
      && videoCursor == CursorAfter(a.records, frame)
    }

    /** Tone, queue and, but for `ahead` more, notifications are what the first `audioIndex` events make them. */
    ghost predicate AudioAt(ahead: nat)
      reads `audioIndex, `previousAudioTick, `currentHz, `notifications, `queued
    {
      && audioIndex <= |a.events|
      && currentHz == HzAfter(a.events, audioIndex)
      && (audioIndex > 0 ==> previousAudioTick == a.events[audioIndex - 1].key)
      && notifications == BeatsAfter(a.events, audioIndex) + ahead
      && queued == TonesAfter(a.events, audioIndex)
    }

    ghost predicate AudioOk()
      reads `audioIndex, `previousAudioTick, `currentHz, `notifications, `queued
    {
      AudioAt(0)
    }

    /** A full queue is noticed after the beat of its event has been notified. */
    ghost predicate AudioEnded(outcome: Outcome)
      reads `audioIndex, `previousAudioTick, `currentHz, `notifications, `queued
    {
      AudioAt(if outcome == QueueFull && audioIndex < |a.events| && HasBeat(a.events[audioIndex].value) then 1 else 0)
    }

    /** Everything due by the largest sample has been shown and sounded, and nothing more. */
    ghost predicate CaughtUp()
      reads this, framebuffer
    {
      && VideoOk() && AudioOk()
      && frame == DueFrames(|a.records|, peak)
      && SplitAt(a.events, audioIndex, peak)
    }

    /** The start of a round. */
    constructor (asset: seq<word>, info: Info, framebuffer: array<int>, ghost a: Asset)
      requires Playable(asset, info, a)
      requires framebuffer.Length == FRAMEBUFFER_WORDS
      ensures this.asset == asset && this.info == info && this.framebuffer == framebuffer
      ensures this.a == a && before == old(framebuffer[..]) && peak == -1
      ensures Loaded() && CaughtUp()
    {
      assert a.events != [] ==> EventReady(asset, info, a, 0);
      this.asset, this.info, this.framebuffer, this.a := asset, info, framebuffer, a;
      videoCursor, frame, audioIndex, previousAudioTick, currentHz := info.videoWord, 0, 0, 0, 0;
      notifications, queued := 0, [];
      before, peak := framebuffer[..], -1;
    }

    /** The writes of one record, from the cursor on; `r` is that record. */
    method ApplyRecord(changes: word, ghost r: seq<Pair>)
      requires framebuffer.Length == FRAMEBUFFER_WORDS && |asset| < WORD_MODULUS
      requires changes == |r| && videoCursor + 2 * |r| <= |asset|
      requires PairsAt(asset, videoCursor, |r|) == r && IndicesOk(r)
      modifies this`videoCursor, framebuffer
      ensures framebuffer[..] == Apply(old(framebuffer[..]), r)
      ensures videoCursor == old(videoCursor) + 2 * |r|
    {
      ghost var first, was := videoCursor, framebuffer[..];
      var change: word := 0;
      assert r[..0] == [];
      while change < changes
        invariant change <= changes && videoCursor == first + 2 * change
        invariant framebuffer[..] == Apply(was, r[..change])
      {
        assert r[change] == PairsAt(asset, first, |r|)[change] && 0 <= r[change].key < FRAMEBUFFER_WORDS;
        var index := asset[videoCursor];
        var value := asset[videoCursor + 1];
        videoCursor := videoCursor + 2;
        if index >= FRAMEBUFFER_WORDS {
          assert false;  // runtime_fail(0xba15) is dead
        }
        ghost var picture := framebuffer[..];
        framebuffer[index] := value;
        assert framebuffer[..] == picture[index := value];
        ApplyUpTo(was, r, change);
        change := change + 1;
      }
      assert r[..changes] == r;
    }

    /** The loop over the frames that are due. */
    method CatchUpVideo(elapsed: word)
      requires Loaded() && VideoOk()
      modifies this`videoCursor, this`frame, framebuffer
      ensures VideoOk()
      ensures frame == if old(frame) < DueFrames(|a.records|, elapsed) then DueFrames(|a.records|, elapsed) else old(frame)
    {
      while frame < info.frameCount && frame * VIDEO_PERIOD_TICKS <= elapsed
        invariant VideoOk()
        invariant old(frame) <= frame
        invariant frame == old(frame) || frame <= DueFrames(|a.records|, elapsed)
        decreases info.frameCount - frame
      {
        DueIff(|a.records|, frame, elapsed);
        assert RecordReady(asset, info, a, frame);
        if videoCursor >= info.videoEndWord {
          assert false;  // runtime_fail(0xba13) is dead
        }
        var changes := asset[videoCursor];
        videoCursor := videoCursor + 1;
        if changes > FRAMEBUFFER_WORDS || changes > (info.videoEndWord - videoCursor) / 2 {
          assert false;  // runtime_fail(0xba14) is dead
        }
        ApplyRecord(changes, a.records[frame]);
        frame := frame + 1;
      }
      DueIff(|a.records|, frame, elapsed);
    }

    /** One due event: notify its beat, send its tone if it is a new one and the queue is not full. */
    method PlayEvent(tick: word, value: word, full: bool) returns (taken: bool)
      requires AudioOk() && audioIndex < |a.events| && audioIndex + 1 < WORD_MODULUS
      requires a.events[audioIndex] == Pair(tick, value) && MaskBeat(value) <= MAX_HZ
      modifies this`audioIndex, this`previousAudioTick, this`currentHz, this`notifications, this`queued
      ensures taken <==> !full || MaskBeat(value) == old(currentHz)
      ensures taken ==> AudioOk() && audioIndex == old(audioIndex) + 1
      ensures taken ==> |queued| == |old(queued)| + if MaskBeat(value) != old(currentHz) then 1 else 0
      ensures !taken ==> AudioEnded(QueueFull) && audioIndex == old(audioIndex) && queued == old(queued)
    {
      var hz := MaskBeat(value);
      if HasBeat(value) {
        notifications := notifications + 1;
      }
      if hz != currentHz {
        if full {
          return false;
        }
        queued := queued + [hz];
        currentHz := hz;
      }
      previousAudioTick := tick;
      audioIndex := audioIndex + 1;
      taken := true;
    }

    /**
     * The loop over the audio events that are due; `room` is the number of
     * sends the audio queue takes before it is full.
     */
    method CatchUpAudio(elapsed: word, room: nat) returns (outcome: Outcome)
      requires Loaded() && AudioOk()
      modifies this`audioIndex, this`previousAudioTick, this`currentHz, this`notifications, this`queued
      ensures AudioEnded(outcome) && PlayedDue(a.events, old(audioIndex), audioIndex, elapsed)
      ensures |queued| <= |old(queued)| + room
      ensures StoppedBy(a.events, audioIndex, outcome, elapsed, |queued| == |old(queued)| + room)
    {
      var held, sent := |queued|, 0;
      while audioIndex < info.audioCount
        invariant AudioOk() && PlayedDue(a.events, old(audioIndex), audioIndex, elapsed)
        invariant held == |old(queued)| && sent <= room && |queued| == held + sent
        decreases info.audioCount - audioIndex
      {
        assert EventReady(asset, info, a, audioIndex);
        var eventWord: word := info.audioWord + audioIndex * 2;
        var eventTick := asset[eventWord];
        if eventTick >= info.duration || (audioIndex != 0 && eventTick <= previousAudioTick) {
          assert false;  // runtime_fail(0xba16) is dead
        }
        if eventTick > elapsed {
          break;
        }
        var value := asset[eventWord + 1];
        var hz := MaskBeat(value);
        if hz > MAX_HZ {
          return RuntimeFail(FAIL_FREQUENCY);
        }
        var taken := PlayEvent(eventTick, value, sent == room);
        if !taken {
          return QueueFull;
        }
        sent := |queued| - held;
      }
      outcome := Running;
    }

    /**
     * One pass of the playback loop at a sampled elapsed tick. Whatever was
     * sampled before, in whatever order, afterwards the player has done exactly
     * what is due by the largest sample. It goes on exactly when every due tone
     * is in range and the queue takes every due change of tone; otherwise it has
     * stopped at the first due event whose tone is neither.
     */
    method CatchUp(elapsed: word, room: nat) returns (outcome: Outcome)
      requires Loaded() && CaughtUp()
      modifies this`videoCursor, this`frame, this`audioIndex, this`previousAudioTick, this`currentHz,
               this`notifications, this`queued, this`peak, framebuffer
      ensures VideoOk() && AudioEnded(outcome)
      ensures PlayedDue(a.events, old(audioIndex), audioIndex, elapsed)
      ensures StoppedBy(a.events, audioIndex, outcome, elapsed, |queued| == |old(queued)| + room)
      ensures peak == Later(old(peak), elapsed) && frame == DueFrames(|a.records|, peak)
      ensures outcome == Running ==> SplitAt(a.events, audioIndex, peak)
      ensures outcome == Running <==>
        CanPlay(a.events, old(audioIndex), Later(old(peak), elapsed), |old(queued)| + room)
    {
      ghost var first, was, limit := audioIndex, peak, |queued| + room;
      peak := Later(peak, elapsed);
      CatchUpVideo(elapsed);
      outcome := CatchUpAudio(elapsed, room);
      TicksIncrease(asset, info, a);
      RunsIff(a.events, first, audioIndex, outcome, was, elapsed, limit);
    }
  }
}
