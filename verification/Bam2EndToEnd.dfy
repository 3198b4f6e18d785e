// From the packer's inputs to what the board shows: the pipeline of `main` in
// `make_bad_apple_full_asset.py`, the firmware's validator and the player, as
// one statement about source frames, source tones and source beats
// (`ShowOnBoard`).
module Bam2EndToEnd {
  import opened Words
  import opened Bam2Format
  import opened Packer
  import opened PackValidator
  import opened AudioEvents
  import opened Player
  import opened PlaybackClock
  import FirmwareValidator

  // ----- the size of what `main` builds -----

  const RECORD_LIMIT := 1 + 2 * FRAMEBUFFER_WORDS

  lemma {:induction false} VideoSize(rs: seq<Record>, n: nat)
    requires n <= |rs| && forall k :: 0 <= k < |rs| ==> |rs[k]| <= FRAMEBUFFER_WORDS
    ensures |VideoWords(rs[..n])| <= RECORD_LIMIT * n
  {
    if n == 0 {
      assert rs[..0] == [];
    } else {
      VideoSize(rs, n - 1);
      VideoUpTo(rs, n - 1);
    }
  }

  lemma {:induction false} StrictCount(events: seq<Pair>, lo: int, hi: int)
    requires StrictTicks(events) && TicksWithin(events, lo, hi) && lo <= hi
    ensures |events| <= hi - lo
  {
    if events != [] {
      var init, last := events[..|events| - 1], events[|events| - 1];
      forall i | 0 <= i < |init|
        ensures lo <= init[i].key < last.key
      {
        assert init[i] == events[i];
        StrictOrder(events, i, |events| - 1);
      }
      StrictCount(init, lo, last.key);
    }
  }

  /** A duration that fits the player fits 16 MiB by far. */
  lemma FitsSixteenMiB(frames: seq<Frame>, events: seq<Pair>)
    requires StrictTicks(events) && TicksWithin(events, 0, VIDEO_PERIOD_TICKS * |frames|)
    requires VIDEO_PERIOD_TICKS * |frames| < FirmwareValidator.DURATION_LIMIT
    ensures TotalBytes(AssetOf(frames, events, VIDEO_PERIOD_TICKS * |frames|)) <= MAX_ASSET_BYTES
  {
    EncodedRecordsOk(frames);
    VideoSize(RecordsOf(frames), |frames|);
    assert RecordsOf(frames)[..|frames|] == RecordsOf(frames);
    StrictCount(events, 0, VIDEO_PERIOD_TICKS * |frames|);
  }

  /** What both validators need of an encoded asset, of any duration the player can count. */
  lemma EncodedIsAcceptable(frames: seq<Frame>, events: seq<Pair>, duration: int)
    requires frames != [] && 1 <= duration < FirmwareValidator.DURATION_LIMIT
    requires StrictTicks(events) && TicksWithin(events, 0, duration)
    requires TotalBytes(AssetOf(frames, events, duration)) <= MAX_ASSET_BYTES
    ensures HostOk(AssetOf(frames, events, duration)) && FirmwareValidator.FirmwareOk(AssetOf(frames, events, duration))
  {
    EncodedRecordsOk(frames);
    EncodedReport(frames, events, duration);
    TicksAgree(events, duration);
  }

  // ----- what the player shows of an encoded asset -----

  /** Time `u` of the window that starts at `startTick` is a beat. */
  predicate BeatDue(beats: seq<int>, startTick: int, u: int) {
    startTick + u in beats
  }

  /** The beats of the window up to its time `t`. */
  function BeatTicks(beats: seq<int>, startTick: int, t: int): set<int> {
    set u: int | 0 <= u <= t && BeatDue(beats, startTick, u)
  }

  /** At every time of the window, `events` has the tone and the beat of the source timeline. */
  ghost predicate Follows(events: seq<Pair>, audio: seq<Pair>, beats: seq<int>, startTick: int, durationTicks: nat) {
    && StrictTicks(events) && TicksWithin(events, 0, durationTicks)
    && (forall u :: 0 <= u < durationTicks ==> HzAt(events, u) == HzAt(audio, startTick + u))
    && (forall u :: 0 <= u < durationTicks ==> (BeatAt(events, u) <==> BeatDue(beats, startTick, u)))
  }

  /** The ticks of the beat-marked events among the first `k`. */
  function MarkedTicks(events: seq<Pair>, k: nat): set<int>
    requires k <= |events|
  {
    if k == 0 then {}
    else if HasBeat(events[k - 1].value) then MarkedTicks(events, k - 1) + {events[k - 1].key}
    else MarkedTicks(events, k - 1)
  }

  lemma {:induction false} MarkedTicksAre(events: seq<Pair>, k: nat)
    requires StrictTicks(events) && k <= |events|
    ensures forall u :: u in MarkedTicks(events, k) <==> exists i :: 0 <= i < k && events[i].key == u && HasBeat(events[i].value)
    ensures |MarkedTicks(events, k)| == BeatsAfter(events, k)
  {
    if k > 0 {
      MarkedTicksAre(events, k - 1);
      forall i | 0 <= i < k - 1
        ensures events[i].key < events[k - 1].key
      {
        StrictOrder(events, i, k - 1);
      }
    }
  }

  /** The largest time of the window that is not after `t`. */
  function Within(t: int, durationTicks: nat): int {
    if t < durationTicks then t else durationTicks - 1
  }

  /** What is due at a time past the window is what was due at its last time. */
  lemma SplitWithin(events: seq<Pair>, durationTicks: nat, k: nat, t: int)
    requires TicksWithin(events, 0, durationTicks) && SplitAt(events, k, t)
    ensures SplitAt(events, k, Within(t, durationTicks))
  {
  }

  /** The notifications given by time `t` are one for each beat up to `t`, and none is missing once the window is over. */
  lemma BeatsGiven(events: seq<Pair>, audio: seq<Pair>, beats: seq<int>, startTick: int, durationTicks: nat, k: nat, t: int)
    requires Follows(events, audio, beats, startTick, durationTicks) && SplitAt(events, k, t)
    ensures BeatsAfter(events, k) == |BeatTicks(beats, startTick, Within(t, durationTicks))|
  {
    var end := Within(t, durationTicks);
    MarkedTicksAre(events, k);
    SplitWithin(events, durationTicks, k, t);
    forall u
      ensures u in MarkedTicks(events, k) <==> u in BeatTicks(beats, startTick, end)
    {
      if u in BeatTicks(beats, startTick, end) {
        assert BeatAt(events, u);
        var i :| 0 <= i < |events| && events[i].key == u && HasBeat(events[i].value);
        SplitIsAfter(events, k, i, end);
      }
      if u in MarkedTicks(events, k) {
        var i :| 0 <= i < k && events[i].key == u && HasBeat(events[i].value);
        assert BeatAt(events, u);
      }
    }
    assert MarkedTicks(events, k) == BeatTicks(beats, startTick, end);
  }

  /** The index of the frame of time `t`: the last frame is held. */
  function FrameAt(frames: seq<Frame>, t: nat): (k: nat)
    requires frames != []
    ensures k < |frames|
  {
    if t / VIDEO_PERIOD_TICKS < |frames| then t / VIDEO_PERIOD_TICKS else |frames| - 1
  }

  /** The screen after the due records is the source frame of that time, whatever it held before. */
  lemma ScreenAt(before: Frame, frames: seq<Frame>, t: nat)
    requires frames != []
    ensures AllIndicesOk(RecordsOf(frames))
    ensures PictureAfter(before, RecordsOf(frames), DueFrames(|frames|, t)) == frames[FrameAt(frames, t)]
  {
    EncodedRecordsOk(frames);
    var due := DueFrames(|frames|, t);
    PictureIsPlayback(before, RecordsOf(frames), due);
    EncodedPlayback(before, frames, due - 1);
  }

  /** The beat-marked events up to time `t`, by index. */
  function MarkedEvents(events: seq<Pair>, t: int): set<int> {
    set i: int | 0 <= i < |events| && events[i].key <= t && HasBeat(events[i].value)
  }

  /** Those among the first `k` events. */
  function MarkedAmong(events: seq<Pair>, k: nat): set<int>
    requires k <= |events|
  {
    set i: int | 0 <= i < k && HasBeat(events[i].value)
  }

  lemma {:induction false} MarkedCount(events: seq<Pair>, k: nat)
    requires k <= |events|
    ensures |MarkedAmong(events, k)| == BeatsAfter(events, k)
  {
    if k == 0 {
      assert MarkedAmong(events, 0) == {};
    } else {
      MarkedCount(events, k - 1);
      assert MarkedAmong(events, k)
          == MarkedAmong(events, k - 1) + if HasBeat(events[k - 1].value) then {k - 1} else {};
    }
  }

  lemma MarkedBySplit(events: seq<Pair>, k: nat, t: int)
    requires StrictTicks(events) && SplitAt(events, k, t)
    ensures |MarkedEvents(events, t)| == BeatsAfter(events, k)
  {
    forall i | i in MarkedEvents(events, t)
      ensures i in MarkedAmong(events, k)
    {
      SplitIsAfter(events, k, i, t);
    }
    assert MarkedEvents(events, t) == MarkedAmong(events, k);
    MarkedCount(events, k);
  }

  /**
   * A caught-up player of an encoded asset of any duration, whatever it has
   * sampled: the source frame of its largest sample (the last one is held), the
   * tone of the events then, and one notification for each marked event.
   */
  lemma PlayerShowsEncoded(player: Player, frames: seq<Frame>, events: seq<Pair>, duration: int)
    requires player.CaughtUp() && player.peak >= 0
    requires frames != [] && player.a == AssetOf(frames, events, duration) && StrictTicks(events)
    ensures player.framebuffer[..] == frames[FrameAt(frames, player.peak)]
    ensures player.currentHz == HzAt(events, player.peak)
    ensures player.notifications == |MarkedEvents(events, player.peak)|
  {
    ScreenAt(player.before, frames, player.peak);
    RawAtSplit(events, player.audioIndex, player.peak);
    MarkedBySplit(events, player.audioIndex, player.peak);
  }

  /**
   * Against the source: the player shows, sounds and has counted exactly what
   * the source timeline says for its largest sample, and from the window's end
   * on what it says for the window's last time.
   */
  lemma PlayerShowsSource(player: Player, frames: seq<Frame>, events: seq<Pair>, duration: nat,
                          audio: seq<Pair>, beats: seq<int>, startTick: int)
    requires player.CaughtUp() && player.peak >= 0 && duration > 0
    requires frames != [] && player.a == AssetOf(frames, events, duration)
    requires Follows(events, audio, beats, startTick, duration)
    ensures player.framebuffer[..] == frames[FrameAt(frames, player.peak)]
    ensures player.currentHz == HzAt(audio, startTick + Within(player.peak, duration))
    ensures player.notifications == |BeatTicks(beats, startTick, Within(player.peak, duration))|
  {
    PlayerShowsEncoded(player, frames, events, duration);
    var t := Within(player.peak, duration);
    RawGap(events, |events|, t, player.peak);
    assert HzAt(events, player.peak) == HzAt(events, t);
    BeatsGiven(events, audio, beats, startTick, duration, player.audioIndex, player.peak);
  }

  // ----- where the validators are too lax -----

  /** Played over any screen, the board shows the pictures the host decoded. */
  ghost predicate ShowsHostFrames(rs: seq<Record>)
    requires AllIndicesOk(rs)
  {
    forall before: Frame, k :: 1 <= k <= |rs| ==> PictureAfter(before, rs, k) == Frames(Blank(), rs)[k - 1]
  }

  /**
   * The host decodes over a dark screen, the board over what the last round
   * left. The two agree exactly when the first record writes every bitmap word.
   */
  lemma ShowsHostFramesIff(rs: seq<Record>)
    requires AllIndicesOk(rs) && rs != []
    ensures ShowsHostFrames(rs) <==> Covers(rs[0])
  {
    ScreenIndependentIff(rs);
    forall before: Frame, k | 1 <= k <= |rs|
      ensures PictureAfter(before, rs, k) == Frames(before, rs)[k - 1]
    {
      PictureIsPlayback(before, rs, k);
    }
    if ShowsHostFrames(rs) {
      forall before: Frame, other: Frame
        ensures Frames(before, rs) == Frames(other, rs)
      {
        forall k | 0 <= k < |rs|
          ensures Frames(before, rs)[k] == Frames(other, rs)[k]
        {
          assert PictureAfter(before, rs, k + 1) == Frames(Blank(), rs)[k] == PictureAfter(other, rs, k + 1);
        }
      }
    } else {
      var before: Frame, k :| 1 <= k <= |rs| && PictureAfter(before, rs, k) != Frames(Blank(), rs)[k - 1];
      assert PictureAfter(before, rs, k) == Frames(before, rs)[k - 1];
      assert Frames(before, rs) != Frames(Blank(), rs);
    }
  }

  /** 96 changes, all to word 0. */
  function RepeatedRecord(): (r: Record)
    ensures |r| == FRAMEBUFFER_WORDS && IndicesOk(r) && !Covers(r)
  {
    var r := seq(FRAMEBUFFER_WORDS, _ => Pair(0, 1));
    assert !Writes(r, 1);
    r
  }

  /** Both validators count the first record's changes but not its indices, so both accept an asset that fails this. */
  lemma LaxFirstFrame()
    ensures var a := Asset(6, 0, [RepeatedRecord()], []);
      HostOk(a) && FirmwareValidator.FirmwareOk(a) && !ShowsHostFrames(a.records)
  {
    var a := Asset(6, 0, [RepeatedRecord()], []);
    assert a.records[0] == RepeatedRecord();
    VideoOfOne(RepeatedRecord());
    ShowsHostFramesIff(a.records);
  }

  // ----- the pipeline -----

  /** Tones below the beat flag, as the readers of MIDI produce them. */
  predicate TonesFit(audio: seq<Pair>) {
    forall i :: 0 <= i < |audio| ==> 0 <= audio[i].value < AUDIO_BEAT_FLAG
  }

  lemma {:induction false} RawFits(audio: seq<Pair>, n: nat, t: int)
    requires TonesFit(audio) && n <= |audio|
    ensures 0 <= RawUpTo(audio, n, t) < AUDIO_BEAT_FLAG
  {
    if n > 0 {
      RawFits(audio, n - 1, t);
    }
  }

  /** Tones below the beat flag stay 32-bit words through clipping and merging. */
  lemma MergedFits(merged: seq<Pair>, audio: seq<Pair>, beats: seq<int>, startTick: int, durationTicks: nat)
    requires TonesFit(audio) && Follows(merged, audio, beats, startTick, durationTicks) && durationTicks < WORD_MODULUS
    ensures PairsFit(merged)
  {
    forall i | 0 <= i < |merged|
      ensures FitsWord(merged[i].key) && FitsWord(merged[i].value)
    {
      var u := merged[i].key;
      assert LastNotAfter(merged, i, u);
      RawAtLast(merged, i, u);
      RawFits(audio, |audio|, startTick + u);
      assert MaskBeat(merged[i].value) == HzAt(merged, u) == RawAt(audio, startTick + u);
    }
  }

  /** The bytes are the packed asset of these frames and events, and both validators accept them. */
  ghost predicate GoodAsset(data: seq<byte>, frames: seq<Frame>, events: seq<Pair>) {
    var a := AssetOf(frames, events, VIDEO_PERIOD_TICKS * |frames|);
    EncodesAs(data, a) && FileFail(data) == None && FirmwareValidator.FirmwareOk(a)
  }

  lemma EncodedIsGood(data: seq<byte>, frames: seq<Frame>, events: seq<Pair>)
    requires frames != [] && StrictTicks(events) && TicksWithin(events, 0, VIDEO_PERIOD_TICKS * |frames|)
    requires VIDEO_PERIOD_TICKS * |frames| < FirmwareValidator.DURATION_LIMIT
    requires EncodesAs(data, AssetOf(frames, events, VIDEO_PERIOD_TICKS * |frames|))
    ensures GoodAsset(data, frames, events)
  {
    FitsSixteenMiB(frames, events);
    EncodedIsAcceptable(frames, events, VIDEO_PERIOD_TICKS * |frames|);
    ReadsBackIff(data, frames, events, VIDEO_PERIOD_TICKS * |frames|);
  }

  /** The part of `main` between the media readers and the output file. */
  method BuildAsset(frames: seq<Frame>, audio: seq<Pair>, beats: seq<int>, startTick: int)
    returns (data: seq<byte>, ghost events: seq<Pair>)
    requires frames != [] && VIDEO_PERIOD_TICKS * |frames| < FirmwareValidator.DURATION_LIMIT
    requires FramesFit(frames, |frames|) && StrictTicks(audio) && TonesFit(audio)
    ensures GoodAsset(data, frames, events)
    ensures Follows(events, audio, beats, startTick, VIDEO_PERIOD_TICKS * |frames|)
  {
    var durationTicks := |frames| * VIDEO_PERIOD_TICKS;
    var merged := ClipAndMerge(audio, beats, startTick, startTick + durationTicks);
    assert Follows(merged, audio, beats, startTick, durationTicks);
    events := merged;
    MergedFits(merged, audio, beats, startTick, durationTicks);
    FitsSixteenMiB(frames, merged);
    var result := EncodeAsset(frames, merged, durationTicks);
    data := result.value;
    EncodedIsGood(data, frames, merged);
  }

  /** The header flag of the asset of a window says whether there is a beat in the window. */
  lemma FlagTellsBeats(frames: seq<Frame>, events: seq<Pair>, audio: seq<Pair>, beats: seq<int>, startTick: int, durationTicks: nat)
    requires Follows(events, audio, beats, startTick, durationTicks)
    ensures AssetOf(frames, events, durationTicks).flags
         == if exists u :: 0 <= u < durationTicks && BeatDue(beats, startTick, u) then 1 else 0
  {
    if AnyBeat(events) {
      var i :| 0 <= i < |events| && HasBeat(events[i].value);
      assert BeatAt(events, events[i].key);
      assert BeatDue(beats, startTick, events[i].key);
    }
    if u :| 0 <= u < durationTicks && BeatDue(beats, startTick, u) {
      assert BeatAt(events, u);
    }
  }

  // ----- from the source to the board -----

  /** Where the buzzer can sound every tone of the source, it can sound every tone of the asset. */
  lemma SourceInRange(events: seq<Pair>, audio: seq<Pair>, beats: seq<int>, startTick: int, durationTicks: nat)
    requires Follows(events, audio, beats, startTick, durationTicks) && InRange(audio)
    ensures InRange(events)
  {
    forall i | 0 <= i < |events|
      ensures MaskBeat(events[i].value) <= MAX_HZ
    {
      var u := events[i].key;
      assert LastNotAfter(events, i, u);
      RawAtLast(events, i, u);
      assert HzAt(events, u) == HzAt(audio, startTick + u);
      HzInRange(audio, |audio|, startTick + u);
    }
  }

  lemma {:induction false} HzInRange(audio: seq<Pair>, n: nat, t: int)
    requires InRange(audio) && n <= |audio|
    ensures MaskBeat(RawUpTo(audio, n, t)) <= MAX_HZ
  {
    if n > 0 {
      HzInRange(audio, n - 1, t);
    }
  }

  /** What the board shows, sounds and has counted of a source window of `6 * |frames|` ticks at its time `t`. */
  ghost predicate ShowsAt(player: Player, frames: seq<Frame>, audio: seq<Pair>, beats: seq<int>, startTick: int, t: nat)
    reads player, player.framebuffer
    requires frames != []
  {
    var u := Within(t, VIDEO_PERIOD_TICKS * |frames|);
    && player.framebuffer[..] == frames[FrameAt(frames, t)]
    && player.currentHz == HzAt(audio, startTick + u)
    && player.notifications == |BeatTicks(beats, startTick, u)|
  }

  /** The asset of a whole source window. */
  function WindowAsset(frames: seq<Frame>, events: seq<Pair>): Asset {
    AssetOf(frames, events, VIDEO_PERIOD_TICKS * |frames|)
  }

  lemma PlayerShowsWindow(player: Player, frames: seq<Frame>, events: seq<Pair>, audio: seq<Pair>, beats: seq<int>, startTick: int)
    requires player.CaughtUp() && player.peak >= 0 && frames != [] && player.a == WindowAsset(frames, events)
    requires Follows(events, audio, beats, startTick, VIDEO_PERIOD_TICKS * |frames|)
    ensures ShowsAt(player, frames, audio, beats, startTick, player.peak)
  {
    PlayerShowsSource(player, frames, events, VIDEO_PERIOD_TICKS * |frames|, audio, beats, startTick);
  }

  /**
   * The board after `n` passes: player and clock stand as those passes leave
   * them, and the board is where the source is at the largest position they
   * played by. That is the time played by the last sample (real time since the
   * round began, less the pauses), as long as that fits the 16-bit counter.
   */
  ghost predicate BoardFollows(player: Player, clock: Clock, passes: seq<Pass>, n: nat,
                               frames: seq<Frame>, audio: seq<Pair>, beats: seq<int>, startTick: int)
    reads player, player.framebuffer, clock
    requires frames != []
  {
    && StandsAfter(player, clock, passes, n)
    && (n > 0 ==> ShowsAt(player, frames, audio, beats, startTick, PeakAfter(passes, clock.begun, n)))
    && (n > 0 && 0 <= PlayedAfter(passes, clock.begun, n) < COUNTER_MODULUS ==>
          ShowsAt(player, frames, audio, beats, startTick, PlayedAfter(passes, clock.begun, n)))
  }

  lemma StandingFollows(player: Player, clock: Clock, passes: seq<Pass>, n: nat, frames: seq<Frame>, events: seq<Pair>,
                        audio: seq<Pair>, beats: seq<int>, startTick: int)
    requires frames != [] && player.a == WindowAsset(frames, events)
    requires StandsAfter(player, clock, passes, n) && InOrder(passes, clock.begun)
    requires Follows(events, audio, beats, startTick, VIDEO_PERIOD_TICKS * |frames|)
    ensures BoardFollows(player, clock, passes, n, frames, audio, beats, startTick)
  {
    if n > 0 {
      PlayerShowsWindow(player, frames, events, audio, beats, startTick);
      if PlayedAfter(passes, clock.begun, n) < COUNTER_MODULUS {
        PeakIsPlayed(passes, clock.begun, n);
      }
    }
  }

  /** An acceptable asset loaded into memory is accepted there, and its header data make it playable. */
  lemma LoadedIsAccepted(data: seq<byte>, a: Asset, behind: seq<word>)
    requires EncodesAs(data, a) && FirmwareValidator.FirmwareOk(a) && |behind| < WORD_MODULUS - MAX_ASSET_BYTES
    ensures var mem := Unpack(data) + behind;
      && |mem| < WORD_MODULUS && FirmwareValidator.Readable(mem) && FirmwareValidator.ImageFault(mem) == FirmwareValidator.NO_FAULT
      && Playable(mem, FirmwareValidator.InfoOf(mem), a)
  {
    var mem := Unpack(data) + behind;
    assert Serialize(a) <= mem;
    FirmwareValidator.ImageIsFaultless(mem, a);
    ValidIsPlayable(mem, a);
  }

  /** A round of an encoded window, played by a new player and clock over any screen. */
  method PlayWindow(mem: seq<word>, info: FirmwareValidator.Info, frames: seq<Frame>, ghost audio: seq<Pair>, ghost beats: seq<int>,
                    ghost startTick: int, framebuffer: array<int>, began: nat, passes: seq<Pass>, ghost events: seq<Pair>)
    returns (player: Player, clock: Clock, end: RoundEnd, n: nat)
    requires frames != [] && Playable(mem, info, WindowAsset(frames, events))
    requires Follows(events, audio, beats, startTick, VIDEO_PERIOD_TICKS * |frames|)
    requires framebuffer.Length == FRAMEBUFFER_WORDS && InOrder(passes, began)
    modifies framebuffer
    ensures fresh(player) && fresh(clock) && player.framebuffer == framebuffer && clock.begun == began
    ensures player.asset == mem && player.info == info && player.before == old(framebuffer[..])
    ensures player.a == WindowAsset(frames, events) && RoundIs(player.a, passes, began, n, end)
    ensures !end.Failed? ==> BoardFollows(player, clock, passes, n, frames, audio, beats, startTick)
    ensures InRange(events) ==> !(end.Failed? && end.outcome.RuntimeFail?)
    ensures (forall i :: 0 <= i < |passes| ==> Roomy(passes[i].room, events)) ==> end != Failed(QueueFull)
  {
    player := new Player(mem, info, framebuffer, WindowAsset(frames, events));
    clock := new Clock(began);
    end, n := PlayRound(player, clock, passes);
    if !end.Failed? {
      StandingFollows(player, clock, passes, n, frames, events, audio, beats, startTick);
    }
  }

  /**
   * The whole way, from the packer's inputs to one round on the board: clip,
   * merge, encode, load (with anything behind the asset), validate, and play
   * over any screen with any passes. Both validators accept; exactly the passes
   * that asset and passes determine are run, and the round ends as they
   * determine; after them picture, tone and beats are those of the source at the
   * time played; and with tones in range and room in the queue it cannot fail.
   */
  method ShowOnBoard(frames: seq<Frame>, audio: seq<Pair>, beats: seq<int>, startTick: int, behind: seq<word>,
                     framebuffer: array<int>, began: nat, passes: seq<Pass>)
    returns (data: seq<byte>, player: Player, clock: Clock, end: RoundEnd, n: nat)
    requires frames != [] && VIDEO_PERIOD_TICKS * |frames| < FirmwareValidator.DURATION_LIMIT
    requires FramesFit(frames, |frames|) && StrictTicks(audio) && TonesFit(audio)
    requires framebuffer.Length == FRAMEBUFFER_WORDS && |behind| < WORD_MODULUS - MAX_ASSET_BYTES
    requires InOrder(passes, began)
    modifies framebuffer
    ensures fresh(player) && fresh(clock) && player.framebuffer == framebuffer && clock.begun == began
    // The bytes built are those of the source window, and are accepted on host and board.
    ensures player.a == WindowAsset(frames, player.a.events) && GoodAsset(data, frames, player.a.events)
    ensures Follows(player.a.events, audio, beats, startTick, VIDEO_PERIOD_TICKS * |frames|)
    ensures player.asset == Unpack(data) + behind && Accepts(player.asset, player.info)
    // The round played from them.
    ensures player.before == old(framebuffer[..]) && RoundIs(player.a, passes, began, n, end)
    ensures !end.Failed? ==> BoardFollows(player, clock, passes, n, frames, audio, beats, startTick)
    ensures InRange(audio) ==> !(end.Failed? && end.outcome.RuntimeFail?)
    ensures (forall i :: 0 <= i < |passes| ==> Roomy(passes[i].room, player.a.events)) ==> end != Failed(QueueFull)
  {
    ghost var events;
    data, events := BuildAsset(frames, audio, beats, startTick);
    LoadedIsAccepted(data, WindowAsset(frames, events), behind);
    var mem := Unpack(data) + behind;
    var verdict := FirmwareValidator.ValidateAsset(mem);
    if InRange(audio) {
      SourceInRange(events, audio, beats, startTick, VIDEO_PERIOD_TICKS * |frames|);
    }
    player, clock, end, n := PlayWindow(mem, verdict.info, frames, audio, beats, startTick, framebuffer, began, passes, events);
  }

  /** The firmware's validator accepts the memory with this header data. */
  predicate Accepts(mem: seq<word>, info: FirmwareValidator.Info) {
    && FirmwareValidator.Readable(mem) && FirmwareValidator.ImageFault(mem) == FirmwareValidator.NO_FAULT
    && info == FirmwareValidator.InfoOf(mem)
  }
}
