// The player's own check of the asset in SDRAM (`validate_asset` in C). The
// memory is readable only where the header declares it to be, so every index
// the verifier accepts below is also a proof that the walk stays inside.
module FirmwareValidator {
  import opened Words
  import opened Bam2Format

  const NO_FAULT: word := 0
  const FAIL_MAGIC: word := 0xba01
  const FAIL_TOTAL_BYTES: word := 0xba02
  const FAIL_HEADER_BOUNDS: word := 0xba03
  const FAIL_VIDEO_TRUNCATED: word := 0xba04
  const FAIL_DIFF_COUNT: word := 0xba05
  const FAIL_WORD_INDEX: word := 0xba06
  const FAIL_VIDEO_TRAILING: word := 0xba07
  const FAIL_TICK_ORDER: word := 0xba08

  const DURATION_LIMIT := 0x8000

  /** `struct bam2_info`. */
  datatype Info = Info(totalWords: word, duration: word, frameCount: word, videoWord: word,
                       videoEndWord: word, audioCount: word, audioWord: word, flags: word)

  datatype Verdict = Accepted(info: Info) | Refused(code: word)

  predicate MagicOk(mem: seq<word>)
    requires |mem| >= 3
  {
    mem[0] == MAGIC && mem[1] == VERSION
  }

  predicate DeclaredSizeOk(mem: seq<word>)
    requires |mem| >= 3
  {
    4 * HEADER_WORDS <= mem[2] <= MAX_ASSET_BYTES && mem[2] % 4 == 0
  }

  /** The first three words can be read; the rest only as far as an acceptable header declares. */
  predicate Readable(mem: seq<word>) {
    |mem| >= 3 && (MagicOk(mem) && DeclaredSizeOk(mem) ==> |mem| >= mem[2] / 4)
  }

  /** The header, read without regard to 32-bit overflow, describes the declared words. */
  predicate HeaderBoundsOk(mem: seq<word>)
    requires |mem| >= HEADER_WORDS
  {
    var audioCount: int := mem[7];
    && 1 <= mem[3] < DURATION_LIMIT
    && mem[4] != 0
    && mem[5] == 4 * HEADER_WORDS
    && mem[6] == VIDEO_PERIOD_TICKS
    && mem[8] % 4 == 0
    && HEADER_WORDS < mem[8] / 4
    && mem[8] / 4 + 2 * audioCount == mem[2] / 4
    && mem[9] == FRAMEBUFFER_WORDS
    && mem[10] <= 1
    && mem[11] == 0
  }

  /** Ticks strictly increase and stay below the duration. */
  predicate TicksOk(events: seq<Pair>, duration: int) {
    forall i :: 0 <= i < |events| ==>
      events[i].key < duration && (i > 0 ==> events[i - 1].key < events[i].key)
  }

  function InfoOf(mem: seq<word>): Info
    requires |mem| >= HEADER_WORDS
  {
    Info(mem[2] / 4, mem[3], mem[4], mem[5] / 4, mem[8] / 4, mem[7], mem[8] / 4, mem[10])
  }

  function VideoCode(fault: Fault): word {
    match fault
    case Fine => NO_FAULT
    case Truncated => FAIL_VIDEO_TRUNCATED
    case NotFull => FAIL_DIFF_COUNT
    case TooMany => FAIL_DIFF_COUNT
    case OutOfBounds => FAIL_DIFF_COUNT
    case BadIndex => FAIL_WORD_INDEX
    case Trailing => FAIL_VIDEO_TRAILING
  }

  /** The walk over the video stream, as a fault. */
  function StreamFault(mem: seq<word>): Fault
    requires |mem| >= HEADER_WORDS && HeaderBoundsOk(mem) && |mem| >= mem[2] / 4
  {
    VideoFault(mem, HEADER_WORDS, mem[8] / 4, 0, mem[4], FRAMEBUFFER_WORDS)
  }

  /** The code of the first check that fails. */
  function ImageFault(mem: seq<word>): word
    requires Readable(mem)
  {
    if !MagicOk(mem) then FAIL_MAGIC
    else if !DeclaredSizeOk(mem) then FAIL_TOTAL_BYTES
    else if !HeaderBoundsOk(mem) then FAIL_HEADER_BOUNDS
    else if StreamFault(mem) != Fine then VideoCode(StreamFault(mem))
    else if !TicksOk(PairsAt(mem, mem[8] / 4, mem[7]), mem[3]) then FAIL_TICK_ORDER
    else NO_FAULT
  }

  /** What the player may rely on. */
  predicate FirmwareOk(a: Asset) {
    && TotalBytes(a) <= MAX_ASSET_BYTES
    && 1 <= a.duration < DURATION_LIMIT
    && a.records != []
    && RecordsOk(a.records, 0, FRAMEBUFFER_WORDS)
    && TicksOk(a.events, a.duration)
    && 0 <= a.flags <= 1
  }

  /** The asset at the start of `mem`, once the header and the stream are faultless. */
  function ImageAsset(mem: seq<word>): Asset
    requires Readable(mem) && ImageFault(mem) == NO_FAULT
  {
    Asset(mem[3], mem[10],
          ParseRecords(mem, HEADER_WORDS, mem[8] / 4, 0, mem[4], FRAMEBUFFER_WORDS),
          PairsAt(mem, mem[8] / 4, mem[7]))
  }

  /** The parsed streams lie where the header says. */
  lemma FaultlessStreams(mem: seq<word>)
    requires Readable(mem) && ImageFault(mem) == NO_FAULT
    ensures var a := ImageAsset(mem);
      && mem[HEADER_WORDS..mem[8] / 4] == VideoWords(a.records) && RecordsOk(a.records, 0, FRAMEBUFFER_WORDS)
      && mem[mem[8] / 4..mem[2] / 4] == Flatten(a.events)
      && AudioByte(a) == mem[8] && TotalBytes(a) == mem[2] && |a.records| == mem[4] && |a.events| == mem[7]
  {
    ParsedIsSerialized(mem, HEADER_WORDS, mem[8] / 4, 0, mem[4], FRAMEBUFFER_WORDS);
    FlattenPairsAt(mem, mem[8] / 4, mem[7]);
  }

  /** A faultless memory begins with the serialization of the asset read from it. */
  lemma FaultlessIsImage(mem: seq<word>)
    requires Readable(mem) && ImageFault(mem) == NO_FAULT
    ensures var a := ImageAsset(mem); FirmwareOk(a) && Serialize(a) <= mem && TotalBytes(a) == mem[2]
  {
    FaultlessStreams(mem);
    Assemble(mem, ImageAsset(mem));
  }

  /** A memory that begins with an acceptable asset is faultless, and that asset is the one read. */
  lemma ImageIsFaultless(mem: seq<word>, a: Asset)
    requires FirmwareOk(a) && Serialize(a) <= mem
    ensures Readable(mem) && ImageFault(mem) == NO_FAULT && ImageAsset(mem) == a
  {
    HeaderFields(a, mem);
    SerializeParts(a, mem);
    SerializedIsParsed(mem, HEADER_WORDS, AudioByte(a) / 4, 0, FRAMEBUFFER_WORDS, a.records);
    assert VideoWords(a.records) == RecordWords(a.records[0]) + VideoWords(a.records[1..]);
  }

  /** The firmware accepts exactly the memories that begin with an acceptable asset. */
  lemma AcceptsIff(mem: seq<word>)
    requires Readable(mem)
    ensures ImageFault(mem) == NO_FAULT <==> exists a: Asset :: FirmwareOk(a) && Serialize(a) <= mem
  {
    if ImageFault(mem) == NO_FAULT {
      FaultlessIsImage(mem);
    }
    if a: Asset :| FirmwareOk(a) && Serialize(a) <= mem {
      ImageIsFaultless(mem, a);
    }
  }

  // ----- what each code tells -----

  /** "BAM2" and the version. */
  predicate Signed(mem: seq<word>)
    requires |mem| >= 3
  {
    mem[0] == 0x324d_4142 && mem[1] == 2
  }

  /** A whole number of words, at least a header and at most 16 MiB. */
  predicate Sized(mem: seq<word>)
    requires |mem| >= 3
  {
    48 <= mem[2] <= 0x100_0000 && mem[2] % 4 == 0
  }

  /** The header describes 48 bytes of header, then video, then audio up to the end, all of the right kind. */
  predicate Described(mem: seq<word>)
    requires |mem| >= 12
  {
    && 1 <= mem[3] <= 0x7fff && mem[4] >= 1 && mem[5] == 48 && mem[6] == 6
    && mem[8] % 4 == 0 && mem[8] > 48 && mem[8] + 8 * (mem[7] as int) == mem[2]
    && mem[9] == 96 && mem[10] <= 1 && mem[11] == 0
  }

  /** Everything up to the header is in order. */
  predicate HeaderFine(mem: seq<word>)
    requires Readable(mem)
  {
    Signed(mem) && Sized(mem) && Described(mem)
  }

  lemma DescribedIsBoundsOk(mem: seq<word>)
    requires Readable(mem) && Signed(mem) && Sized(mem)
    ensures Described(mem) <==> HeaderBoundsOk(mem)
  {
  }

  /** The first record of the stream that is not as it must be has this fault. */
  ghost predicate StreamHas(mem: seq<word>, fault: Fault)
    requires Readable(mem) && HeaderFine(mem)
  {
    exists rs :: FirstFault(mem, 12, mem[8] / 4, mem[4], 96, rs, fault)
  }

  /** Event `i` is not before the end of the asset, or not after the event before it. */
  predicate TickBad(mem: seq<word>, i: nat)
    requires Readable(mem) && HeaderFine(mem) && i < mem[7]
  {
    var at := mem[8] / 4 + 2 * i;
    mem[at] >= mem[3] || (i > 0 && mem[at] <= mem[at - 2])
  }

  ghost predicate SomeTickBad(mem: seq<word>)
    requires Readable(mem) && HeaderFine(mem)
  {
    exists i: nat :: i < mem[7] && TickBad(mem, i)
  }

  lemma TicksOkIff(mem: seq<word>)
    requires Readable(mem) && HeaderFine(mem)
    ensures TicksOk(PairsAt(mem, mem[8] / 4, mem[7]), mem[3]) <==> !SomeTickBad(mem)
  {
    var events := PairsAt(mem, mem[8] / 4, mem[7]);
    forall i: nat | i < mem[7]
      ensures TickBad(mem, i) <==> !(events[i].key < mem[3] && (i > 0 ==> events[i - 1].key < events[i].key))
    {
      assert events[i].key == mem[mem[8] / 4 + 2 * i];
      if i > 0 {
        assert events[i - 1].key == mem[mem[8] / 4 + 2 * (i - 1)];
      }
    }
    if !SomeTickBad(mem) {
      forall i | 0 <= i < |events|
        ensures events[i].key < mem[3] && (i > 0 ==> events[i - 1].key < events[i].key)
      {
        assert !TickBad(mem, i);
      }
    } else {
      var i: nat :| i < mem[7] && TickBad(mem, i);
      assert !(events[i].key < mem[3] && (i > 0 ==> events[i - 1].key < events[i].key));
    }
  }

  lemma StreamHasIff(mem: seq<word>, fault: Fault)
    requires Readable(mem) && HeaderFine(mem) && fault != Fine
    ensures HeaderBoundsOk(mem) && (StreamFault(mem) == fault <==> StreamHas(mem, fault))
  {
    DescribedIsBoundsOk(mem);
    FaultIff(mem, 12, mem[8] / 4, mem[4], 96, fault);
  }

  /** The codes of the stream's faults. */
  ghost predicate CodeTells(mem: seq<word>, code: word)
    requires Readable(mem) && HeaderFine(mem)
  {
    && (code == 0xba04 <==> StreamHas(mem, Truncated))
    && (code == 0xba05 <==> StreamHas(mem, NotFull) || StreamHas(mem, TooMany) || StreamHas(mem, OutOfBounds))
    && (code == 0xba06 <==> StreamHas(mem, BadIndex))
    && (code == 0xba07 <==> StreamHas(mem, Trailing))
    && (code == 0xba08 ==> SomeTickBad(mem))
    && (code == 0 ==> !SomeTickBad(mem))
    && code in {0xba04, 0xba05, 0xba06, 0xba07, 0xba08, 0}
  }

  lemma StreamCodes(mem: seq<word>)
    requires Readable(mem) && HeaderFine(mem)
    ensures CodeTells(mem, ImageFault(mem))
  {
    DescribedIsBoundsOk(mem);
    TicksOkIff(mem);
    StreamHasIff(mem, Truncated);
    StreamHasIff(mem, NotFull);
    StreamHasIff(mem, TooMany);
    StreamHasIff(mem, OutOfBounds);
    StreamHasIff(mem, BadIndex);
    StreamHasIff(mem, Trailing);
  }

  /**
   * The code with which the player refuses an asset tells what is wrong with it:
   * the first of the signature, the size, the header, the video records in their
   * order, and the ticks, that is not as it must be.
   */
  lemma CodesTell(mem: seq<word>)
    requires Readable(mem)
    ensures ImageFault(mem) == 0xba01 <==> !Signed(mem)
    ensures ImageFault(mem) == 0xba02 <==> Signed(mem) && !Sized(mem)
    ensures ImageFault(mem) == 0xba03 <==> Signed(mem) && Sized(mem) && !Described(mem)
    ensures HeaderFine(mem) ==> CodeTells(mem, ImageFault(mem))
  {
    if Signed(mem) && Sized(mem) {
      DescribedIsBoundsOk(mem);
      if Described(mem) {
        StreamCodes(mem);
      }
    }
  }

  /** What the player keeps of the header is where the streams of the asset lie and how long they are. */
  lemma InfoTells(mem: seq<word>, a: Asset)
    requires FirmwareOk(a) && Serialize(a) <= mem
    ensures |mem| >= HEADER_WORDS
    ensures InfoOf(mem) == Info(TotalBytes(a) / 4, a.duration, |a.records|, 12, 12 + |VideoWords(a.records)|,
                                |a.events|, 12 + |VideoWords(a.records)|, a.flags)
  {
    HeaderFields(a, mem);
  }

  // ----- the validator itself -----

  /** The inner loop over the changes of one record: is every word index inside the bitmap? */
  method CheckIndices(asset: seq<word>, first: word, changes: word) returns (ok: bool, cursor: word)
    requires first + 2 * changes <= |asset| < WORD_MODULUS
    ensures ok == IndicesOk(PairsAt(asset, first, changes))
    ensures ok ==> cursor == first + 2 * changes
  {
    ghost var pairs := PairsAt(asset, first, changes);
    cursor := first;
    var change: word := 0;
    while change < changes
      invariant change <= changes && cursor == first + 2 * change
      invariant IndicesOk(pairs[..change])
    {
      assert asset[cursor] == pairs[change].key;
      if asset[cursor] >= FRAMEBUFFER_WORDS {
        return false, cursor;
      }
      cursor := cursor + 2;
      change := change + 1;
    }
    assert pairs[..change] == pairs;
    ok := true;
  }

  /** The loop over the video records; the result is the code to fail with, if any. */
  method CheckVideo(asset: seq<word>, info: Info) returns (code: word)
    requires info.videoWord <= info.videoEndWord <= |asset| < WORD_MODULUS
    ensures code == VideoCode(VideoFault(asset, info.videoWord, info.videoEndWord, 0, info.frameCount, FRAMEBUFFER_WORDS))
  {
    var cursor: word := info.videoWord;
    var frame: word := 0;
    while frame < info.frameCount
      invariant frame <= info.frameCount && cursor <= info.videoEndWord
      invariant VideoFault(asset, info.videoWord, info.videoEndWord, 0, info.frameCount, FRAMEBUFFER_WORDS)
             == VideoFault(asset, cursor, info.videoEndWord, frame, info.frameCount, FRAMEBUFFER_WORDS)
    {
      if cursor >= info.videoEndWord {
        return FAIL_VIDEO_TRUNCATED;
      }
      var changes := asset[cursor];
      cursor := cursor + 1;
      if (frame == 0 && changes != FRAMEBUFFER_WORDS) || changes > FRAMEBUFFER_WORDS ||
         changes > (info.videoEndWord - cursor) / 2
      {
        return FAIL_DIFF_COUNT;
      }
      var ok;
      ok, cursor := CheckIndices(asset, cursor, changes);
      if !ok {
        return FAIL_WORD_INDEX;
      }
      frame := frame + 1;
    }
    if cursor != info.videoEndWord {
      return FAIL_VIDEO_TRAILING;
    }
    code := NO_FAULT;
  }

  /** The loop over the audio events. */
  method CheckTicks(asset: seq<word>, info: Info) returns (ok: bool)
    requires info.audioWord + 2 * info.audioCount <= |asset| < WORD_MODULUS
    ensures ok == TicksOk(PairsAt(asset, info.audioWord, info.audioCount), info.duration)
  {
    ghost var events := PairsAt(asset, info.audioWord, info.audioCount);
    var previousTick: word := 0;
    var event: word := 0;
    while event < info.audioCount
      invariant event <= info.audioCount
      invariant TicksOk(events[..event], info.duration)
      invariant event > 0 ==> previousTick == events[event - 1].key
    {
      var tick := asset[info.audioWord + event * 2];
      assert tick == events[event].key;
      if tick >= info.duration || (event != 0 && tick <= previousTick) {
        return false;
      }
      previousTick := tick;
      event := event + 1;
    }
    assert events[..event] == events;
    ok := true;
  }

  /** `validate_asset`: `fail` never returns, so its code is the verdict. */
  method ValidateAsset(asset: seq<word>) returns (verdict: Verdict)
    requires Readable(asset) && |asset| < WORD_MODULUS
    ensures verdict == if ImageFault(asset) == NO_FAULT then Accepted(InfoOf(asset)) else Refused(ImageFault(asset))
  {
    if asset[0] != MAGIC || asset[1] != VERSION {
      return Refused(FAIL_MAGIC);
    }
    var totalBytes := asset[2];
    if totalBytes < HEADER_WORDS * 4 || totalBytes > MAX_ASSET_BYTES || totalBytes % 4 != 0 {
      return Refused(FAIL_TOTAL_BYTES);
    }
    var info := Info(totalBytes / 4, asset[3], asset[4], asset[5] / 4, asset[8] / 4, asset[7], asset[8] / 4, asset[10]);
    if info.duration == 0 || info.duration >= DURATION_LIMIT ||
       info.frameCount == 0 || asset[5] != HEADER_WORDS * 4 ||
       asset[6] != VIDEO_PERIOD_TICKS || asset[8] % 4 != 0 ||
       info.audioWord <= info.videoWord || info.audioWord > info.totalWords ||
       info.audioCount > (info.totalWords - info.audioWord) / 2 ||
       info.audioWord + info.audioCount * 2 != info.totalWords ||
       asset[9] != FRAMEBUFFER_WORDS ||
       info.flags > 1 || asset[11] != 0
    {
      return Refused(FAIL_HEADER_BOUNDS);
    }
    var code := CheckVideo(asset, info);
    if code != NO_FAULT {
      return Refused(code);
    }
    var ok := CheckTicks(asset, info);
    if !ok {
      return Refused(FAIL_TICK_ORDER);
    }
    return Accepted(info);
  }
}
