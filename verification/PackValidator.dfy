// The host's `validate_asset`: an independent reader of the packed bytes that
// also decodes every frame. It is related here to the layout, to the encoder
// and to the firmware's validator.
module PackValidator {
  import opened Words
  import opened Bam2Format
  import opened Packer
  import FirmwareValidator

  datatype Fail =
    | HeaderIncomplete | MagicVersionSize | Geometry | ReservedOffset | AudioBounds
    | VideoFailed(fault: Fault) | TicksNotIncreasing | BeyondDuration | BeatFlagMissing

  datatype Report = Report(totalBytes: int, duration: int, flags: int, frames: seq<Frame>, events: seq<Pair>)

  predicate StrictTicks(events: seq<Pair>) {
    forall i :: 1 <= i < |events| ==> events[i - 1].key < events[i].key
  }

  predicate LastBelow(events: seq<Pair>, duration: int) {
    events != [] ==> events[|events| - 1].key < duration
  }

  /** The checks on the 12 header words, against the length of the file. */
  function HeaderFail(ws: seq<word>, length: nat): Option<Fail>
    requires |ws| >= HEADER_WORDS
  {
    var audioCount: int := ws[7];
    if ws[0] != MAGIC || ws[1] != VERSION || ws[2] != length then Some(MagicVersionSize)
    else if ws[9] != FRAMEBUFFER_WORDS || ws[6] != VIDEO_PERIOD_TICKS then Some(Geometry)
    else if ws[10] > 1 || ws[11] != 0 || ws[5] != 4 * HEADER_WORDS then Some(ReservedOffset)
    else if ws[8] < ws[5] || ws[8] + 8 * audioCount != length then Some(AudioBounds)
    else None
  }

  /** The walk over the video stream; a record may hold any number of changes. */
  function StreamFault(ws: seq<word>): Fault
    requires |ws| >= HEADER_WORDS && HeaderFail(ws, 4 * |ws|) == None
  {
    VideoFault(ws, HEADER_WORDS, ws[8] / 4, 0, ws[4], WORD_MODULUS)
  }

  function EventsFail(events: seq<Pair>, duration: int, flags: int): Option<Fail> {
    if !StrictTicks(events) then Some(TicksNotIncreasing)
    else if !LastBelow(events, duration) then Some(BeyondDuration)
    else if AnyBeat(events) && flags != 1 then Some(BeatFlagMissing)
    else None
  }

  /** The first check that raises. */
  function FileFail(data: seq<byte>): Option<Fail> {
    if |data| < HEADER_WORDS * 4 || |data| % 4 != 0 then Some(HeaderIncomplete)
    else
      var ws := Unpack(data);
      if HeaderFail(ws, |data|) != None then HeaderFail(ws, |data|)
      else if StreamFault(ws) != Fine then Some(VideoFailed(StreamFault(ws)))
      else
        EventsFail(PairsAt(ws, ws[8] / 4, ws[7]), ws[3], ws[10])
  }

  function FileAsset(data: seq<byte>): Asset
    requires FileFail(data) == None
  {
    var ws := Unpack(data);
    Asset(ws[3], ws[10], ParseRecords(ws, HEADER_WORDS, ws[8] / 4, 0, ws[4], WORD_MODULUS), PairsAt(ws, ws[8] / 4, ws[7]))
  }

  /** What the host demands of an asset. */
  predicate HostOk(a: Asset) {
    && RecordsOk(a.records, 0, WORD_MODULUS)
    && StrictTicks(a.events)
    && LastBelow(a.events, a.duration)
    && 0 <= a.flags <= 1
    && (AnyBeat(a.events) ==> a.flags == 1)
  }

  function ReportOf(a: Asset): Report
    requires AllIndicesOk(a.records)
  {
    Report(TotalBytes(a), a.duration, a.flags, Frames(Blank(), a.records), a.events)
  }

  /** A word that no record has written yet is dark in the frames reported. */
  lemma {:induction false} UnwrittenIsDark(a: Asset, k: nat, i: nat)
    requires AllIndicesOk(a.records) && k < |a.records| && i < FRAMEBUFFER_WORDS
    requires forall j :: 0 <= j <= k ==> !Writes(a.records[j], i)
    ensures ReportOf(a).frames[k][i] == 0
  {
    PlaybackUpTo(Blank(), a.records, k);
    if k == 0 {
      assert a.records[..0] == [];
    } else {
      UnwrittenIsDark(a, k - 1, i);
    }
    ApplyUnwritten(Playback(Blank(), a.records[..k]), a.records[k], i);
  }

  // ----- acceptance is being a serialization -----

  lemma AcceptedStreams(data: seq<byte>)
    requires FileFail(data) == None
    ensures var a, ws := FileAsset(data), Unpack(data);
      && ws[HEADER_WORDS..ws[8] / 4] == VideoWords(a.records) && RecordsOk(a.records, 0, WORD_MODULUS)
      && ws[ws[8] / 4..|ws|] == Flatten(a.events)
      && AudioByte(a) == ws[8] && TotalBytes(a) == |data| && |a.records| == ws[4] && |a.events| == ws[7]
  {
    var ws := Unpack(data);
    ParsedIsSerialized(ws, HEADER_WORDS, ws[8] / 4, 0, ws[4], WORD_MODULUS);
    FlattenPairsAt(ws, ws[8] / 4, ws[7]);
  }

  /** What a faultless header says, field by field. */
  lemma AcceptedHeader(ws: seq<word>, length: nat)
    requires |ws| >= HEADER_WORDS && HeaderFail(ws, length) == None
    ensures ws[0] == MAGIC && ws[1] == VERSION && ws[2] == length && ws[5] == 4 * HEADER_WORDS
    ensures ws[6] == VIDEO_PERIOD_TICKS && ws[9] == FRAMEBUFFER_WORDS && ws[10] <= 1 && ws[11] == 0
  {
  }

  lemma AcceptedIsSerialized(data: seq<byte>)
    requires FileFail(data) == None
    ensures HostOk(FileAsset(data)) && EncodesAs(data, FileAsset(data))
  {
    var a, ws := FileAsset(data), Unpack(data);
    AcceptedStreams(data);
    AcceptedHeader(ws, |data|);
    Assemble(ws, a);
    assert ws[..|ws|] == ws;
  }

  lemma SerializedIsAccepted(data: seq<byte>, a: Asset)
    requires EncodesAs(data, a) && HostOk(a)
    ensures FileFail(data) == None && FileAsset(data) == a
  {
    var ws := Unpack(data);
    HeaderFields(a, ws);
    SerializeParts(a, ws);
    SerializedIsParsed(ws, HEADER_WORDS, AudioByte(a) / 4, 0, WORD_MODULUS, a.records);
  }

  /** The host accepts exactly the packed serializations of the assets it demands. */
  lemma AcceptsIff(data: seq<byte>)
    ensures FileFail(data) == None <==> exists a: Asset :: HostOk(a) && EncodesAs(data, a)
  {
    if FileFail(data) == None {
      AcceptedIsSerialized(data);
    }
    if a: Asset :| HostOk(a) && EncodesAs(data, a) {
      SerializedIsAccepted(data, a);
    }
  }

  // ----- the round trip with the encoder -----

  /** What the encoder writes is accepted exactly when the ticks strictly increase and stay below the duration. */
  lemma ReadsBackIff(data: seq<byte>, frames: seq<Frame>, events: seq<Pair>, duration: int)
    requires EncodesAs(data, AssetOf(frames, events, duration))
    ensures FileFail(data) == None <==> StrictTicks(events) && LastBelow(events, duration)
    ensures FileFail(data) == None ==> FileAsset(data) == AssetOf(frames, events, duration)
  {
    var a := AssetOf(frames, events, duration);
    if FileFail(data) == None {
      AcceptedIsSerialized(data);
      SameSerialization(a, FileAsset(data));
    }
    if StrictTicks(events) && LastBelow(events, duration) {
      EncodedReport(frames, events, duration);
      SerializedIsAccepted(data, a);
    }
  }

  /** The round trip: what the encoder writes and the validator accepts is reported word for word. */
  lemma RoundTrip(data: seq<byte>, frames: seq<Frame>, events: seq<Pair>, duration: int)
    requires EncodesAs(data, AssetOf(frames, events, duration))
    requires StrictTicks(events) && LastBelow(events, duration)
    ensures FileFail(data) == None && AllIndicesOk(FileAsset(data).records)
    ensures ReportOf(FileAsset(data)) == Report(|data|, duration, if AnyBeat(events) then 1 else 0, frames, events)
  {
    ReadsBackIff(data, frames, events, duration);
    EncodedReport(frames, events, duration);
  }

  lemma EncodedReport(frames: seq<Frame>, events: seq<Pair>, duration: int)
    requires StrictTicks(events) && LastBelow(events, duration)
    ensures var a := AssetOf(frames, events, duration);
      && HostOk(a)
      && ReportOf(a) == Report(TotalBytes(a), duration, if AnyBeat(events) then 1 else 0, frames, events)
  {
    EncodedFrames(Blank(), frames);
    var rs := RecordsOf(frames);
    assert forall k :: 0 <= k < |rs| ==> |rs[k]| <= FRAMEBUFFER_WORDS;
  }

  /** The header and the events of a serialization are determined by its words. */
  lemma SameSerialization(a: Asset, b: Asset)
    requires Serialize(a) == Serialize(b)
    ensures a.duration == b.duration && a.flags == b.flags && a.events == b.events && |a.records| == |b.records|
  {
    var s := Serialize(a);
    assert s[..HEADER_WORDS] == Header(a) && s[..HEADER_WORDS] == Header(b);
    assert Header(a)[3] == Header(b)[3] && Header(a)[4] == Header(b)[4];
    assert Header(a)[8] == Header(b)[8] && Header(a)[10] == Header(b)[10] && Header(a)[7] == Header(b)[7];
    var at := AudioByte(a) / 4;
    assert s[at..] == Flatten(a.events) && s[at..] == Flatten(b.events);
    forall i | 0 <= i < |a.events|
      ensures a.events[i] == b.events[i]
    {
      FlattenAt(a.events, i);
      FlattenAt(b.events, i);
    }
  }

  // ----- the two validators -----

  /** A strictly increasing list has its maximum at the end, so one bound at the end is a bound on all. */
  lemma {:induction false} TicksAgree(events: seq<Pair>, duration: int)
    ensures FirmwareValidator.TicksOk(events, duration) <==> StrictTicks(events) && LastBelow(events, duration)
  {
    if StrictTicks(events) && LastBelow(events, duration) && events != [] {
      var init := events[..|events| - 1];
      assert LastBelow(init, duration) by {
        if init != [] {
          assert events[|events| - 2].key < events[|events| - 1].key;
        }
      }
      TicksAgree(init, duration);
      forall i | 0 <= i < |events|
        ensures events[i].key < duration && (i > 0 ==> events[i - 1].key < events[i].key)
      {
        if i < |init| {
          assert init[i].key < duration;
        }
      }
    }
  }

  /** What the firmware asks of a host-approved asset beyond what the host asked. */
  predicate FirmwareExtras(a: Asset) {
    && 1 <= a.duration < FirmwareValidator.DURATION_LIMIT
    && a.records != []
    && (forall k :: 0 <= k < |a.records| ==> |a.records[k]| <= FRAMEBUFFER_WORDS)
    && TotalBytes(a) <= MAX_ASSET_BYTES
  }

  /**
   * Loaded into memory, a file the host approves is accepted by the firmware
   * exactly when it meets the extras; and the firmware then sees the same asset.
   */
  lemma HostToFirmware(data: seq<byte>, mem: seq<word>)
    requires FileFail(data) == None && Unpack(data) <= mem
    ensures FirmwareValidator.Readable(mem)
    ensures FirmwareValidator.ImageFault(mem) == FirmwareValidator.NO_FAULT <==> FirmwareExtras(FileAsset(data))
    ensures FirmwareExtras(FileAsset(data)) ==> FirmwareValidator.ImageAsset(mem) == FileAsset(data)
  {
    var a := FileAsset(data);
    AcceptedIsSerialized(data);
    HeaderFields(a, mem);
    HostOkIsFirmwareOkIff(a);
    if FirmwareExtras(a) {
      FirmwareValidator.ImageIsFaultless(mem, a);
    }
    if FirmwareValidator.ImageFault(mem) == FirmwareValidator.NO_FAULT {
      FirmwareValidator.FaultlessIsImage(mem);
      SameImage(mem, a, FirmwareValidator.ImageAsset(mem));
    }
  }

  lemma HostOkIsFirmwareOkIff(a: Asset)
    requires HostOk(a)
    ensures FirmwareValidator.FirmwareOk(a) <==> FirmwareExtras(a)
  {
    TicksAgree(a.events, a.duration);
  }

  /** One memory begins with only one acceptable asset of a given size. */
  lemma SameImage(mem: seq<word>, a: Asset, b: Asset)
    requires Serialize(a) <= mem && Serialize(b) <= mem && TotalBytes(a) == TotalBytes(b)
    requires RecordsOk(a.records, 0, WORD_MODULUS) && RecordsOk(b.records, 0, FRAMEBUFFER_WORDS)
    ensures a == b
  {
    assert Serialize(a) == mem[..TotalBytes(a) / 4] == Serialize(b);
    SameSerialization(a, b);
    HeaderFields(a, mem);
    HeaderFields(b, mem);
    SerializeParts(a, mem);
    SerializeParts(b, mem);
    SameVideo(mem, a, b);
  }

  /** Equal video words of equally many acceptable records are the same records. */
  lemma SameVideo(mem: seq<word>, a: Asset, b: Asset)
    requires Serialize(a) <= mem && Serialize(b) <= mem && |a.records| == |b.records|
    requires VideoWords(a.records) == VideoWords(b.records)
    requires RecordsOk(a.records, 0, WORD_MODULUS) && RecordsOk(b.records, 0, FRAMEBUFFER_WORDS)
    ensures a.records == b.records
  {
    SerializeParts(a, mem);
    SerializeParts(b, mem);
    SerializedIsParsed(mem, HEADER_WORDS, AudioByte(a) / 4, 0, WORD_MODULUS, a.records);
    SerializedIsParsed(mem, HEADER_WORDS, AudioByte(b) / 4, 0, WORD_MODULUS, b.records);
  }

  /** The other way: the firmware is laxer about one thing only, a beat marker without its header flag. */
  lemma FirmwareToHost(data: seq<byte>)
    requires |data| % 4 == 0 && FirmwareValidator.Readable(Unpack(data))
    requires FirmwareValidator.ImageFault(Unpack(data)) == FirmwareValidator.NO_FAULT
    requires |data| == Unpack(data)[2]
    ensures var a := FirmwareValidator.ImageAsset(Unpack(data));
      FileFail(data) == None <==> (AnyBeat(a.events) ==> a.flags == 1)
  {
    var mem := Unpack(data);
    FirmwareValidator.FaultlessIsImage(mem);
    var a := FirmwareValidator.ImageAsset(mem);
    assert Serialize(a) == mem;
    TicksAgree(a.events, a.duration);
    if AnyBeat(a.events) ==> a.flags == 1 {
      SerializedIsAccepted(data, a);
    }
    if FileFail(data) == None {
      AcceptedIsSerialized(data);
      SameSerialization(a, FileAsset(data));
    }
  }

  // ----- what each complaint tells -----

  /** A whole number of words, at least a header. */
  predicate Whole(data: seq<byte>) {
    |data| >= 48 && |data| % 4 == 0
  }

  /** "BAM2", the version and the size of the file. */
  predicate Signed(ws: seq<word>)
    requires |ws| >= 12
  {
    ws[0] == 0x324d_4142 && ws[1] == 2 && ws[2] == 4 * |ws|
  }

  /** 96 words a frame, one frame every 6 ticks. */
  predicate Shaped(ws: seq<word>)
    requires |ws| >= 12
  {
    ws[9] == 96 && ws[6] == 6
  }

  /** No flag but the first, nothing reserved, and the video right behind the header. */
  predicate Plain(ws: seq<word>)
    requires |ws| >= 12
  {
    ws[10] <= 1 && ws[11] == 0 && ws[5] == 48
  }

  /** The audio stream ends with the file. */
  predicate Bounded(ws: seq<word>)
    requires |ws| >= 12
  {
    ws[8] >= 48 && ws[8] + 8 * (ws[7] as int) == 4 * |ws|
  }

  predicate HeaderFine(ws: seq<word>) {
    |ws| >= 12 && Signed(ws) && Shaped(ws) && Plain(ws) && Bounded(ws)
  }

  lemma HeaderFineIff(ws: seq<word>)
    requires |ws| >= 12
    ensures HeaderFail(ws, 4 * |ws|) == None <==> HeaderFine(ws)
    ensures HeaderFine(ws) ==> ws[8] % 4 == 0 && 12 <= ws[8] / 4 && ws[8] / 4 + 2 * (ws[7] as int) == |ws|
  {
  }

  /** The first record of the stream that is not as it must be has this fault. */
  ghost predicate StreamHas(ws: seq<word>, fault: Fault)
    requires HeaderFine(ws)
  {
    HeaderFineIff(ws);
    exists rs :: FirstFault(ws, 12, ws[8] / 4, ws[4], WORD_MODULUS, rs, fault)
  }

  lemma StreamHasIff(ws: seq<word>, fault: Fault)
    requires HeaderFine(ws) && fault != Fine
    ensures HeaderFail(ws, 4 * |ws|) == None && (StreamFault(ws) == fault <==> StreamHas(ws, fault))
  {
    HeaderFineIff(ws);
    FaultIff(ws, 12, ws[8] / 4, ws[4], WORD_MODULUS, fault);
  }

  /** What a file with a good header and a good stream is refused for: its ticks in general, the last one, its flag. */
  predicate EventsTell(events: seq<Pair>, duration: int, flags: int, fail: Option<Fail>) {
    && (fail == Some(TicksNotIncreasing) <==> exists i :: 1 <= i < |events| && events[i].key <= events[i - 1].key)
    && (fail == Some(BeyondDuration) ==> events != [] && events[|events| - 1].key >= duration)
    && (fail == Some(BeatFlagMissing) ==> flags != 1 && exists i :: 0 <= i < |events| && HasBeat(events[i].value))
    && (fail == None ==> TicksAcceptable(events, duration) && (flags == 1 || forall i :: 0 <= i < |events| ==> !HasBeat(events[i].value)))
    && (fail == Some(BeatFlagMissing) ==> TicksAcceptable(events, duration))
    && (fail == None || fail.value in {TicksNotIncreasing, BeyondDuration, BeatFlagMissing})
  }

  predicate TicksAcceptable(events: seq<Pair>, duration: int) {
    && (forall i :: 1 <= i < |events| ==> events[i - 1].key < events[i].key)
    && (events != [] ==> events[|events| - 1].key < duration)
  }

  lemma EventsFailTells(events: seq<Pair>, duration: int, flags: int)
    ensures EventsTell(events, duration, flags, EventsFail(events, duration, flags))
  {
  }

  /** Everything the file can be refused for behind a good header. */
  ghost predicate StreamsTell(ws: seq<word>, fail: Option<Fail>)
    requires HeaderFine(ws)
  {
    HeaderFineIff(ws);
    && (forall fault :: fault != Fine ==> (fail == Some(VideoFailed(fault)) <==> StreamHas(ws, fault)))
    && ((forall fault :: fault != Fine ==> !StreamHas(ws, fault)) ==>
          EventsTell(PairsAt(ws, ws[8] / 4, ws[7]), ws[3], ws[10], fail))
  }

  lemma StreamsFailTell(data: seq<byte>)
    requires Whole(data) && HeaderFine(Unpack(data))
    ensures StreamsTell(Unpack(data), FileFail(data))
  {
    var ws := Unpack(data);
    HeaderFineIff(ws);
    forall fault | fault != Fine ensures StreamFault(ws) == fault <==> StreamHas(ws, fault) {
      StreamHasIff(ws, fault);
    }
    EventsFailTells(PairsAt(ws, ws[8] / 4, ws[7]), ws[3], ws[10]);
    if StreamFault(ws) != Fine {
      StreamHasIff(ws, StreamFault(ws));
    }
  }

  /**
   * What the host raises tells what is wrong with the file: the first of its
   * length, its header, the video records in their order, and the audio list,
   * that is not as it must be.
   */
  lemma ComplaintsTell(data: seq<byte>)
    ensures FileFail(data) == Some(HeaderIncomplete) <==> !Whole(data)
    ensures Whole(data) ==>
      var ws, fail := Unpack(data), FileFail(data);
      && (fail == Some(MagicVersionSize) <==> !Signed(ws))
      && (fail == Some(Geometry) <==> Signed(ws) && !Shaped(ws))
      && (fail == Some(ReservedOffset) <==> Signed(ws) && Shaped(ws) && !Plain(ws))
      && (fail == Some(AudioBounds) <==> Signed(ws) && Shaped(ws) && Plain(ws) && !Bounded(ws))
      && (HeaderFine(ws) ==> StreamsTell(ws, fail))
  {
    if Whole(data) && HeaderFine(Unpack(data)) {
      StreamsFailTell(data);
    }
  }

  // ----- the validator itself -----

  /** One record: bounds, then its replacements, written into `current`. */
  method DecodeRecord(ws: seq<word>, start: nat, frameIndex: nat, audioWord: nat, before: Frame)
    returns (fault: Fault, cursor: nat, current: Frame)
    requires start < audioWord <= |ws|
    ensures fault == (if frameIndex == 0 && ws[start] != FRAMEBUFFER_WORDS then NotFull
                      else if RecordEnd(ws, start) > audioWord then OutOfBounds
                      else if !IndicesOk(PairsAt(ws, start + 1, ws[start])) then BadIndex
                      else Fine)
    ensures fault == Fine ==>
      cursor == RecordEnd(ws, start) && current == Apply(before, PairsAt(ws, start + 1, ws[start]))
  {
    cursor, current := start, before;
    var count: nat := ws[cursor];
    cursor := cursor + 1;
    if frameIndex == 0 && count != FRAMEBUFFER_WORDS {
      return NotFull, cursor, current;
    }
    if cursor + count * 2 > audioWord {
      return OutOfBounds, cursor, current;
    }
    ghost var changes := PairsAt(ws, cursor, count);
    for done := 0 to count
      invariant cursor == start + 1 + 2 * done
      invariant IndicesOk(changes[..done]) && current == Apply(before, changes[..done])
    {
      var index, value := ws[cursor], ws[cursor + 1];
      assert changes[done] == Pair(index, value) && changes[..done + 1] == changes[..done] + [changes[done]];
      cursor := cursor + 2;
      if index >= FRAMEBUFFER_WORDS {
        return BadIndex, cursor, current;
      }
      ApplyOneMore(before, changes[..done], changes[done]);
      current := current[index := value];
    }
    assert changes[..count] == changes;
    fault := Fine;
  }

  /** The loop over the frames. */
  method DecodeVideo(ws: seq<word>, audioWord: nat, frameCount: nat) returns (fault: Fault, frames: seq<Frame>)
    requires HEADER_WORDS <= audioWord <= |ws|
    ensures fault == VideoFault(ws, HEADER_WORDS, audioWord, 0, frameCount, WORD_MODULUS)
    ensures fault == Fine ==>
      var rs := ParseRecords(ws, HEADER_WORDS, audioWord, 0, frameCount, WORD_MODULUS);
      RecordsOk(rs, 0, WORD_MODULUS) && frames == Frames(Blank(), rs)
  {
    var cursor := HEADER_WORDS;
    var current := Blank();
    frames := [];
    ghost var rs: seq<Record> := [];
    assert ws[HEADER_WORDS..cursor] == [];
    for frameIndex := 0 to frameCount
      invariant HEADER_WORDS <= cursor <= audioWord && |rs| == frameIndex
      invariant ws[HEADER_WORDS..cursor] == VideoWords(rs) && RecordsOk(rs, 0, WORD_MODULUS)
      invariant frames == Frames(Blank(), rs) && current == Playback(Blank(), rs)
      invariant VideoFault(ws, HEADER_WORDS, audioWord, 0, frameCount, WORD_MODULUS)
             == VideoFault(ws, cursor, audioWord, frameIndex, frameCount, WORD_MODULUS)
    {
      if cursor >= audioWord {
        return Truncated, frames;
      }
      ghost var start := cursor;
      fault, cursor, current := DecodeRecord(ws, cursor, frameIndex, audioWord, current);
      if fault != Fine {
        return;
      }
      ghost var r := PairsAt(ws, start + 1, ws[start]);
      RecordRead(ws, HEADER_WORDS, start, rs);
      FramesOneMore(Blank(), rs, r);
      rs := rs + [r];
      frames := frames + [current];
    }
    if cursor != audioWord {
      return Trailing, frames;
    }
    SerializedIsParsed(ws, HEADER_WORDS, audioWord, 0, WORD_MODULUS, rs);
    fault := Fine;
  }

  lemma FramesOneMore(fb: Frame, rs: seq<Record>, r: Record)
    requires AllIndicesOk(rs)
    requires IndicesOk(r)
    ensures Playback(fb, rs + [r]) == Apply(Playback(fb, rs), r)
    ensures Frames(fb, rs + [r]) == Frames(fb, rs) + [Playback(fb, rs + [r])]
  {
    var more := rs + [r];
    assert more[..|rs|] == rs;
    forall k | 0 <= k < |rs|
      ensures Frames(fb, more)[k] == Frames(fb, rs)[k]
    {
      assert more[..k + 1] == rs[..k + 1];
    }
    LastFrame(fb, more);
  }

  lemma LastFrame(fb: Frame, rs: seq<Record>)
    requires AllIndicesOk(rs) && rs != []
    ensures Frames(fb, rs)[|rs| - 1] == Playback(fb, rs)
  {
    assert rs[..|rs|] == rs;
  }

  /** The checks after the header is unpacked. */
  method CheckHeader(words: seq<word>, length: nat) returns (fail: Option<Fail>)
    requires |words| >= HEADER_WORDS
    ensures fail == HeaderFail(words, length)
  {
    var audioCount: int, audioOffset: int := words[7], words[8];
    if words[0] != MAGIC || words[1] != VERSION || words[2] != length {
      return Some(MagicVersionSize);
    }
    if words[9] != FRAMEBUFFER_WORDS || words[6] != VIDEO_PERIOD_TICKS {
      return Some(Geometry);
    }
    if words[10] > 1 || words[11] != 0 || words[5] != HEADER_WORDS * 4 {
      return Some(ReservedOffset);
    }
    if audioOffset < words[5] || audioOffset + audioCount * 8 != length {
      return Some(AudioBounds);
    }
    fail := None;
  }

  /** The checks on the decoded audio list. */
  method CheckAudio(audio: seq<Pair>, duration: int, flags: int) returns (fail: Option<Fail>)
    ensures fail == EventsFail(audio, duration, flags)
  {
    if exists i :: 1 <= i < |audio| && audio[i].key <= audio[i - 1].key {
      return Some(TicksNotIncreasing);
    }
    if |audio| > 0 && audio[|audio| - 1].key >= duration {
      return Some(BeyondDuration);
    }
    if AnyBeat(audio) && flags != 1 {
      return Some(BeatFlagMissing);
    }
    fail := None;
  }

  method ValidateAsset(data: seq<byte>) returns (result: Result<Report, Fail>)
    ensures match FileFail(data)
      case Some(f) => result == Failure(f)
      case None => AllIndicesOk(FileAsset(data).records) && result == Success(ReportOf(FileAsset(data)))
  {
    if |data| < HEADER_WORDS * 4 || |data| % 4 != 0 {
      return Failure(HeaderIncomplete);
    }
    var words := Unpack(data);
    var fail := CheckHeader(words, |data|);
    if fail.Some? {
      return Failure(fail.value);
    }
    var audioWord := words[8] / 4;
    var fault, frames := DecodeVideo(words, audioWord, words[4]);
    if fault != Fine {
      return Failure(VideoFailed(fault));
    }
    var audio := PairsAt(words, audioWord, words[7]);
    fail := CheckAudio(audio, words[3], words[10]);
    if fail.Some? {
      return Failure(fail.value);
    }
    AcceptedStreams(data);
    return Success(Report(words[2], words[3], words[10], frames, audio));
  }
}
