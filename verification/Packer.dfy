// The host side of BAM2: the delta encoder of `make_bad_apple_full_asset.py`,
// on unbounded Python integers.
module Packer {
  import opened Words
  import opened Bam2Format

  const AUDIO_BEAT_FLAG := 0x8000_0000

  datatype Result<+T, +E> = Success(value: T) | Failure(error: E)

  /** `value & AUDIO_BEAT_FLAG`, for any Python integer. */
  predicate HasBeat(value: int) {
    (value / AUDIO_BEAT_FLAG) % 2 == 1
  }

  predicate AnyBeat(events: seq<Pair>) {
    exists i :: 0 <= i < |events| && HasBeat(events[i].value)
  }

  // ----- encoding -----

  datatype EncodeError = BadFrames | TooLarge | StructError

  predicate FramesOk(frames: seq<seq<int>>) {
    frames != [] && forall k :: 0 <= k < |frames| ==> |frames[k]| == FRAMEBUFFER_WORDS
  }

  predicate AllFit(xs: seq<int>) {
    forall i :: 0 <= i < |xs| ==> FitsWord(xs[i])
  }

  /** The changes among the first `n` words, in index order. */
  function DiffUpTo(previous: Frame, current: Frame, n: nat): seq<Pair>
    requires n <= FRAMEBUFFER_WORDS
  {
    if n == 0 then []
    else if current[n - 1] != previous[n - 1] then
      DiffUpTo(previous, current, n - 1) + [Pair(n - 1, current[n - 1])]
    else
      DiffUpTo(previous, current, n - 1)
  }

  function Full(frame: Frame): seq<Pair> {
    seq(FRAMEBUFFER_WORDS, i requires 0 <= i < FRAMEBUFFER_WORDS => Pair(i, frame[i]))
  }

  function RecordOf(frames: seq<Frame>, k: nat): Record
    requires k < |frames|
  {
    if k == 0 then Full(frames[0]) else DiffUpTo(frames[k - 1], frames[k], FRAMEBUFFER_WORDS)
  }

  function RecordsOf(frames: seq<Frame>): (rs: seq<Record>)
    ensures |rs| == |frames|
  {
    seq(|frames|, k requires 0 <= k < |frames| => RecordOf(frames, k))
  }

  function AssetOf(frames: seq<Frame>, events: seq<Pair>, duration: int): Asset {
    Asset(duration, if AnyBeat(events) then 1 else 0, RecordsOf(frames), events)
  }

  lemma {:induction false} DiffIndices(previous: Frame, current: Frame, n: nat)
    requires n <= FRAMEBUFFER_WORDS
    ensures var d := DiffUpTo(previous, current, n);
      |d| <= n && forall j :: 0 <= j < |d| ==> 0 <= d[j].key < n && d[j].value == current[d[j].key]
  {
    if n > 0 {
      DiffIndices(previous, current, n - 1);
    }
  }

  /** Strictly increasing indices. */
  predicate IndicesIncrease(r: seq<Pair>) {
    forall i, j :: 0 <= i < j < |r| ==> r[i].key < r[j].key
  }

  /** The changes name, in index order, exactly the words that differ. */
  lemma {:induction false} DiffIsMinimal(previous: Frame, current: Frame, n: nat)
    requires n <= FRAMEBUFFER_WORDS
    ensures var d := DiffUpTo(previous, current, n);
      && IndicesIncrease(d)
      && forall i :: 0 <= i < FRAMEBUFFER_WORDS ==> (Writes(d, i) <==> i < n && current[i] != previous[i])
  {
    DiffIndices(previous, current, n);
    if n > 0 {
      DiffIsMinimal(previous, current, n - 1);
      DiffIndices(previous, current, n - 1);
      var init, last := DiffUpTo(previous, current, n - 1), Pair(n - 1, current[n - 1]);
      if current[n - 1] != previous[n - 1] {
        forall i | 0 <= i < FRAMEBUFFER_WORDS ensures Writes(init + [last], i) <==> Writes(init, i) || i == n - 1 {
          WritesOneMore(init, last, i);
        }
      }
    }
  }

  lemma WritesOneMore(r: seq<Pair>, last: Pair, i: nat)
    ensures Writes(r + [last], i) <==> Writes(r, i) || last.key == i
  {
    if Writes(r, i) {
      var j :| 0 <= j < |r| && r[j].key == i;
      assert (r + [last])[j].key == i;
    }
    if last.key == i {
      assert (r + [last])[|r|].key == i;
    }
  }

  /** The words a record writes. */
  function WrittenBy(r: seq<Pair>): set<int> {
    set j | 0 <= j < |r| :: r[j].key
  }

  lemma WrittenOneMore(r: seq<Pair>, last: Pair)
    ensures WrittenBy(r + [last]) == WrittenBy(r) + {last.key}
  {
    var more := r + [last];
    assert more[|r|].key == last.key && forall j :: 0 <= j < |r| ==> more[j].key == r[j].key;
    forall k ensures k in WrittenBy(more) <==> k in WrittenBy(r) + {last.key} {
      if k in WrittenBy(r) {
        var j :| 0 <= j < |r| && r[j].key == k;
        assert more[j].key == k;
      }
    }
  }

  lemma {:induction false} WrittenAtMost(r: seq<Pair>)
    ensures |WrittenBy(r)| <= |r|
    ensures IndicesIncrease(r) ==> |WrittenBy(r)| == |r|
  {
    if r == [] {
      assert WrittenBy(r) == {};
    } else {
      var init, last := r[..|r| - 1], r[|r| - 1];
      assert r == init + [last];
      WrittenAtMost(init);
      WrittenOneMore(init, last);
    }
  }

  lemma SubsetIsSmaller(a: set<int>, b: set<int>)
    requires a <= b
    ensures |a| <= |b|
  {
    assert b == a + (b - a);
  }

  /** No record that turns the previous frame into the current one is shorter than the changes. */
  lemma DiffIsShortest(previous: Frame, current: Frame, r: seq<Pair>)
    requires IndicesOk(r) && Apply(previous, r) == current
    ensures |DiffUpTo(previous, current, FRAMEBUFFER_WORDS)| <= |r|
  {
    var d := DiffUpTo(previous, current, FRAMEBUFFER_WORDS);
    DiffIsMinimal(previous, current, FRAMEBUFFER_WORDS);
    DiffIndices(previous, current, FRAMEBUFFER_WORDS);
    forall i | i in WrittenBy(d) ensures i in WrittenBy(r) {
      assert Writes(d, i);
      if !Writes(r, i) {
        ApplyUnwritten(previous, r, i);
      }
      var j :| 0 <= j < |r| && r[j].key == i;
    }
    SubsetIsSmaller(WrittenBy(d), WrittenBy(r));
    WrittenAtMost(d);
    WrittenAtMost(r);
  }

  lemma ApplyOneMore(fb: Frame, r: seq<Pair>, last: Pair)
    requires IndicesOk(r) && 0 <= last.key < FRAMEBUFFER_WORDS
    ensures IndicesOk(r + [last]) && Apply(fb, r + [last]) == Apply(fb, r)[last.key := last.value]
  {
    assert (r + [last])[..|r|] == r;
  }

  /** One more change of a record. */
  lemma ApplyUpTo(fb: Frame, r: seq<Pair>, n: nat)
    requires n < |r| && IndicesOk(r)
    ensures IndicesOk(r[..n]) && IndicesOk(r[..n + 1])
    ensures Apply(fb, r[..n + 1]) == Apply(fb, r[..n])[r[n].key := r[n].value]
  {
    assert r[..n + 1] == r[..n] + [r[n]];
    ApplyOneMore(fb, r[..n], r[n]);
  }

  /** The picture that has its first `n` words from `current`. */
  function Blend(previous: Frame, current: Frame, n: nat): Frame
    requires n <= FRAMEBUFFER_WORDS
  {
    current[..n] + previous[n..]
  }

  lemma BlendOneMore(previous: Frame, current: Frame, n: nat)
    requires 0 < n <= FRAMEBUFFER_WORDS
    ensures Blend(previous, current, n) == Blend(previous, current, n - 1)[n - 1 := current[n - 1]]
  {
    var before, after := Blend(previous, current, n - 1), Blend(previous, current, n);
    assert forall i :: 0 <= i < FRAMEBUFFER_WORDS ==> after[i] == if i == n - 1 then current[n - 1] else before[i];
  }

  /** Applying the difference turns the previous frame into the current one. */
  lemma {:induction false} ApplyDiff(previous: Frame, current: Frame, n: nat)
    requires n <= FRAMEBUFFER_WORDS
    ensures IndicesOk(DiffUpTo(previous, current, n))
    ensures Apply(previous, DiffUpTo(previous, current, n)) == Blend(previous, current, n)
  {
    if n > 0 {
      ApplyDiff(previous, current, n - 1);
      ApplyDiffOneMore(previous, current, n);
    }
  }

  lemma ApplyDiffOneMore(previous: Frame, current: Frame, n: nat)
    requires 0 < n <= FRAMEBUFFER_WORDS && IndicesOk(DiffUpTo(previous, current, n - 1))
    requires Apply(previous, DiffUpTo(previous, current, n - 1)) == Blend(previous, current, n - 1)
    ensures IndicesOk(DiffUpTo(previous, current, n))
    ensures Apply(previous, DiffUpTo(previous, current, n)) == Blend(previous, current, n)
  {
    var d := DiffUpTo(previous, current, n - 1);
    BlendOneMore(previous, current, n);
    if current[n - 1] != previous[n - 1] {
      ApplyOneMore(previous, d, Pair(n - 1, current[n - 1]));
    } else {
      assert Blend(previous, current, n - 1)[n - 1] == current[n - 1];
    }
  }

  lemma {:induction false} ApplyFullUpTo(fb: Frame, frame: Frame, n: nat)
    requires n <= FRAMEBUFFER_WORDS
    ensures IndicesOk(Full(frame)[..n]) && Apply(fb, Full(frame)[..n]) == frame[..n] + fb[n..]
  {
    if n > 0 {
      ApplyFullUpTo(fb, frame, n - 1);
      assert Full(frame)[..n][..n - 1] == Full(frame)[..n - 1];
    }
  }

  lemma ApplyFull(fb: Frame, frame: Frame)
    ensures IndicesOk(Full(frame)) && Apply(fb, Full(frame)) == frame
  {
    ApplyFullUpTo(fb, frame, FRAMEBUFFER_WORDS);
    assert Full(frame)[..FRAMEBUFFER_WORDS] == Full(frame);
  }

  /** What the encoder emits is what both validators demand of the video stream. */
  lemma EncodedRecordsOk(frames: seq<Frame>)
    ensures RecordsOk(RecordsOf(frames), 0, FRAMEBUFFER_WORDS)
  {
    forall k | 0 <= k < |frames|
      ensures |RecordsOf(frames)[k]| <= FRAMEBUFFER_WORDS && IndicesOk(RecordsOf(frames)[k])
    {
      if k > 0 {
        DiffIndices(frames[k - 1], frames[k], FRAMEBUFFER_WORDS);
      }
    }
  }

  lemma PlaybackUpTo(fb: Frame, rs: seq<Record>, k: nat)
    requires k < |rs| && AllIndicesOk(rs)
    ensures Playback(fb, rs[..k + 1]) == Apply(Playback(fb, rs[..k]), rs[k])
  {
    assert rs[..k + 1][..k] == rs[..k];
  }

  /** Each record turns the frame before it, or any screen, into its own frame. */
  lemma RecordShowsFrame(fb: Frame, frames: seq<Frame>, k: nat)
    requires k < |frames| && (k > 0 ==> fb == frames[k - 1])
    ensures IndicesOk(RecordOf(frames, k)) && Apply(fb, RecordOf(frames, k)) == frames[k]
  {
    if k == 0 {
      ApplyFull(fb, frames[0]);
    } else {
      ApplyDiff(frames[k - 1], frames[k], FRAMEBUFFER_WORDS);
    }
  }

  lemma {:induction false} EncodedPlayback(fb: Frame, frames: seq<Frame>, k: nat)
    requires k < |frames|
    requires RecordsOk(RecordsOf(frames), 0, FRAMEBUFFER_WORDS)
    ensures Playback(fb, RecordsOf(frames)[..k + 1]) == frames[k]
  {
    var rs := RecordsOf(frames);
    PlaybackUpTo(fb, rs, k);
    if k == 0 {
      assert rs[..0] == [];
      RecordShowsFrame(fb, frames, 0);
    } else {
      EncodedPlayback(fb, frames, k - 1);
      RecordShowsFrame(frames[k - 1], frames, k);
    }
  }

  /** The deltas lose nothing: played from any framebuffer they show the source frames. */
  lemma EncodedFrames(fb: Frame, frames: seq<Frame>)
    ensures RecordsOk(RecordsOf(frames), 0, FRAMEBUFFER_WORDS) && Frames(fb, RecordsOf(frames)) == frames
  {
    EncodedRecordsOk(frames);
    forall k | 0 <= k < |frames|
      ensures Frames(fb, RecordsOf(frames))[k] == frames[k]
    {
      EncodedPlayback(fb, frames, k);
    }
  }

  // ----- which inputs `struct.pack` takes -----

  predicate PairsFit(ps: seq<Pair>) {
    forall i :: 0 <= i < |ps| ==> FitsWord(ps[i].key) && FitsWord(ps[i].value)
  }

  /** Every number handed to the encoder is a 32-bit word. */
  predicate InputsFit(frames: seq<Frame>, events: seq<Pair>, duration: int) {
    && FitsWord(duration)
    && PairsFit(events)
    && FramesFit(frames, |frames|)
  }

  lemma FlattenFits(ps: seq<Pair>)
    ensures AllFit(Flatten(ps)) <==> PairsFit(ps)
  {
    if AllFit(Flatten(ps)) {
      forall i | 0 <= i < |ps|
        ensures FitsWord(ps[i].key) && FitsWord(ps[i].value)
      {
        FlattenAt(ps, i);
        assert FitsWord(Flatten(ps)[2 * i]) && FitsWord(Flatten(ps)[2 * i + 1]);
      }
    }
  }

  lemma AllFitAppend(xs: seq<int>, ys: seq<int>)
    ensures AllFit(xs + ys) <==> AllFit(xs) && AllFit(ys)
  {
    if AllFit(xs + ys) {
      assert forall i :: 0 <= i < |xs| ==> xs[i] == (xs + ys)[i];
      assert forall i :: 0 <= i < |ys| ==> ys[i] == (xs + ys)[|xs| + i];
    }
  }

  lemma {:induction false} VideoFits(rs: seq<Record>)
    requires forall k :: 0 <= k < |rs| ==> FitsWord(|rs[k]|)
    ensures AllFit(VideoWords(rs)) <==> forall k :: 0 <= k < |rs| ==> PairsFit(rs[k])
  {
    if rs != [] {
      VideoFits(rs[1..]);
      AllFitAppend(RecordWords(rs[0]), VideoWords(rs[1..]));
      AllFitAppend([|rs[0]|], Flatten(rs[0]));
      FlattenFits(rs[0]);
      assert forall k :: 1 <= k < |rs| ==> rs[k] == rs[1..][k - 1];
      assert (forall k :: 0 <= k < |rs| ==> PairsFit(rs[k]))
          <==> PairsFit(rs[0]) && forall k :: 0 <= k < |rs[1..]| ==> PairsFit(rs[1..][k]);
    }
  }

  lemma FullFits(frame: Frame)
    ensures PairsFit(Full(frame)) <==> AllFit(frame)
  {
    if PairsFit(Full(frame)) {
      forall i | 0 <= i < |frame|
        ensures FitsWord(frame[i])
      {
        assert Full(frame)[i].value == frame[i];
      }
    }
  }

  lemma PairsFitAppend(ps: seq<Pair>, last: Pair)
    ensures PairsFit(ps + [last]) <==> PairsFit(ps) && FitsWord(last.key) && FitsWord(last.value)
  {
    if PairsFit(ps + [last]) {
      assert forall i :: 0 <= i < |ps| ==> ps[i] == (ps + [last])[i];
      assert (ps + [last])[|ps|] == last;
    }
  }

  /** A frame is fit when the one before is and the words that changed are: every word was once a change. */
  lemma {:induction false} DiffFits(previous: Frame, current: Frame, n: nat)
    requires n <= FRAMEBUFFER_WORDS && AllFit(previous)
    ensures PairsFit(DiffUpTo(previous, current, n)) <==> AllFit(current[..n])
  {
    if n > 0 {
      DiffFits(previous, current, n - 1);
      AllFitAppend(current[..n - 1], [current[n - 1]]);
      assert current[..n] == current[..n - 1] + [current[n - 1]];
      PairsFitAppend(DiffUpTo(previous, current, n - 1), Pair(n - 1, current[n - 1]));
      assert FitsWord(previous[n - 1]);
      assert AllFit([current[n - 1]]) <==> FitsWord(current[n - 1]) by {
        assert [current[n - 1]][0] == current[n - 1];
      }
    }
  }

  predicate FramesFit(frames: seq<Frame>, n: nat)
    requires n <= |frames|
  {
    forall k :: 0 <= k < n ==> AllFit(frames[k])
  }

  predicate RecordsFit(frames: seq<Frame>, n: nat)
    requires n <= |frames|
  {
    forall k :: 0 <= k < n ==> PairsFit(RecordOf(frames, k))
  }

  lemma {:induction false} RecordsFitIff(frames: seq<Frame>, n: nat)
    requires n <= |frames|
    ensures RecordsFit(frames, n) <==> FramesFit(frames, n)
  {
    if n > 0 {
      RecordsFitIff(frames, n - 1);
      assert RecordsFit(frames, n) <==> RecordsFit(frames, n - 1) && PairsFit(RecordOf(frames, n - 1));
      assert FramesFit(frames, n) <==> FramesFit(frames, n - 1) && AllFit(frames[n - 1]);
      if n == 1 {
        FullFits(frames[0]);
      } else if FramesFit(frames, n - 1) {
        DiffFits(frames[n - 2], frames[n - 1], FRAMEBUFFER_WORDS);
        assert frames[n - 1][..FRAMEBUFFER_WORDS] == frames[n - 1];
      }
    }
  }

  /** `struct.pack` takes the encoder's words exactly when every input number is a 32-bit word. */
  lemma PackableIff(frames: seq<Frame>, events: seq<Pair>, duration: int)
    requires TotalBytes(AssetOf(frames, events, duration)) <= MAX_ASSET_BYTES
    ensures AllFit(Serialize(AssetOf(frames, events, duration))) <==> InputsFit(frames, events, duration)
  {
    var a := AssetOf(frames, events, duration);
    RecordCountBound(a.records);
    EncodedRecordsOk(frames);
    VideoFits(a.records);
    RecordsFitIff(frames, |frames|);
    FlattenFits(events);
    AllFitAppend(Header(a), VideoWords(a.records));
    AllFitAppend(Header(a) + VideoWords(a.records), Flatten(events));
    if AllFit(Header(a)) {
      assert FitsWord(Header(a)[3]);
    }
    assert forall k :: 0 <= k < |frames| ==> a.records[k] == RecordOf(frames, k);
  }

  lemma {:induction false} RecordCountBound(rs: seq<Record>)
    ensures |rs| <= |VideoWords(rs)|
  {
    if rs != [] {
      RecordCountBound(rs[1..]);
    }
  }

  // ----- the encoder itself -----

  /** The list comprehension over the words that changed. */
  method Changes(previous: Frame, frame: Frame, frameIndex: nat) returns (changes: seq<Pair>)
    ensures changes == if frameIndex == 0 then Full(frame) else DiffUpTo(previous, frame, FRAMEBUFFER_WORDS)
  {
    changes := [];
    for index := 0 to FRAMEBUFFER_WORDS
      invariant changes == if frameIndex == 0 then Full(frame)[..index] else DiffUpTo(previous, frame, index)
    {
      if frameIndex == 0 || frame[index] != previous[index] {
        changes := changes + [Pair(index, frame[index])];
      }
    }
    assert Full(frame)[..FRAMEBUFFER_WORDS] == Full(frame);
  }

  /** `for key, value in pairs: words.extend((key, value))`. */
  method Extend(words: seq<int>, pairs: seq<Pair>) returns (extended: seq<int>)
    ensures extended == words + Flatten(pairs)
  {
    extended := words;
    for i := 0 to |pairs|
      invariant extended == words + Flatten(pairs)[..2 * i]
    {
      FlattenAt(pairs, i);
      extended := extended + [pairs[i].key, pairs[i].value];
    }
    assert Flatten(pairs)[..2 * |pairs|] == Flatten(pairs);
  }

  lemma AppendRecord(words: seq<int>, r: Record)
    ensures words + [|r|] + Flatten(r) == words + RecordWords(r)
  {
  }

  /** The delta loop over the frames. */
  method EncodeVideo(frames: seq<Frame>) returns (videoWords: seq<int>)
    ensures videoWords == VideoWords(RecordsOf(frames))
  {
    videoWords := [];
    var previous := Blank();
    ghost var rs := RecordsOf(frames);
    for frameIndex := 0 to |frames|
      invariant videoWords == VideoWords(rs[..frameIndex])
      invariant frameIndex > 0 ==> previous == frames[frameIndex - 1]
    {
      var frame := frames[frameIndex];
      var changes := Changes(previous, frame, frameIndex);
      assert changes == rs[frameIndex];
      VideoUpTo(rs, frameIndex);
      AppendRecord(videoWords, changes);
      videoWords := videoWords + [|changes|];
      videoWords := Extend(videoWords, changes);
      previous := frame;
    }
    assert rs[..|frames|] == rs;
  }

  /** The file `data` is the little-endian packing of the words of `a`. */
  predicate EncodesAs(data: seq<byte>, a: Asset) {
    |data| % 4 == 0 && Unpack(data) == Serialize(a)
  }

  /** The 48 bytes a file begins with: four letters, then the numbers, low byte first. */
  lemma FileHead(data: seq<byte>, a: Asset)
    requires EncodesAs(data, a)
    ensures |data| == TotalBytes(a) && |data| >= 48
    ensures data[..4] == ['B' as int, 'A' as int, 'M' as int, '2' as int]
    ensures Unpack(data)[..12]
         == [0x324d_4142, 2, |data|, a.duration, |a.records|, 48, 6, |a.events|, 48 + 4 * |VideoWords(a.records)|, 96, a.flags, 0]
  {
    var ws := Unpack(data);
    PackUnpack(data);
    HeadWords(a);
    assert ws[0] == ws[..12][0];
    MagicLetters(ws);
  }

  lemma HeadWords(a: Asset)
    ensures |Serialize(a)| >= 12
    ensures Serialize(a)[..12] == [0x324d_4142, 2, TotalBytes(a), a.duration, |a.records|, 48, 6, |a.events|,
                                   48 + 4 * |VideoWords(a.records)|, 96, a.flags, 0]
  {
    assert Serialize(a)[..12] == Header(a);
  }

  lemma MagicLetters(ws: seq<word>)
    requires |ws| > 0 && ws[0] == 0x324d_4142
    ensures Pack(ws)[..4] == ['B' as int, 'A' as int, 'M' as int, '2' as int]
  {
    LowByteFirst(ws, 0);
    var data := Pack(ws);
    assert data[0] == 0x42 && data[1] == 0x41 && data[2] == 0x4d && data[3] == 0x32;
  }

  /** The header the encoder lists. */
  function ListedHeader(totalBytes: int, duration: int, frames: nat, videoOffset: int, events: nat, audioOffset: int, flags: int): seq<int> {
    [MAGIC, VERSION, totalBytes, duration, frames, videoOffset, VIDEO_PERIOD_TICKS, events, audioOffset,
     FRAMEBUFFER_WORDS, flags, 0]
  }

  lemma ListedIsHeader(a: Asset)
    ensures Header(a) == ListedHeader(TotalBytes(a), a.duration, |a.records|, HEADER_WORDS * 4, |a.events|, AudioByte(a), a.flags)
  {
  }

  /** Header, video and audio, put one behind the other, are the asset. */
  lemma ListedIsAsset(a: Asset, header: seq<int>, words: seq<int>)
    requires header == Header(a) && words == header + VideoWords(a.records) + Flatten(a.events)
    ensures words == Serialize(a)
  {
  }

  /** Header, video and audio, listed as the words of the asset `a`. */
  method ListWords(videoWords: seq<int>, events: seq<Pair>, duration: int, frameCount: nat, ghost a: Asset) returns (words: seq<int>)
    requires videoWords == VideoWords(a.records) && events == a.events && duration == a.duration
    requires frameCount == |a.records| && a.flags == if AnyBeat(events) then 1 else 0
    ensures words == Serialize(a)
  {
    var videoOffset := HEADER_WORDS * 4;
    var audioOffset := videoOffset + |videoWords| * 4;
    var totalBytes := audioOffset + |events| * 8;
    var flags := if AnyBeat(events) then 1 else 0;
    var header := ListedHeader(totalBytes, duration, frameCount, videoOffset, |events|, audioOffset, flags);
    ListedIsHeader(a);
    words := Extend(header + videoWords, events);
    ListedIsAsset(a, header, words);
  }

  /** `struct.pack`, which raises on a number that is no 32-bit word. */
  method PackWords(words: seq<int>) returns (result: Result<seq<byte>, EncodeError>)
    ensures !AllFit(words) ==> result == Failure(StructError)
    ensures AllFit(words) ==> result.Success? && |result.value| % 4 == 0 && Unpack(result.value) == words
  {
    if !AllFit(words) {
      return Failure(StructError);
    }
    UnpackPack(words);
    return Success(Pack(words));
  }

  /** The encoder once every frame is known to have 96 words. */
  method EncodeFrames(frames: seq<Frame>, events: seq<Pair>, duration: int, ghost a: Asset)
    returns (result: Result<seq<byte>, EncodeError>)
    requires a == AssetOf(frames, events, duration)
    ensures TotalBytes(a) > MAX_ASSET_BYTES ==> result == Failure(TooLarge)
    ensures TotalBytes(a) <= MAX_ASSET_BYTES ==>
      if AllFit(Serialize(a)) then result.Success? && EncodesAs(result.value, a) else result == Failure(StructError)
  {
    var videoWords := EncodeVideo(frames);
    if HEADER_WORDS * 4 + |videoWords| * 4 + |events| * 8 > MAX_ASSET_BYTES {
      return Failure(TooLarge);
    }
    var words := ListWords(videoWords, events, duration, |frames|, a);
    result := PackWords(words);
  }

  method EncodeAsset(frames: seq<seq<int>>, events: seq<Pair>, duration: int)
    returns (result: Result<seq<byte>, EncodeError>)
    ensures !FramesOk(frames) ==> result == Failure(BadFrames)
    ensures FramesOk(frames) && TotalBytes(AssetOf(frames, events, duration)) > MAX_ASSET_BYTES ==> result == Failure(TooLarge)
    ensures FramesOk(frames) && TotalBytes(AssetOf(frames, events, duration)) <= MAX_ASSET_BYTES ==>
      if InputsFit(frames, events, duration)
      then result.Success? && EncodesAs(result.value, AssetOf(frames, events, duration))
      else result == Failure(StructError)
  {
    if |frames| == 0 || exists k :: 0 <= k < |frames| && |frames[k]| != FRAMEBUFFER_WORDS {
      return Failure(BadFrames);
    }
    ghost var a := AssetOf(frames, events, duration);
    result := EncodeFrames(frames, events, duration, a);
    if TotalBytes(a) <= MAX_ASSET_BYTES {
      PackableIff(frames, events, duration);
    }
  }
}
