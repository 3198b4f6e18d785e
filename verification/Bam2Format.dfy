// The BAM2 container: a 12-word header, one delta record per video frame and a
// list of audio events. `Serialize` is the layout itself, written without a
// cursor; the packer, both validators and the player are proved against it.
module Bam2Format {
  import opened Words

  const MAGIC: word := 0x324d4142
  const VERSION: word := 2
  const HEADER_WORDS := 12
  const FRAMEBUFFER_WORDS := 96
  const VIDEO_PERIOD_TICKS := 6
  const MAX_ASSET_BYTES := 16 * 1024 * 1024

  /**
   * A (bitmap word index, replacement word) change, or a (tick, value) audio
   * event. The packer works on Python integers, so these are unbounded; what
   * stands in a memory of words is bounded because the memory is.
   */
  datatype Pair = Pair(key: int, value: int)

  type Record = seq<Pair>
  type Frame = f: seq<int> | |f| == FRAMEBUFFER_WORDS witness seq(FRAMEBUFFER_WORDS, _ => 0)

  /** The all-dark picture. */
  function Blank(): Frame {
    seq(FRAMEBUFFER_WORDS, _ => 0)
  }

  datatype Asset = Asset(duration: int, flags: int, records: seq<Record>, events: seq<Pair>)

  // ----- streams of pairs -----

  function Flatten(ps: seq<Pair>): (ws: seq<int>)
    ensures |ws| == 2 * |ps|
  {
    seq(2 * |ps|, i requires 0 <= i < 2 * |ps| => if i % 2 == 0 then ps[i / 2].key else ps[i / 2].value)
  }

  function PairsAt(ws: seq<word>, at: nat, n: nat): (ps: seq<Pair>)
    requires at + 2 * n <= |ws|
    ensures |ps| == n
  {
    seq(n, i requires 0 <= i < n => Pair(ws[at + 2 * i], ws[at + 2 * i + 1]))
  }

  lemma FlattenAt(ps: seq<Pair>, i: nat)
    requires i < |ps|
    ensures Flatten(ps)[2 * i] == ps[i].key && Flatten(ps)[2 * i + 1] == ps[i].value
  {
    assert (2 * i) / 2 == i && (2 * i + 1) / 2 == i && (2 * i) % 2 == 0 && (2 * i + 1) % 2 == 1;
  }

  /** Reading pairs where a flattened list stands gives that list back. */
  lemma PairsAtFlatten(ws: seq<word>, at: nat, ps: seq<Pair>)
    requires at + 2 * |ps| <= |ws| && ws[at..at + 2 * |ps|] == Flatten(ps)
    ensures PairsAt(ws, at, |ps|) == ps
  {
    forall i | 0 <= i < |ps|
      ensures PairsAt(ws, at, |ps|)[i] == ps[i]
    {
      FlattenAt(ps, i);
      assert ws[at + 2 * i] == Flatten(ps)[2 * i] && ws[at + 2 * i + 1] == Flatten(ps)[2 * i + 1];
    }
  }

  lemma FlattenPairsAt(ws: seq<word>, at: nat, n: nat)
    requires at + 2 * n <= |ws|
    ensures Flatten(PairsAt(ws, at, n)) == ws[at..at + 2 * n]
  {
    var ps := PairsAt(ws, at, n);
    forall j | 0 <= j < 2 * n
      ensures Flatten(ps)[j] == ws[at..at + 2 * n][j]
    {
      FlattenAt(ps, j / 2);
    }
  }

  // ----- the video stream -----

  function RecordWords(r: Record): (ws: seq<int>)
    ensures |ws| == 1 + 2 * |r|
  {
    [|r|] + Flatten(r)
  }

  function VideoWords(rs: seq<Record>): seq<int> {
    if rs == [] then [] else RecordWords(rs[0]) + VideoWords(rs[1..])
  }

  lemma {:induction false} VideoAppend(rs: seq<Record>, more: seq<Record>)
    ensures VideoWords(rs + more) == VideoWords(rs) + VideoWords(more)
  {
    if rs == [] {
      assert rs + more == more;
    } else {
      VideoAppend(rs[1..], more);
      assert (rs + more)[1..] == rs[1..] + more;
    }
  }

  lemma VideoOfOne(r: Record)
    ensures VideoWords([r]) == RecordWords(r)
  {
    assert [r][1..] == [];
  }

  /** The stream up to record `k`, then record `k`. */
  lemma VideoUpTo(rs: seq<Record>, k: nat)
    requires k < |rs|
    ensures VideoWords(rs[..k + 1]) == VideoWords(rs[..k]) + RecordWords(rs[k])
  {
    assert rs[..k + 1] == rs[..k] + [rs[k]];
    VideoAppend(rs[..k], [rs[k]]);
    VideoOfOne(rs[k]);
  }

  /** The stream up to record `k`, then the rest. */
  lemma VideoFrom(rs: seq<Record>, k: nat)
    requires k <= |rs|
    ensures VideoWords(rs) == VideoWords(rs[..k]) + VideoWords(rs[k..])
  {
    assert rs == rs[..k] + rs[k..];
    VideoAppend(rs[..k], rs[k..]);
  }

  // ----- the whole asset -----

  function AudioByte(a: Asset): nat {
    4 * (HEADER_WORDS + |VideoWords(a.records)|)
  }

  function TotalBytes(a: Asset): nat {
    AudioByte(a) + 8 * |a.events|
  }

  function Header(a: Asset): (ws: seq<int>)
    ensures |ws| == HEADER_WORDS
  {
    [MAGIC, VERSION, TotalBytes(a), a.duration, |a.records|, 4 * HEADER_WORDS, VIDEO_PERIOD_TICKS,
     |a.events|, AudioByte(a), FRAMEBUFFER_WORDS, a.flags, 0]
  }

  function Serialize(a: Asset): (ws: seq<int>)
    ensures 4 * |ws| == TotalBytes(a)
  {
    Header(a) + VideoWords(a.records) + Flatten(a.events)
  }

  /** How the parts of an asset lie in a memory that starts with it. */
  lemma SerializeParts(a: Asset, mem: seq<word>)
    requires Serialize(a) <= mem
    ensures mem[..HEADER_WORDS] == Header(a)
    ensures mem[HEADER_WORDS..AudioByte(a) / 4] == VideoWords(a.records)
    ensures mem[AudioByte(a) / 4..TotalBytes(a) / 4] == Flatten(a.events)
    ensures PairsAt(mem, AudioByte(a) / 4, |a.events|) == a.events
  {
    var s := Serialize(a);
    assert s[..HEADER_WORDS] == Header(a);
    assert s[HEADER_WORDS..AudioByte(a) / 4] == VideoWords(a.records);
    assert s[AudioByte(a) / 4..] == Flatten(a.events);
    assert mem[..|s|] == s;
    PairsAtFlatten(mem, AudioByte(a) / 4, a.events);
  }

  /** The header words, one by one. */
  lemma HeaderFields(a: Asset, mem: seq<word>)
    requires Serialize(a) <= mem
    ensures |mem| >= HEADER_WORDS
    ensures mem[0] == MAGIC && mem[1] == VERSION && mem[2] == TotalBytes(a) && mem[3] == a.duration
    ensures mem[4] == |a.records| && mem[5] == 4 * HEADER_WORDS && mem[6] == VIDEO_PERIOD_TICKS
    ensures mem[7] == |a.events| && mem[8] == AudioByte(a) && mem[9] == FRAMEBUFFER_WORDS
    ensures mem[10] == a.flags && mem[11] == 0
  {
    SerializeParts(a, mem);
    var h := mem[..HEADER_WORDS];
    assert h[0] == mem[0] && h[1] == mem[1] && h[2] == mem[2] && h[3] == mem[3] && h[4] == mem[4] && h[5] == mem[5];
    assert h[6] == mem[6] && h[7] == mem[7] && h[8] == mem[8] && h[9] == mem[9] && h[10] == mem[10] && h[11] == mem[11];
  }

  /** A memory whose header fields and streams are those of an asset begins with its serialization. */
  lemma Assemble(mem: seq<word>, a: Asset)
    requires HEADER_WORDS <= AudioByte(a) / 4 <= TotalBytes(a) / 4 <= |mem|
    requires mem[0] == MAGIC && mem[1] == VERSION && mem[2] == TotalBytes(a) && mem[3] == a.duration
    requires mem[4] == |a.records| && mem[5] == 4 * HEADER_WORDS && mem[6] == VIDEO_PERIOD_TICKS
    requires mem[7] == |a.events| && mem[8] == AudioByte(a) && mem[9] == FRAMEBUFFER_WORDS
    requires mem[10] == a.flags && mem[11] == 0
    requires mem[HEADER_WORDS..AudioByte(a) / 4] == VideoWords(a.records)
    requires mem[AudioByte(a) / 4..TotalBytes(a) / 4] == Flatten(a.events)
    ensures mem[..TotalBytes(a) / 4] == Serialize(a)
  {
    var audioWord, totalWords := AudioByte(a) / 4, TotalBytes(a) / 4;
    HeaderAssembled(mem, a);
    ThreeParts(mem, HEADER_WORDS, audioWord, totalWords);
  }

  lemma HeaderAssembled(mem: seq<word>, a: Asset)
    requires |mem| >= HEADER_WORDS
    requires mem[0] == MAGIC && mem[1] == VERSION && mem[2] == TotalBytes(a) && mem[3] == a.duration
    requires mem[4] == |a.records| && mem[5] == 4 * HEADER_WORDS && mem[6] == VIDEO_PERIOD_TICKS
    requires mem[7] == |a.events| && mem[8] == AudioByte(a) && mem[9] == FRAMEBUFFER_WORDS
    requires mem[10] == a.flags && mem[11] == 0
    ensures mem[..HEADER_WORDS] == Header(a)
  {
  }

  lemma ThreeParts(s: seq<word>, i: nat, j: nat, k: nat)
    requires i <= j <= k <= |s|
    ensures s[..k] == s[..i] + s[i..j] + s[j..k]
  {
  }

  // ----- parsing the video stream back -----

  datatype Fault = Fine | Truncated | NotFull | TooMany | OutOfBounds | BadIndex | Trailing

  predicate IndicesOk(ps: seq<Pair>) {
    forall j :: 0 <= j < |ps| ==> 0 <= ps[j].key < FRAMEBUFFER_WORDS
  }

  predicate AllIndicesOk(rs: seq<Record>) {
    forall k :: 0 <= k < |rs| ==> IndicesOk(rs[k])
  }

  /** What the validators demand of the records; `frame` counts from the start of the stream. */
  predicate RecordsOk(rs: seq<Record>, frame: nat, limit: nat) {
    && (frame == 0 && rs != [] ==> |rs[0]| == FRAMEBUFFER_WORDS)
    && (forall k :: 0 <= k < |rs| ==> |rs[k]| <= limit)
    && AllIndicesOk(rs)
  }

  /** The word after the record that starts at `cursor`. */
  function RecordEnd(ws: seq<word>, cursor: nat): nat
    requires cursor < |ws|
  {
    var changes: int := ws[cursor];
    cursor + 1 + 2 * changes
  }

  /**
   * The first complaint of a cursor walk over records `frame .. n` of a stream
   * that must end at word `end`; `limit` bounds the changes of one record.
   */
  function VideoFault(ws: seq<word>, cursor: nat, end: nat, frame: nat, n: nat, limit: nat): Fault
    requires cursor <= end <= |ws| && frame <= n
    decreases n - frame
  {
    if frame == n then
      if cursor == end then Fine else Trailing
    else if cursor == end then Truncated
    else if frame == 0 && ws[cursor] != FRAMEBUFFER_WORDS then NotFull
    else if ws[cursor] > limit then TooMany
    else if RecordEnd(ws, cursor) > end then OutOfBounds
    else if !IndicesOk(PairsAt(ws, cursor + 1, ws[cursor])) then BadIndex
    else VideoFault(ws, RecordEnd(ws, cursor), end, frame + 1, n, limit)
  }

  /** The records a faultless walk passes over. */
  function ParseRecords(ws: seq<word>, cursor: nat, end: nat, frame: nat, n: nat, limit: nat): (rs: seq<Record>)
    requires cursor <= end <= |ws| && frame <= n
    requires VideoFault(ws, cursor, end, frame, n, limit) == Fine
    ensures |rs| == n - frame
    decreases n - frame
  {
    if frame == n then []
    else
      var r := PairsAt(ws, cursor + 1, ws[cursor]);
      [r] + ParseRecords(ws, RecordEnd(ws, cursor), end, frame + 1, n, limit)
  }

  lemma Join<T>(s: seq<T>, i: nat, j: nat, k: nat)
    requires i <= j <= k <= |s|
    ensures s[i..k] == s[i..j] + s[j..k]
  {
  }

  lemma SliceOfSlice<T>(s: seq<T>, lo: nat, hi: nat, i: nat, j: nat)
    requires lo <= hi <= |s| && i <= j <= hi - lo
    ensures s[lo..hi][i..j] == s[lo + i..lo + j]
  {
    var part, whole := s[lo..hi][i..j], s[lo + i..lo + j];
    assert |part| == |whole|;
    assert forall k :: 0 <= k < |part| ==> part[k] == s[lo..hi][i + k] == s[lo + (i + k)] == whole[k];
    assert part == whole;
  }

  /** The words of the record at the cursor. */
  lemma RecordWordsAt(ws: seq<word>, cursor: nat)
    requires cursor < |ws| && RecordEnd(ws, cursor) <= |ws|
    ensures ws[cursor..RecordEnd(ws, cursor)] == RecordWords(PairsAt(ws, cursor + 1, ws[cursor]))
  {
    FlattenPairsAt(ws, cursor + 1, ws[cursor]);
    Join(ws, cursor, cursor + 1, RecordEnd(ws, cursor));
    assert ws[cursor..cursor + 1] == [ws[cursor]];
  }

  /** A faultless walk has read exactly the serialization of what it parsed. */
  lemma {:induction false} ParsedIsSerialized(ws: seq<word>, cursor: nat, end: nat, frame: nat, n: nat, limit: nat)
    requires cursor <= end <= |ws| && frame <= n
    requires VideoFault(ws, cursor, end, frame, n, limit) == Fine
    ensures var rs := ParseRecords(ws, cursor, end, frame, n, limit);
      ws[cursor..end] == VideoWords(rs) && RecordsOk(rs, frame, limit)
    decreases n - frame
  {
    if frame < n {
      var next := RecordEnd(ws, cursor);
      ParsedIsSerialized(ws, next, end, frame + 1, n, limit);
      var rs := ParseRecords(ws, cursor, end, frame, n, limit);
      assert rs[1..] == ParseRecords(ws, next, end, frame + 1, n, limit);
      RecordWordsAt(ws, cursor);
      Join(ws, cursor, next, end);
    }
  }

  /** Reading one more record at the cursor extends the stream read so far by that record. */
  lemma RecordRead(ws: seq<word>, start: nat, cursor: nat, rs: seq<Record>)
    requires start <= cursor < |ws| && RecordEnd(ws, cursor) <= |ws|
    requires ws[start..cursor] == VideoWords(rs)
    ensures ws[start..RecordEnd(ws, cursor)] == VideoWords(rs + [PairsAt(ws, cursor + 1, ws[cursor])])
  {
    var r := PairsAt(ws, cursor + 1, ws[cursor]);
    VideoAppend(rs, [r]);
    VideoOfOne(r);
    RecordWordsAt(ws, cursor);
    Join(ws, start, cursor, RecordEnd(ws, cursor));
  }

  /** What stands at the cursor of a serialized stream: its first record, then the rest. */
  lemma FirstRecordAt(ws: seq<word>, cursor: nat, end: nat, rs: seq<Record>)
    requires cursor <= end <= |ws| && rs != []
    requires ws[cursor..end] == VideoWords(rs)
    ensures cursor < end && ws[cursor] == |rs[0]| && RecordEnd(ws, cursor) <= end
    ensures PairsAt(ws, cursor + 1, ws[cursor]) == rs[0]
    ensures ws[RecordEnd(ws, cursor)..end] == VideoWords(rs[1..])
  {
    var r := rs[0];
    var v := ws[cursor..end];
    assert v == RecordWords(r) + VideoWords(rs[1..]);
    assert v[0] == |r| && v[1..1 + 2 * |r|] == Flatten(r) && v[1 + 2 * |r|..] == VideoWords(rs[1..]);
    assert v[0] == ws[cursor];
    SliceOfSlice(ws, cursor, end, 1, 1 + 2 * |r|);
    PairsAtFlatten(ws, cursor + 1, r);
    SliceOfSlice(ws, cursor, end, 1 + 2 * |r|, end - cursor);
  }

  lemma RecordsSplit(rs: seq<Record>, frame: nat, limit: nat)
    requires rs != [] && RecordsOk(rs, frame, limit)
    ensures IndicesOk(rs[0]) && |rs[0]| <= limit && (frame == 0 ==> |rs[0]| == FRAMEBUFFER_WORDS)
    ensures RecordsOk(rs[1..], frame + 1, limit)
  {
  }

  /** A serialized stream of acceptable records is walked without a fault and parsed to those records. */
  lemma {:induction false} SerializedIsParsed(ws: seq<word>, cursor: nat, end: nat, frame: nat, limit: nat, rs: seq<Record>)
    requires cursor <= end <= |ws|
    requires ws[cursor..end] == VideoWords(rs) && RecordsOk(rs, frame, limit)
    ensures VideoFault(ws, cursor, end, frame, frame + |rs|, limit) == Fine
    ensures ParseRecords(ws, cursor, end, frame, frame + |rs|, limit) == rs
    decreases |rs|
  {
    if rs != [] {
      FirstRecordAt(ws, cursor, end, rs);
      RecordsSplit(rs, frame, limit);
      SerializedIsParsed(ws, RecordEnd(ws, cursor), end, frame + 1, limit, rs[1..]);
    }
  }

  // ----- which fault is found -----

  /** The word index of change `j` of the record at `cursor`. */
  function IndexAt(ws: seq<word>, cursor: nat, j: nat): word
    requires cursor + 1 + 2 * j < |ws|
  {
    ws[cursor + 1 + 2 * j]
  }

  /** Record `k` of `n`, at word `cursor`, has this fault and none of those looked for before it. */
  predicate Faulty(ws: seq<word>, cursor: nat, end: nat, k: nat, n: nat, limit: nat, fault: Fault)
    requires cursor <= end <= |ws|
  {
    match fault
    case Fine => false
    case Trailing => k == n && cursor < end
    case Truncated => k < n && cursor == end
    case NotFull => k < n && cursor < end && k == 0 && ws[cursor] != 96
    case TooMany => k < n && cursor < end && (k == 0 ==> ws[cursor] == 96) && ws[cursor] > limit
    case OutOfBounds =>
      k < n && cursor < end && (k == 0 ==> ws[cursor] == 96) && ws[cursor] <= limit && cursor + 1 + 2 * (ws[cursor] as int) > end
    case BadIndex =>
      && k < n && cursor < end && (k == 0 ==> ws[cursor] == 96) && ws[cursor] <= limit
      && cursor + 1 + 2 * (ws[cursor] as int) <= end
      && exists j: nat :: j < ws[cursor] && IndexAt(ws, cursor, j) >= 96
  }

  /** The words from `start` to `cursor` are the records `rs`, each of them good. */
  ghost predicate GoodUpTo(ws: seq<word>, start: nat, cursor: nat, limit: nat, rs: seq<Record>) {
    && start <= cursor <= |ws| && cursor == start + |VideoWords(rs)|
    && ws[start..cursor] == VideoWords(rs) && RecordsOk(rs, 0, limit)
  }

  /** Behind good records from word `start` on comes the first fault. */
  ghost predicate FirstFault(ws: seq<word>, start: nat, end: nat, n: nat, limit: nat, rs: seq<Record>, fault: Fault)
    requires start <= end <= |ws|
  {
    var cursor := start + |VideoWords(rs)|;
    |rs| <= n && cursor <= end && GoodUpTo(ws, start, cursor, limit, rs) && Faulty(ws, cursor, end, |rs|, n, limit, fault)
  }

  /** Good records from `cursor` to `stop`: the walk passes the first, and the rest follow it. */
  lemma OneSkipped(ws: seq<word>, cursor: nat, stop: nat, end: nat, frame: nat, n: nat, limit: nat, rs: seq<Record>) returns (next: nat)
    requires cursor <= stop <= end <= |ws| && rs != [] && frame < n
    requires ws[cursor..stop] == VideoWords(rs) && RecordsOk(rs, frame, limit)
    ensures next <= stop && ws[next..stop] == VideoWords(rs[1..]) && RecordsOk(rs[1..], frame + 1, limit)
    ensures VideoFault(ws, cursor, end, frame, n, limit) == VideoFault(ws, next, end, frame + 1, n, limit)
  {
    FirstRecordAt(ws, cursor, stop, rs);
    RecordsSplit(rs, frame, limit);
    next := RecordEnd(ws, cursor);
  }

  /** The walk skips good records. */
  lemma {:induction false} GoodSkipped(ws: seq<word>, cursor: nat, stop: nat, end: nat, frame: nat, n: nat, limit: nat, rs: seq<Record>)
    requires cursor <= stop <= end <= |ws| && frame + |rs| <= n
    requires ws[cursor..stop] == VideoWords(rs) && RecordsOk(rs, frame, limit)
    ensures VideoFault(ws, cursor, end, frame, n, limit) == VideoFault(ws, stop, end, frame + |rs|, n, limit)
    decreases |rs|
  {
    if rs == [] {
      assert |ws[cursor..stop]| == stop - cursor;
    } else {
      var next := OneSkipped(ws, cursor, stop, end, frame, n, limit, rs);
      GoodSkipped(ws, next, stop, end, frame + 1, n, limit, rs[1..]);
    }
  }

  lemma IndexBeyond(ws: seq<word>, cursor: nat)
    requires cursor < |ws| && RecordEnd(ws, cursor) <= |ws|
    ensures IndicesOk(PairsAt(ws, cursor + 1, ws[cursor]))
       <==> forall j: nat :: j < ws[cursor] ==> IndexAt(ws, cursor, j) < 96
  {
    var ps := PairsAt(ws, cursor + 1, ws[cursor]);
    assert forall j: nat :: j < |ps| ==> ps[j].key == IndexAt(ws, cursor, j);
    if forall j: nat :: j < ws[cursor] ==> IndexAt(ws, cursor, j) < 96 {
      forall j | 0 <= j < |ps| ensures 0 <= ps[j].key < FRAMEBUFFER_WORDS {
        assert ps[j].key == IndexAt(ws, cursor, j);
      }
    }
  }

  /** At the record where the walk stops, its complaint is the fault. */
  lemma StopsAtFault(ws: seq<word>, cursor: nat, end: nat, k: nat, n: nat, limit: nat, fault: Fault)
    requires cursor <= end <= |ws| && k <= n && Faulty(ws, cursor, end, k, n, limit, fault)
    ensures VideoFault(ws, cursor, end, k, n, limit) == fault
  {
    if fault == BadIndex {
      IndexBeyond(ws, cursor);
    }
  }

  /** Nothing is wrong with the record at the cursor. */
  predicate RecordGood(ws: seq<word>, cursor: nat, end: nat, k: nat, limit: nat)
    requires cursor <= end <= |ws|
  {
    && cursor < end && (k == 0 ==> ws[cursor] == FRAMEBUFFER_WORDS) && ws[cursor] <= limit
    && RecordEnd(ws, cursor) <= end && IndicesOk(PairsAt(ws, cursor + 1, ws[cursor]))
  }

  lemma GoodOneMore(ws: seq<word>, start: nat, cursor: nat, end: nat, limit: nat, rs: seq<Record>)
    requires cursor <= end <= |ws| && GoodUpTo(ws, start, cursor, limit, rs) && RecordGood(ws, cursor, end, |rs|, limit)
    ensures GoodUpTo(ws, start, RecordEnd(ws, cursor), limit, rs + [PairsAt(ws, cursor + 1, ws[cursor])])
  {
    var r := PairsAt(ws, cursor + 1, ws[cursor]);
    RecordRead(ws, start, cursor, rs);
    VideoAppend(rs, [r]);
    VideoOfOne(r);
  }

  /** The walk goes on at a good record and complains of any other. */
  lemma GoesOnOrFaulty(ws: seq<word>, cursor: nat, end: nat, k: nat, n: nat, limit: nat)
    requires cursor <= end <= |ws| && k <= n
    ensures k < n && RecordGood(ws, cursor, end, k, limit) ==>
      VideoFault(ws, cursor, end, k, n, limit) == VideoFault(ws, RecordEnd(ws, cursor), end, k + 1, n, limit)
    ensures !(k < n && RecordGood(ws, cursor, end, k, limit)) ==>
      var fault := VideoFault(ws, cursor, end, k, n, limit);
      fault == Fine || Faulty(ws, cursor, end, k, n, limit, fault)
  {
    if k < n && cursor < end && RecordEnd(ws, cursor) <= end {
      IndexBeyond(ws, cursor);
    }
  }

  /** A walk that complains has passed good records and stands at the first that is not. */
  lemma {:induction false} FaultFound(ws: seq<word>, start: nat, cursor: nat, end: nat, n: nat, limit: nat, before: seq<Record>)
    returns (rs: seq<Record>)
    requires |before| <= n && cursor <= end <= |ws| && GoodUpTo(ws, start, cursor, limit, before)
    requires VideoFault(ws, cursor, end, |before|, n, limit) != Fine
    ensures FirstFault(ws, start, end, n, limit, rs, VideoFault(ws, cursor, end, |before|, n, limit))
    decreases n - |before|
  {
    rs := before;
    GoesOnOrFaulty(ws, cursor, end, |before|, n, limit);
    if |before| < n && RecordGood(ws, cursor, end, |before|, limit) {
      GoodOneMore(ws, start, cursor, end, limit, before);
      rs := FaultFound(ws, start, RecordEnd(ws, cursor), end, n, limit, before + [PairsAt(ws, cursor + 1, ws[cursor])]);
    }
  }

  /** The complaint is that of the first record that is not as it must be, and there is one exactly then. */
  lemma FaultIff(ws: seq<word>, start: nat, end: nat, n: nat, limit: nat, fault: Fault)
    requires start <= end <= |ws| && fault != Fine
    ensures VideoFault(ws, start, end, 0, n, limit) == fault <==> exists rs :: FirstFault(ws, start, end, n, limit, rs, fault)
  {
    if VideoFault(ws, start, end, 0, n, limit) == fault {
      assert ws[start..start] == [];
      var rs := FaultFound(ws, start, start, end, n, limit, []);
    }
    if rs :| FirstFault(ws, start, end, n, limit, rs, fault) {
      GoodSkipped(ws, start, start + |VideoWords(rs)|, end, 0, n, limit, rs);
      StopsAtFault(ws, start + |VideoWords(rs)|, end, |rs|, n, limit, fault);
    }
  }

  // ----- what the records mean -----

  /** The framebuffer after the changes of one record, applied in order. */
  function Apply(fb: Frame, r: seq<Pair>): Frame
    requires IndicesOk(r)
  {
    if r == [] then fb
    else
      var last := r[|r| - 1];
      Apply(fb, r[..|r| - 1])[last.key := last.value]
  }

  /** The framebuffer after a whole list of records. */
  function Playback(fb: Frame, rs: seq<Record>): Frame
    requires AllIndicesOk(rs)
  {
    if rs == [] then fb else Apply(Playback(fb, rs[..|rs| - 1]), rs[|rs| - 1])
  }

  /** The frames shown one after the other, starting from framebuffer `fb`. */
  function Frames(fb: Frame, rs: seq<Record>): (fs: seq<Frame>)
    requires AllIndicesOk(rs)
    ensures |fs| == |rs|
  {
    seq(|rs|, k requires 0 <= k < |rs| => Playback(fb, rs[..k + 1]))
  }

  /** Some change of `r` writes bitmap word `i`. */
  predicate Writes(r: seq<Pair>, i: nat) {
    exists j :: 0 <= j < |r| && r[j].key == i
  }

  predicate Covers(r: seq<Pair>) {
    forall i :: 0 <= i < FRAMEBUFFER_WORDS ==> Writes(r, i)
  }

  /** `r` leads every framebuffer to the same picture. */
  ghost predicate Forgets(r: seq<Pair>)
    requires IndicesOk(r)
  {
    forall fb: Frame, other: Frame :: Apply(fb, r) == Apply(other, r)
  }

  lemma {:induction false} ApplyUnwritten(fb: Frame, r: seq<Pair>, i: nat)
    requires IndicesOk(r) && i < FRAMEBUFFER_WORDS
    requires !Writes(r, i)
    ensures Apply(fb, r)[i] == fb[i]
  {
    if r != [] {
      ApplyUnwritten(fb, r[..|r| - 1], i);
    }
  }

  /** Of several changes of one word the last counts. */
  lemma {:induction false} ApplyLast(fb: Frame, r: seq<Pair>, j: nat)
    requires IndicesOk(r) && j < |r| && forall k :: j < k < |r| ==> r[k].key != r[j].key
    ensures Apply(fb, r)[r[j].key] == r[j].value
  {
    var last := |r| - 1;
    if j < last {
      assert r[..last][j] == r[j];
      ApplyLast(fb, r[..last], j);
    }
  }

  lemma {:induction false} ApplyWritten(fb: Frame, other: Frame, r: seq<Pair>, j: nat)
    requires IndicesOk(r) && j < |r|
    ensures Apply(fb, r)[r[j].key] == Apply(other, r)[r[j].key]
  {
    var last := |r| - 1;
    if j < last && r[last].key != r[j].key {
      assert r[..last][j] == r[j];
      ApplyWritten(fb, other, r[..last], j);
    }
  }

  /** A record that writes every word forgets the framebuffer it started from, and only such a record does. */
  lemma ApplyForgetsIff(r: seq<Pair>)
    requires IndicesOk(r)
    ensures Covers(r) <==> Forgets(r)
  {
    if Covers(r) {
      forall fb: Frame, other: Frame
        ensures Apply(fb, r) == Apply(other, r)
      {
        forall i | 0 <= i < FRAMEBUFFER_WORDS
          ensures Apply(fb, r)[i] == Apply(other, r)[i]
        {
          assert Writes(r, i);
          var j :| 0 <= j < |r| && r[j].key == i;
          ApplyWritten(fb, other, r, j);
        }
      }
    } else {
      var i :| 0 <= i < FRAMEBUFFER_WORDS && !Writes(r, i);
      var marked: Frame := Blank()[i := 1];
      ApplyUnwritten(Blank(), r, i);
      ApplyUnwritten(marked, r, i);
      assert Apply(Blank(), r) != Apply(marked, r);
    }
  }

  /** Two playbacks of the same records stay equal once their first frames are. */
  lemma {:induction false} PlaybackFromSameStart(fb: Frame, other: Frame, rs: seq<Record>)
    requires AllIndicesOk(rs)
    requires rs != [] && Apply(fb, rs[0]) == Apply(other, rs[0])
    ensures Playback(fb, rs) == Playback(other, rs)
  {
    if |rs| > 1 {
      PlaybackFromSameStart(fb, other, rs[..|rs| - 1]);
    } else {
      assert rs[..0] == [] && Playback(fb, rs[..0]) == fb && Playback(other, rs[..0]) == other;
    }
  }

  /** The first picture settles all of them. */
  lemma FramesFromSameStart(fb: Frame, other: Frame, rs: seq<Record>)
    requires AllIndicesOk(rs)
    requires rs != []
    ensures Frames(fb, rs) == Frames(other, rs) <==> Apply(fb, rs[0]) == Apply(other, rs[0])
  {
    assert rs[..1][..0] == [] && rs[..1][0] == rs[0];
    assert Playback(fb, rs[..1][..0]) == fb && Playback(other, rs[..1][..0]) == other;
    assert Frames(fb, rs)[0] == Apply(fb, rs[0]) && Frames(other, rs)[0] == Apply(other, rs[0]);
    if Apply(fb, rs[0]) == Apply(other, rs[0]) {
      forall k | 0 <= k < |rs|
        ensures Frames(fb, rs)[k] == Frames(other, rs)[k]
      {
        PlaybackFromSameStart(fb, other, rs[..k + 1]);
      }
    }
  }

  /** The pictures shown do not depend on what the screen held before. */
  ghost predicate ScreenIndependent(rs: seq<Record>)
    requires AllIndicesOk(rs)
  {
    forall fb: Frame, other: Frame :: Frames(fb, rs) == Frames(other, rs)
  }

  /** An asset is screen independent exactly when its first record writes every bitmap word. */
  lemma ScreenIndependentIff(rs: seq<Record>)
    requires AllIndicesOk(rs)
    requires rs != []
    ensures Covers(rs[0]) <==> ScreenIndependent(rs)
  {
    ApplyForgetsIff(rs[0]);
    if ScreenIndependent(rs) {
      forall fb: Frame, other: Frame
        ensures Apply(fb, rs[0]) == Apply(other, rs[0])
      {
        assert Frames(fb, rs) == Frames(other, rs);
        FramesFromSameStart(fb, other, rs);
      }
    } else {
      var fb: Frame, other: Frame :| Frames(fb, rs) != Frames(other, rs);
      FramesFromSameStart(fb, other, rs);
    }
  }
}
