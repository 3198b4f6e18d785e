// The byte-fed packet parser of `gdb_packet.c` and the language it accepts: the
// frames `$payload#hl` of the GDB Remote Serial Protocol (Debugging with GDB,
// appendix E.1).
module GdbPacket {
  import opened Words

  const CAPACITY := 512
  const DOLLAR: byte := '$' as int
  const HASH: byte := '#' as int
  const PLUS: byte := '+' as int
  const MINUS: byte := '-' as int

  datatype State = WaitStart | Payload | ChecksumHigh | ChecksumLow | Discard

  datatype Event = NoEvent | Ready | ChecksumError | Overflow | Retry

  // ----- hexadecimal digits -----

  /** `gdb_hex_nibble`: the value of a digit of either case, -1 for any other byte. */
  function HexNibble(ch: byte): (n: int)
    ensures -1 <= n < 16
  {
    if '0' as int <= ch <= '9' as int then ch - '0' as int
    else if 'a' as int <= ch <= 'f' as int then ch - 'a' as int + 10
    else if 'A' as int <= ch <= 'F' as int then ch - 'A' as int + 10
    else -1
  }

  predicate IsHex(ch: byte) {
    HexNibble(ch) >= 0
  }

  /** `hex_digits[n]`. */
  function HexDigit(n: nat): (ch: byte)
    requires n < 16
    ensures HexNibble(ch) == n && ch != DOLLAR && ch != HASH
  {
    if n < 10 then '0' as int + n else 'a' as int + n - 10
  }

  /** The lower-case form of a digit. */
  function LowerDigit(ch: byte): byte
    requires IsHex(ch)
  {
    HexDigit(HexNibble(ch))
  }

  function Sum(p: seq<byte>): nat {
    if p == [] then 0 else Sum(p[..|p| - 1]) + p[|p| - 1]
  }

  /** The checksum that goes with a payload. */
  function Checksum(p: seq<byte>): byte {
    Sum(p) % 256
  }

  // ----- one byte at a time -----

  /** The parser's fields, `payload` being the part of the buffer below `length`. */
  datatype View = View(state: State, payload: seq<byte>, checksum: nat, received: nat)

  const INITIAL := View(WaitStart, [], 0, 0)
  const STARTED := View(Payload, [], 0, 0)

  function Step(v: View, b: byte): (r: (View, Event)) {
    if b == DOLLAR then (STARTED, NoEvent)
    else match v.state
      case WaitStart => (v, if b == MINUS then Retry else NoEvent)
      case Payload =>
        if b == HASH then (v.(state := ChecksumHigh), NoEvent)
        else if |v.payload| >= CAPACITY then (v.(state := Discard), Overflow)
        else (v.(payload := v.payload + [b], checksum := (v.checksum + b) % 256), NoEvent)
      case ChecksumHigh =>
        if !IsHex(b) then (v.(state := WaitStart), ChecksumError)
        else (v.(state := ChecksumLow, received := 16 * HexNibble(b)), NoEvent)
      case ChecksumLow =>
        if !IsHex(b) then (v.(state := WaitStart), ChecksumError)
        else
          var received := v.received + HexNibble(b);
          (v.(state := WaitStart, received := received), if received != v.checksum then ChecksumError else Ready)
      case Discard => (v, NoEvent)
  }

  /** The parser after a whole stream. */
  function Run(v: View, bytes: seq<byte>): View {
    if bytes == [] then v else Step(Run(v, bytes[..|bytes| - 1]), bytes[|bytes| - 1]).0
  }

  /** The event of the last byte of a stream. */
  function LastEvent(v: View, bytes: seq<byte>): Event
    requires bytes != []
  {
    Step(Run(v, bytes[..|bytes| - 1]), bytes[|bytes| - 1]).1
  }

  class PacketParser {
    const buffer: array<byte>
    var length: word
    var checksum: word
    var receivedChecksum: word
    var state: State

    ghost predicate Valid()
      reads this, buffer
    {
      && buffer.Length == CAPACITY + 1 && length <= CAPACITY && checksum < 256
      && (state == ChecksumLow ==> receivedChecksum < 256 && receivedChecksum % 16 == 0)
      // A complete payload is NUL-terminated.
      && (state == ChecksumHigh || state == ChecksumLow ==> buffer[length] == 0)
    }

    ghost function Abs(): View
      requires Valid()
      reads this, buffer
    {
      View(state, buffer[..length], checksum, receivedChecksum)
    }

    constructor ()
      ensures Valid() && Abs() == INITIAL && fresh(buffer)
    {
      buffer := new byte[CAPACITY + 1](_ => 0);
      length, checksum, receivedChecksum, state := 0, 0, 0, WaitStart;
    }

    /** `gdb_packet_parser_init`. */
    method Init()
      requires Valid()
      modifies this, buffer
      ensures Valid() && Abs() == INITIAL
    {
      buffer[0] := 0;
      length, checksum, receivedChecksum, state := 0, 0, 0, WaitStart;
    }

    /** `gdb_packet_feed`: one step, and a ready payload is NUL-terminated. */
    method Feed(b: byte) returns (event: Event)
      requires Valid()
      modifies this, buffer
      ensures Valid()
      ensures Abs() == Step(old(Abs()), b).0 && event == Step(old(Abs()), b).1
      ensures event == Ready ==> buffer[length] == 0
    {
      if b == DOLLAR {
        buffer[0] := 0;
        length, checksum, receivedChecksum, state := 0, 0, 0, Payload;
        return NoEvent;
      }
      match state {
        case WaitStart =>
          event := if b == MINUS then Retry else NoEvent;
        case Payload =>
          if b == HASH {
            buffer[length] := 0;
            state := ChecksumHigh;
            return NoEvent;
          }
          if length >= CAPACITY {
            state := Discard;
            return Overflow;
          }
          buffer[length] := b;
          length := length + 1;
          checksum := (checksum + b) % 256;
          event := NoEvent;
        case ChecksumHigh =>
          var nibble := HexNibble(b);
          if nibble < 0 {
            state := WaitStart;
            return ChecksumError;
          }
          receivedChecksum := nibble * 16;
          state := ChecksumLow;
          event := NoEvent;
        case ChecksumLow =>
          var nibble := HexNibble(b);
          state := WaitStart;
          if nibble < 0 {
            return ChecksumError;
          }
          // The low four bits of the received checksum are 0, so `|=` adds.
          receivedChecksum := receivedChecksum + nibble;
          event := if receivedChecksum != checksum then ChecksumError else Ready;
        case Discard =>
          event := NoEvent;
      }
    }
  }

  // ----- the language -----

  /** The position of the first `#`, or the length without one. */
  function FirstHash(u: seq<byte>): (k: nat)
    ensures k <= |u| && (forall i :: 0 <= i < k ==> u[i] != HASH) && (k < |u| ==> u[k] == HASH)
  {
    if u == [] then 0
    else
      var init := u[..|u| - 1];
      var k := FirstHash(init);
      assert forall i :: 0 <= i < |init| ==> u[i] == init[i];
      if k < |init| || u[|u| - 1] == HASH then k else k + 1
  }

  /** The payload collected after a `$` and the bytes `u`: up to the `#`, or as much as fits. */
  function Collected(u: seq<byte>): seq<byte> {
    Room(u, FirstHash(u))
  }

  /** The state after a `$` and the bytes `u`, without stepping through them. */
  function StateAfter(u: seq<byte>): State {
    var k := FirstHash(u);
    if k > CAPACITY then Discard
    else if k == |u| then Payload
    else if |u| == k + 1 then ChecksumHigh
    else if |u| == k + 2 && IsHex(u[k + 1]) then ChecksumLow
    else WaitStart
  }

  /** The event of the last byte of `u` after a `$`, without stepping. */
  function EventOf(u: seq<byte>): Event
    requires u != []
  {
    var k := FirstHash(u);
    var last := u[|u| - 1];
    if k > CAPACITY then (if |u| == CAPACITY + 1 then Overflow else NoEvent)
    else if |u| <= k + 1 then NoEvent
    else if |u| == k + 2 then (if IsHex(u[k + 1]) then NoEvent else ChecksumError)
    else if |u| == k + 3 && IsHex(u[k + 1]) then
      if IsHex(u[k + 2]) && 16 * HexNibble(u[k + 1]) + HexNibble(u[k + 2]) == Checksum(u[..k]) then Ready else ChecksumError
    else if last == MINUS then Retry else NoEvent
  }

  /** `u` is `p#hl` for a payload that fits and its checksum in hex digits of either case. */
  predicate IsFrame(u: seq<byte>, p: seq<byte>) {
    && HASH !in p && |p| <= CAPACITY
    && |u| == |p| + 3 && u[..|p|] == p && u[|p|] == HASH
    && IsHex(u[|p| + 1]) && IsHex(u[|p| + 2])
    && 16 * HexNibble(u[|p| + 1]) + HexNibble(u[|p| + 2]) == Checksum(p)
  }

  /** The parser holds what a `$` and then `u` mean. */
  ghost predicate Holds(v: View, u: seq<byte>) {
    && v.state == StateAfter(u)
    && v.payload == Collected(u)
    && v.checksum == Checksum(v.payload)
    && (v.state == ChecksumLow ==> v.received == 16 * HexNibble(u[FirstHash(u) + 1]))
  }

  /** How one more byte moves the first `#`. */
  lemma HashOfMore(u: seq<byte>, b: byte)
    ensures FirstHash(u + [b]) == if FirstHash(u) < |u| || b == HASH then FirstHash(u) else |u| + 1
  {
    assert (u + [b])[..|u|] == u;
  }

  lemma ChecksumOfMore(p: seq<byte>, b: byte)
    ensures Checksum(p + [b]) == (Checksum(p) + b) % 256
  {
    assert (p + [b])[..|p|] == p;
  }

  /** The first `#` is the only position with that description. */
  lemma FirstHashIs(u: seq<byte>, k: nat)
    requires k <= |u| && (forall i :: 0 <= i < k ==> u[i] != HASH) && (k < |u| ==> u[k] == HASH)
    ensures FirstHash(u) == k
  {
  }

  lemma PrefixOfMore(u: seq<byte>, b: byte, k: nat)
    requires k <= |u|
    ensures (u + [b])[..k] == u[..k]
  {
  }

  /** The first `k` bytes, or as many as fit. */
  function Room(u: seq<byte>, k: nat): seq<byte>
    requires k <= |u|
  {
    if k > CAPACITY then u[..CAPACITY] else u[..k]
  }

  lemma RoomForMore(u: seq<byte>, b: byte, k: nat)
    requires k <= |u|
    ensures Room(u + [b], k) == Room(u, k)
    ensures k == |u| ==> Room(u + [b], k + 1) == if k < CAPACITY then Room(u, k) + [b] else Room(u, k)
  {
    PrefixOfMore(u, b, if k < CAPACITY then k else CAPACITY);
    if k == |u| < CAPACITY {
      assert u[..k] == u && (u + [b])[..k + 1] == u + [b];
    }
  }

  /** What is collected only grows while no `#` has come and there is room. */
  lemma CollectedOfMore(u: seq<byte>, b: byte)
    ensures Collected(u + [b]) == if FirstHash(u) == |u| < CAPACITY && b != HASH then Collected(u) + [b] else Collected(u)
  {
    HashOfMore(u, b);
    RoomForMore(u, b, FirstHash(u));
  }

  /** One byte other than `$` keeps the meaning, and its event is the one the language gives it. */
  lemma StepHolds(v: View, u: seq<byte>, b: byte)
    requires Holds(v, u) && b != DOLLAR
    ensures Holds(Step(v, b).0, u + [b]) && Step(v, b).1 == EventOf(u + [b])
  {
    HashOfMore(u, b);
    CollectedOfMore(u, b);
    if v.state == Payload {
      ChecksumOfMore(v.payload, b);
    } else if v.state == ChecksumLow {
      assert (u + [b])[..FirstHash(u)] == u[..FirstHash(u)];
    }
  }

  lemma {:induction false} RunAppend(v: View, bytes: seq<byte>, more: seq<byte>)
    ensures Run(v, bytes + more) == Run(Run(v, bytes), more)
  {
    if more == [] {
      assert bytes + more == bytes;
    } else {
      var init := more[..|more| - 1];
      assert (bytes + more)[..|bytes + more| - 1] == bytes + init;
      RunAppend(v, bytes, init);
    }
  }

  lemma {:induction false} RunHolds(v: View, u: seq<byte>)
    requires DOLLAR !in u
    ensures Holds(Run(STARTED, u), u)
  {
    if u != [] {
      var init, last := u[..|u| - 1], u[|u| - 1];
      assert last in u;
      RunHolds(v, init);
      StepHolds(Run(STARTED, init), init, last);
      assert init + [last] == u;
    }
  }

  /** Whatever came before, after the last `$` the parser's state, buffer and events depend only on what followed it. */
  lemma StreamMeaning(v: View, before: seq<byte>, u: seq<byte>)
    requires DOLLAR !in u
    ensures Holds(Run(v, before + [DOLLAR] + u), u)
    ensures LastEvent(v, before + [DOLLAR] + u) == if u == [] then NoEvent else EventOf(u)
  {
    var start := before + [DOLLAR];
    DollarStarts(v, before);
    RunAppend(v, start, u);
    RunHolds(v, u);
    if u == [] {
      assert start + u == start;
    } else {
      StreamEvent(v, start, u);
    }
  }

  lemma DollarStarts(v: View, before: seq<byte>)
    ensures Run(v, before + [DOLLAR]) == STARTED && LastEvent(v, before + [DOLLAR]) == NoEvent
  {
    assert (before + [DOLLAR])[..|before|] == before;
  }

  lemma LastEventAppend(v: View, bytes: seq<byte>, more: seq<byte>)
    requires more != []
    ensures LastEvent(v, bytes + more) == LastEvent(Run(v, bytes), more)
  {
    var init := more[..|more| - 1];
    assert (bytes + more)[..|bytes + more| - 1] == bytes + init;
    RunAppend(v, bytes, init);
  }

  lemma StreamEvent(v: View, start: seq<byte>, u: seq<byte>)
    requires Run(v, start) == STARTED && u != [] && DOLLAR !in u
    ensures LastEvent(v, start + u) == EventOf(u)
  {
    LastEventAppend(v, start, u);
    TailEvent(u);
  }

  lemma TailEvent(u: seq<byte>)
    requires u != [] && DOLLAR !in u
    ensures LastEvent(STARTED, u) == EventOf(u)
  {
    var init, last := u[..|u| - 1], u[|u| - 1];
    assert last in u;
    RunHolds(STARTED, init);
    StepHolds(Run(STARTED, init), init, last);
    assert init + [last] == u;
  }

  /**
   * READY comes exactly at the end of a frame: the bytes after the last `$` are
   * `p#hl` with the right checksum, and then the buffer holds exactly `p`.
   */
  lemma ReadyIff(v: View, before: seq<byte>, u: seq<byte>)
    requires DOLLAR !in u
    ensures var bytes := before + [DOLLAR] + u;
      && (LastEvent(v, bytes) == Ready <==> exists p :: IsFrame(u, p))
      && (forall p :: IsFrame(u, p) ==> Run(v, bytes).payload == p)
  {
    StreamMeaning(v, before, u);
    forall p | IsFrame(u, p)
      ensures FirstHash(u) == |p| && u[..|p|] == p
    {
      assert forall i :: 0 <= i < |p| ==> u[i] == p[i];
      FirstHashIs(u, |p|);
    }
    if LastEvent(v, before + [DOLLAR] + u) == Ready {
      assert IsFrame(u, u[..FirstHash(u)]);
    }
  }

  // ----- how often a packet can end -----

  predicate Ends(e: Event) {
    e == Ready || e == ChecksumError || e == Overflow
  }

  predicate InPacket(v: View) {
    v.state == Payload || v.state == ChecksumHigh || v.state == ChecksumLow
  }

  /** The READY, CHECKSUM_ERROR and OVERFLOW events of a stream. */
  function EndCount(v: View, bytes: seq<byte>): nat {
    if bytes == [] then 0
    else EndCount(v, bytes[..|bytes| - 1]) + if Ends(LastEvent(v, bytes)) then 1 else 0
  }

  function Starts(bytes: seq<byte>): nat {
    if bytes == [] then 0
    else Starts(bytes[..|bytes| - 1]) + if bytes[|bytes| - 1] == DOLLAR then 1 else 0
  }

  /** Each `$` yields at most one end of a packet, and an open packet has not ended yet. */
  lemma {:induction false} EndsBoundedByStarts(v: View, bytes: seq<byte>)
    ensures EndCount(v, bytes) + (if InPacket(Run(v, bytes)) then 1 else 0)
         <= Starts(bytes) + if InPacket(v) then 1 else 0
  {
    if bytes != [] {
      EndsBoundedByStarts(v, bytes[..|bytes| - 1]);
    }
  }

  // ----- sending -----

  /** What `send_packet_bytes` and the host's `encode_packet` put on the line. */
  function FrameOf(p: seq<byte>): seq<byte> {
    [DOLLAR] + p + [HASH, HexDigit(Checksum(p) / 16), HexDigit(Checksum(p) % 16)]
  }

  /** The checksum of one byte is the byte. */
  lemma ChecksumOfOne(b: byte)
    ensures Checksum([b]) == b
  {
    assert [b][..0] == [] && Sum([]) == 0;
    assert Sum([b]) == Sum([b][..0]) + b;
  }

  /** Checksums add up modulo 256. */
  lemma ChecksumAdds(p: seq<byte>, q: seq<byte>)
    ensures Checksum(p + q) == (Checksum(p) + Checksum(q)) % 256
  {
    SumAdds(p, q);
    RemaindersAdd(Sum(p), Sum(q));
  }

  lemma RemaindersAdd(x: nat, y: nat)
    ensures (x + y) % 256 == (x % 256 + y % 256) % 256
  {
    var q := x / 256 + y / 256;
    assert x + y == 256 * q + (x % 256 + y % 256);
  }

  lemma {:induction false} SumAdds(p: seq<byte>, q: seq<byte>)
    ensures Sum(p + q) == Sum(p) + Sum(q)
  {
    if q == [] {
      assert p + q == p;
    } else {
      assert (p + q)[..|p + q| - 1] == p + q[..|q| - 1];
      SumAdds(p, q[..|q| - 1]);
    }
  }

  /** The check digits are the checksum, in hex, high digit first. */
  lemma FrameEnds(p: seq<byte>)
    ensures var f := FrameOf(p);
      && f[0] == DOLLAR && f[1..1 + |p|] == p && f[1 + |p|] == HASH && |f| == |p| + 4
      && IsHex(f[|p| + 2]) && IsHex(f[|p| + 3]) && 16 * HexNibble(f[|p| + 2]) + HexNibble(f[|p| + 3]) == Checksum(p)
  {
  }

  /** A payload that can travel unescaped. */
  predicate Clean(p: seq<byte>) {
    DOLLAR !in p && HASH !in p
  }

  /** The bytes of a frame after its `$`. */
  function FrameTail(p: seq<byte>): seq<byte> {
    p + [HASH, HexDigit(Checksum(p) / 16), HexDigit(Checksum(p) % 16)]
  }

  lemma {:induction false} QuietInside(v: View, before: seq<byte>, p: seq<byte>, i: nat)
    requires Clean(p) && |p| <= CAPACITY && i < |FrameOf(p)| - 1
    ensures LastEvent(v, before + FrameOf(p)[..i + 1]) == NoEvent
  {
    var u := FrameTail(p)[..i];
    assert FrameOf(p)[..i + 1] == [DOLLAR] + u;
    assert before + FrameOf(p)[..i + 1] == before + [DOLLAR] + u;
    assert DOLLAR !in FrameTail(p);
    StreamMeaning(v, before, u);
    FirstHashOfTail(p, i);
  }

  lemma FirstHashOfTail(p: seq<byte>, i: nat)
    requires Clean(p) && i <= |FrameTail(p)|
    ensures FirstHash(FrameTail(p)[..i]) == if i <= |p| then i else |p|
  {
    var u := FrameTail(p)[..i];
    if i <= |p| {
      assert u == p[..i];
      assert forall j :: 0 <= j < i ==> u[j] == p[j];
      FirstHashIs(u, i);
    } else {
      assert forall j :: 0 <= j < |p| ==> u[j] == p[j];
      FirstHashIs(u, |p|);
    }
  }

  /**
   * A frame is delivered, whatever the parser was doing before, exactly when its
   * payload needs no escaping and fits the buffer.
   */
  lemma DeliveredIff(v: View, before: seq<byte>, p: seq<byte>)
    ensures var bytes := before + FrameOf(p);
      LastEvent(v, bytes) == Ready && Run(v, bytes).payload == p <==> Clean(p) && |p| <= CAPACITY
  {
    var bytes := before + FrameOf(p);
    if Clean(p) && |p| <= CAPACITY {
      assert bytes == before + [DOLLAR] + FrameTail(p);
      assert IsFrame(FrameTail(p), p);
      ReadyIff(v, before, FrameTail(p));
    } else if LastEvent(v, bytes) == Ready && Run(v, bytes).payload == p {
      DeliveredIsClean(v, before, p);
    }
  }

  /** The bytes after the last `$` of a stream. */
  function LastDollar(bytes: seq<byte>): (j: nat)
    requires DOLLAR in bytes
    ensures j < |bytes| && bytes[j] == DOLLAR && DOLLAR !in bytes[j + 1..]
  {
    var n := |bytes| - 1;
    assert bytes == bytes[..n] + [bytes[n]];
    if bytes[n] == DOLLAR then n
    else
      var j := LastDollar(bytes[..n]);
      assert bytes[j + 1..] == bytes[..n][j + 1..] + [bytes[n]];
      j
  }

  lemma DeliveredIsClean(v: View, before: seq<byte>, p: seq<byte>)
    requires LastEvent(v, before + FrameOf(p)) == Ready && Run(v, before + FrameOf(p)).payload == p
    ensures Clean(p) && |p| <= CAPACITY
  {
    var from := if DOLLAR in p then LastDollar(p) + 1 else 0;
    var u := FrameTail(p)[from..];
    var lead := before + FrameOf(p)[..from];
    FromLastDollar(before, p, from);
    ReadyIff(v, lead, u);
    var q :| IsFrame(u, q);
    assert q == p;
    assert |u| == |p| + 3;
  }

  /** A frame cut at its last `$`. */
  lemma FromLastDollar(before: seq<byte>, p: seq<byte>, from: nat)
    requires from <= |p| && DOLLAR !in p[from..] && (from > 0 ==> p[from - 1] == DOLLAR)
    ensures before + FrameOf(p) == before + FrameOf(p)[..from] + [DOLLAR] + FrameTail(p)[from..]
    ensures DOLLAR !in FrameTail(p)[from..]
  {
    TailFrom(p, from);
    var f := FrameOf(p);
    assert f[from] == DOLLAR && f[from + 1..] == FrameTail(p)[from..];
    assert f == f[..from] + [f[from]] + f[from + 1..];
    assert before + f == before + f[..from] + [DOLLAR] + FrameTail(p)[from..];
  }

  lemma TailFrom(p: seq<byte>, from: nat)
    requires from <= |p|
    ensures FrameTail(p)[from..] == p[from..] + [HASH, HexDigit(Checksum(p) / 16), HexDigit(Checksum(p) % 16)]
  {
  }
}
