// The host side, `gdb_stub_probe.py`: a client that sends a packet, waits for
// the acknowledgement and reads the reply, joined by a noise-free line to a stub
// session at the other end.
module RspClient {
  import opened Words
  import opened GdbPacket
  import opened GdbHex
  import opened GdbCommands
  import opened GdbSession

  datatype RspError = Timeout | NoStart | TooLong | ChecksumText | ChecksumWrong | NotAscii | BadAck | ThreeNacks

  datatype Outcome = Success(payload: seq<byte>) | Failure(error: RspError)

  predicate IsAscii(p: seq<byte>) {
    forall i :: 0 <= i < |p| ==> p[i] < 128
  }

  predicate IsSpace(b: byte) {
    b == ' ' as int || 9 <= b <= 13
  }

  /** Python's `int(text, 16)` on two bytes: a sign or white space may stand for a digit. */
  function IntBase16(b0: byte, b1: byte): Option<int> {
    if IsHex(b0) && IsHex(b1) then Some(UnhexByte(b0, b1))
    else if IsHex(b1) && (IsSpace(b0) || b0 == '+' as int) then Some(HexNibble(b1))
    else if IsHex(b1) && b0 == '-' as int then Some(-HexNibble(b1))
    else if IsHex(b0) && IsSpace(b1) then Some(HexNibble(b0))
    else None
  }

  /** What `_read_reply` makes of the bytes that are there: the outcome, how many it reads, and its answer. */
  datatype Reading = Reading(outcome: Outcome, used: nat, answer: seq<byte>)

  function ReadingOf(incoming: seq<byte>): (r: Reading)
    ensures r.used <= |incoming|
  {
    if incoming == [] then Reading(Failure(Timeout), 0, [])
    else if incoming[0] != DOLLAR then Reading(Failure(NoStart), 1, [])
    else
      var end := Find(incoming, 1, HASH);
      var payload := incoming[1..end];
      if |payload| > CAPACITY then Reading(Failure(TooLong), CAPACITY + 2, [MINUS])
      else if end + 3 > |incoming| then Reading(Failure(Timeout), |incoming|, [])
      else
        match IntBase16(incoming[end + 1], incoming[end + 2])
        case None => Reading(Failure(ChecksumText), end + 3, [MINUS])
        case Some(received) =>
          if received != Checksum(payload) then Reading(Failure(ChecksumWrong), end + 3, [MINUS])
          else if IsAscii(payload) then Reading(Success(payload), end + 3, [PLUS])
          else Reading(Failure(NotAscii), end + 3, [PLUS])
  }

  /** A frame on the line is read back as its payload, whatever follows it. */
  lemma ReadsFrame(p: seq<byte>, rest: seq<byte>)
    requires Deliverable(p) && IsAscii(p)
    ensures ReadingOf(FrameOf(p) + rest) == Reading(Success(p), |FrameOf(p)|, [PLUS])
  {
    var incoming := FrameOf(p) + rest;
    FindInFrame(p, rest);
    assert incoming[1..1 + |p|] == p;
    assert incoming[|p| + 2] == HexDigit(Checksum(p) / 16) && incoming[|p| + 3] == HexDigit(Checksum(p) % 16);
  }

  /** The line begins with `$`, the payload `p`, `#` and two more bytes. */
  predicate FramedAs(s: seq<byte>, p: seq<byte>) {
    && HASH !in p && |p| <= CAPACITY
    && |s| >= |p| + 4 && s[0] == DOLLAR && s[1..1 + |p|] == p && s[1 + |p|] == HASH
  }

  /** The number that the two bytes behind the payload make, if they make one, is its checksum. */
  predicate CheckedAs(s: seq<byte>, p: seq<byte>)
    requires FramedAs(s, p)
  {
    IntBase16(s[|p| + 2], s[|p| + 3]) == Some(Checksum(p))
  }

  /** The line begins with `$` and more bytes without a `#` than a payload may have. */
  predicate Overlong(s: seq<byte>) {
    |s| >= CAPACITY + 2 && s[0] == DOLLAR && HASH !in s[1..CAPACITY + 2]
  }

  lemma FramedEnd(s: seq<byte>, p: seq<byte>)
    requires FramedAs(s, p)
    ensures Find(s, 1, HASH) == 1 + |p| && s[1..1 + |p|] == p && !Overlong(s)
  {
    assert forall k :: 1 <= k < 1 + |p| ==> s[k] == p[k - 1];
    FindIs(s, 1, HASH, 1 + |p|);
    if |s| >= CAPACITY + 2 {
      assert s[1..CAPACITY + 2][|p|] == HASH;
    }
  }

  lemma OverlongEnd(s: seq<byte>)
    requires |s| > 0
    ensures Overlong(s) <==> s[0] == DOLLAR && Find(s, 1, HASH) > CAPACITY + 1
  {
    if Overlong(s) {
      assert forall k :: 1 <= k < CAPACITY + 2 ==> s[k] == s[1..CAPACITY + 2][k - 1];
    }
  }

  lemma EndIsFramed(s: seq<byte>)
    requires |s| > 0 && s[0] == DOLLAR && Find(s, 1, HASH) <= CAPACITY + 1 && Find(s, 1, HASH) + 3 <= |s|
    ensures FramedAs(s, s[1..Find(s, 1, HASH)])
  {
  }

  /** How a reading must end whose line holds the frame of `p`. */
  predicate FrameRead(s: seq<byte>, p: seq<byte>, r: Reading)
    requires FramedAs(s, p)
  {
    && r.used == |p| + 4
    && (r.answer == if CheckedAs(s, p) then [PLUS] else [MINUS])
    && (r.outcome == Success(p) <==> CheckedAs(s, p) && IsAscii(p))
    && (r.outcome == Failure(NotAscii) <==> CheckedAs(s, p) && !IsAscii(p))
    && (r.outcome == Failure(ChecksumText) <==> IntBase16(s[|p| + 2], s[|p| + 3]) == None)
    && (r.outcome.Success? ==> r.outcome.payload == p)
  }

  /** And one whose line holds none: too long, or not begun as a frame, or not all there yet. */
  predicate NothingRead(s: seq<byte>, r: Reading) {
    if Overlong(s) then r == Reading(Failure(TooLong), CAPACITY + 2, [MINUS])
    else if s != [] && s[0] != DOLLAR then r == Reading(Failure(NoStart), 1, [])
    else r == Reading(Failure(Timeout), |s|, [])
  }

  /**
   * What is read is there: a reply is returned and acknowledged exactly when the
   * line begins with its frame and its own checksum; a complete frame with
   * another check draws a `-`; and nothing else is ever taken for a reply.
   */
  lemma ReadingIs(s: seq<byte>)
    ensures forall p :: FramedAs(s, p) ==> FrameRead(s, p, ReadingOf(s))
    ensures (forall p :: !FramedAs(s, p)) ==> NothingRead(s, ReadingOf(s))
  {
    forall p | FramedAs(s, p) ensures FrameRead(s, p, ReadingOf(s)) {
      FramedEnd(s, p);
    }
    if s != [] {
      OverlongEnd(s);
      if s[0] == DOLLAR && Find(s, 1, HASH) <= CAPACITY + 1 && Find(s, 1, HASH) + 3 <= |s| {
        EndIsFramed(s);
      }
    }
  }

  /** So a reply is returned exactly for its frame. */
  lemma ReturnedIff(s: seq<byte>, p: seq<byte>)
    ensures ReadingOf(s).outcome == Success(p) <==> FramedAs(s, p) && CheckedAs(s, p) && IsAscii(p)
    ensures ReadingOf(s).answer == [PLUS] <==> exists q :: FramedAs(s, q) && CheckedAs(s, q)
    ensures ReadingOf(s).answer == [MINUS] <==> Overlong(s) || exists q :: FramedAs(s, q) && !CheckedAs(s, q)
  {
    ReadingIs(s);
    if exists q :: FramedAs(s, q) {
      var q :| FramedAs(s, q);
      FramedEnd(s, q);
      assert FrameRead(s, q, ReadingOf(s));
      forall r | FramedAs(s, r) ensures r == q {
        FramedEnd(s, r);
      }
    }
  }

  /** Every reply of the stub is ASCII. */
  lemma RepliesAreAscii(t: Target, p: seq<byte>)
    requires ValidTarget(t)
    ensures var r := Dispatch(t, p).1; r.Answer? ==> IsAscii(r.payload)
  {
    HexIsAscii(RegistersHex(RegisterList(t)));
    LiteralsAreAscii(t.mcause);
    if IsLetter(p) {
      DispatchIsCommand(t, p);
      if p[0] == 'm' as int && ReadRequest(p).Some? {
        var h := ReadRequest(p).value;
        AllowedIff(h.addr, h.length);
        HexIsAscii(HexOf(BytesAt(t.mem, h.addr, h.length)));
      }
    }
  }

  lemma HexIsAscii(s: seq<byte>)
    requires AllHex(s)
    ensures IsAscii(s)
  {
  }

  lemma LiteralsAreAscii(mcause: word)
    ensures IsAscii(Ascii("PacketSize=200")) && IsAscii(Ascii("OK")) && IsAscii(Ascii("E01")) && IsAscii(Ascii("1"))
    ensures IsAscii(StopReply(mcause))
  {
  }

  /** `s`, `n` times. */
  function Times(s: seq<byte>, n: nat): seq<byte> {
    if n == 0 then [] else Times(s, n - 1) + s
  }

  lemma OnceMore(before: seq<byte>, s: seq<byte>, n: nat)
    ensures before + Times(s, n) + s == before + Times(s, n + 1)
  {
  }

  class Client {
    /** Bytes that have arrived and not been read. */
    var incoming: seq<byte>
    /** The stub at the other end, and whether its target is running again. */
    var peer: Session
    var running: bool
    /** Everything written so far. */
    ghost var sent: seq<byte>

    ghost predicate Valid()
      reads this
    {
      ValidTarget(peer.t)
    }

    constructor (peer: Session)
      requires ValidTarget(peer.t)
      ensures Valid() && this.peer == peer && !running && incoming == [] && sent == []
    {
      this.peer, running, incoming, sent := peer, false, [], [];
    }

    /** `_write`: the bytes reach the stub, unless the target runs, and its answer comes back. */
    method Write(data: seq<byte>)
      requires Valid()
      modifies this
      ensures Valid() && sent == old(sent) + data
      ensures old(running) ==> running && peer == old(peer) && incoming == old(incoming)
      ensures !old(running) ==>
        var served := Serve(old(peer), Clear(data));
        peer == served.next && running == served.resumed && incoming == old(incoming) + Render(served.tokens)
    {
      sent := sent + data;
      if !running {
        var served := Serve(peer, Clear(data));
        peer, running, incoming := served.next, served.resumed, incoming + Render(served.tokens);
      }
    }

    /** `_read_byte`: nothing there is a timeout. */
    method ReadByte() returns (b: Option<byte>)
      modifies `incoming
      ensures old(incoming) == [] ==> b == None && incoming == []
      ensures old(incoming) != [] ==> b == Some(old(incoming)[0]) && incoming == old(incoming)[1..]
    {
      if incoming == [] {
        return None;
      }
      b, incoming := Some(incoming[0]), incoming[1..];
    }

    /** The payload loop of `_read_reply`. */
    method ReadPayload() returns (payload: seq<byte>, error: Option<RspError>)
      requires Valid()
      modifies `incoming
      ensures ReadPayloadDone(old(incoming), incoming, payload, error)
    {
      ghost var all := incoming;
      ghost var n := 0;
      payload := [];
      while true
        invariant n <= |all| && n <= CAPACITY && payload == all[..n] && incoming == all[n..]
        invariant HASH !in payload
        decreases |incoming|
      {
        var value := ReadByte();
        if value.None? {
          return payload, Some(Timeout);
        }
        if value.value == HASH {
          return payload, None;
        }
        if |payload| >= CAPACITY {
          return payload, Some(TooLong);
        }
        payload := payload + [value.value];
        n := n + 1;
      }
    }

    /** Where the payload loop stops: at the `#`, at the end of the input, or one byte past a full payload. */
    ghost predicate ReadPayloadDone(before: seq<byte>, after: seq<byte>, payload: seq<byte>, error: Option<RspError>) {
      var end := Find(before, 0, HASH);
      if end > CAPACITY then error == Some(TooLong) && after == before[CAPACITY + 1..]
      else if end == |before| then error == Some(Timeout) && after == []
      else error == None && payload == before[..end] && after == before[end + 1..]
    }

    /** `_read_reply`: the reading of what has arrived, and its answer sent to the stub. */
    method ReadReply() returns (outcome: Outcome)
      requires Valid()
      modifies this
      ensures Valid() && outcome == ReadingOf(old(incoming)).outcome
      ensures sent == old(sent) + ReadingOf(old(incoming)).answer
      ensures var r := ReadingOf(old(incoming));
        if old(running) || r.answer == [] then
          peer == old(peer) && running == old(running) && incoming == old(incoming)[r.used..]
        else
          var served := Serve(old(peer), Clear(r.answer));
          peer == served.next && running == served.resumed
          && incoming == old(incoming)[r.used..] + Render(served.tokens)
    {
      ghost var all := incoming;
      var start := ReadByte();
      if start.None? {
        return Failure(Timeout);
      }
      if start.value != DOLLAR {
        return Failure(NoStart);
      }
      var payload, error := ReadPayload();
      AfterDollar(all);
      if error == Some(TooLong) {
        Write([MINUS]);
        return Failure(TooLong);
      }
      if error.Some? {
        return Failure(error.value);
      }
      var high := ReadByte();
      var low := ReadByte();
      if high.None? || low.None? {
        return Failure(Timeout);
      }
      var received := IntBase16(high.value, low.value);
      if received.None? {
        Write([MINUS]);
        return Failure(ChecksumText);
      }
      if received.value != Checksum(payload) {
        Write([MINUS]);
        return Failure(ChecksumWrong);
      }
      Write([PLUS]);
      outcome := if IsAscii(payload) then Success(payload) else Failure(NotAscii);
    }

    /** Nothing is on the line and the target is stopped. */
    ghost predicate Quiet()
      reads this
    {
      incoming == [] && !running
    }

    /** Send the packet and wait for the acknowledgement. */
    method SendRequest(payload: seq<byte>) returns (ack: Option<byte>)
      requires Valid()
      modifies this
      ensures Valid() && sent == old(sent) + FrameOf(payload)
      ensures old(Quiet()) && Clean(payload) ==> Acknowledged(old(peer.t), payload, ack, peer, running, incoming)
    {
      ghost var served := Serve(peer, Clear(FrameOf(payload)));
      if Quiet() && Clean(payload) {
        RequestAcknowledged(peer, payload);
        assert incoming + Render(served.tokens) == Render(served.tokens);
      }
      Write(FrameOf(payload));
      ack := ReadByte();
    }

    /** Read a reply; one that is alone on the line is returned as it was sent, and leaves the line quiet. */
    method ReadLoneReply() returns (outcome: Outcome)
      requires Valid()
      modifies this
      ensures Valid() && outcome == ReadingOf(old(incoming)).outcome && sent == old(sent) + ReadingOf(old(incoming)).answer
      ensures forall reply ::
        !old(running) && old(incoming) == FrameOf(reply) && Deliverable(reply) && IsAscii(reply) && old(peer.v.state) == WaitStart ==>
          outcome == Success(reply) && Quiet() && peer == old(peer)
      ensures old(running) && old(incoming) == [] ==> outcome == Failure(Timeout) && running && incoming == [] && peer == old(peer)
    {
      forall reply | !running && incoming == FrameOf(reply) && Deliverable(reply) && IsAscii(reply) && peer.v.state == WaitStart
        ensures ReadingOf(incoming) == Reading(Success(reply), |incoming|, [PLUS])
        ensures Serve(peer, Clear([PLUS])) == Served(peer, [], false)
      {
        ReplyRead(peer, reply);
      }
      outcome := ReadReply();
    }

    /**
     * `exchange`: send, wait for `+`, read the reply; a `-` sends again, three
     * times in all. On a quiet line with a stopped target, an ordinary request
     * returns exactly the reply the stub chose and leaves the line quiet; one
     * that resumes the target gets no reply; one that is too long is refused
     * three times. The target has carried the request out once, or not at all.
     * On any line the request is sent at most three times, and exactly three
     * times before it is given up; what is written behind it answers the reply.
     */
    method Exchange(payload: seq<byte>) returns (outcome: Outcome, ghost attempts: nat)
      requires Valid()
      modifies this
      ensures Valid() && 1 <= attempts <= 3 && (outcome == Failure(ThreeNacks) ==> attempts == 3)
      ensures outcome in {Failure(ThreeNacks), Failure(BadAck)} ==> sent == old(sent) + Times(FrameOf(payload), attempts)
      ensures outcome.Success? ==> sent == old(sent) + Times(FrameOf(payload), attempts) + [PLUS]
      ensures old(Quiet()) && Clean(payload) ==> Exchanged(old(peer.t), payload, outcome)
    {
      ghost var quiet := Quiet() && Clean(payload);
      var attempt := 0;
      attempts := 0;
      while attempt < 3
        invariant attempt <= 3 && Valid() && attempts == attempt
        invariant sent == old(sent) + Times(FrameOf(payload), attempts)
        invariant quiet ==> Quiet() && peer.t == old(peer.t)
        invariant quiet && attempt > 0 ==> |payload| > CAPACITY
      {
        var ack := SendRequest(payload);
        attempts := attempts + 1;
        OnceMore(old(sent), FrameOf(payload), attempt);
        if ack.None? {
          return Failure(Timeout), attempts;
        }
        if ack.value != MINUS {
          if ack.value != PLUS {
            return Failure(BadAck), attempts;
          }
          ghost var line := incoming;
          outcome := ReadLoneReply();
          ReadingIs(line);
          return;
        }
        attempt := attempt + 1;
      }
      return Failure(ThreeNacks), attempts;
    }

    /** How a clean request on a quiet line ends. */
    ghost predicate Exchanged(t: Target, payload: seq<byte>, outcome: Outcome)
      requires ValidTarget(t)
      reads this
    {
      && incoming == []
      && if |payload| > CAPACITY then outcome == Failure(ThreeNacks) && !running && peer.t == t
         else
           && peer.t == Dispatch(t, payload).0 && peer.v.state == WaitStart
           && match Dispatch(t, payload).1
              case Answer(reply) => outcome == Success(reply) && !running
              case Resume => outcome == Failure(Timeout) && running
    }
  }

  /** What a clean request on a quiet line has led to when its acknowledgement is read. */
  ghost predicate Acknowledged(t: Target, payload: seq<byte>, ack: Option<byte>, peer: Session, running: bool, incoming: seq<byte>)
    requires ValidTarget(t)
  {
    if |payload| > CAPACITY then ack == Some(MINUS) && !running && incoming == [] && peer.t == t
    else
      && ack == Some(PLUS) && peer.t == Dispatch(t, payload).0 && peer.v.state == WaitStart
      && match Dispatch(t, payload).1
         case Answer(reply) => !running && incoming == FrameOf(reply) && Deliverable(reply) && IsAscii(reply)
         case Resume => running && incoming == []
  }

  lemma RequestAcknowledged(s: Session, p: seq<byte>)
    requires ValidTarget(s.t) && Clean(p)
    ensures var served := Serve(s, Clear(FrameOf(p)));
      var line := Render(served.tokens);
      line != [] && Acknowledged(s.t, p, Some(line[0]), served.next, served.resumed, line[1..])
  {
    RequestSent(s, p);
    if |p| <= CAPACITY && Dispatch(s.t, p).1.Answer? {
      var reply := Dispatch(s.t, p).1.payload;
      assert ([PLUS] + FrameOf(reply))[1..] == FrameOf(reply);
    }
  }

  /** What a request leaves on a quiet line. */
  lemma RequestSent(s: Session, p: seq<byte>)
    requires ValidTarget(s.t) && Clean(p)
    ensures var served := Serve(s, Clear(FrameOf(p)));
      if |p| > CAPACITY then
        served.next.t == s.t && !served.resumed && Render(served.tokens) == [MINUS]
      else
        && served.next.t == Dispatch(s.t, p).0 && served.next.v.state == WaitStart
        && match Dispatch(s.t, p).1
           case Answer(reply) => !served.resumed && Render(served.tokens) == [PLUS] + FrameOf(reply) && Deliverable(reply) && IsAscii(reply)
           case Resume => served.resumed && Render(served.tokens) == [PLUS]
  {
    RenderShort([], Dispatch(s.t, p).1);
    if |p| > CAPACITY {
      var v := ServeOversize(s, p);
    } else {
      var v := ServeFrame(s, p);
      ReplyIsDeliverable(s.t, p);
      RepliesAreAscii(s.t, p);
    }
  }

  /** A deliverable reply alone on the line is read whole, and the `+` that answers it draws nothing. */
  lemma ReplyRead(s: Session, reply: seq<byte>)
    requires ValidTarget(s.t) && s.v.state == WaitStart && Deliverable(reply) && IsAscii(reply)
    ensures ReadingOf(FrameOf(reply)) == Reading(Success(reply), |FrameOf(reply)|, [PLUS])
    ensures Serve(s, Clear([PLUS])) == Served(s, [], false)
    ensures FrameOf(reply)[|FrameOf(reply)|..] + Render([]) == []
    ensures forall rest: seq<byte> :: ([PLUS] + rest)[1..] == rest
  {
    ReadsFrame(reply, []);
    assert FrameOf(reply) + [] == FrameOf(reply);
    assert Clear([PLUS]) == [Rx(false, PLUS)];
    ServeOne(s, Rx(false, PLUS));
  }

  /** Reading on after the `$`. */
  lemma AfterDollar(all: seq<byte>)
    requires all != [] && all[0] == DOLLAR
    ensures Find(all, 1, HASH) == 1 + Find(all[1..], 0, HASH)
    ensures forall k :: 0 <= k <= |all| - 1 ==> all[1..][k..] == all[1 + k..]
    ensures forall k :: 0 <= k <= |all| - 1 ==> all[1..][..k] == all[1..1 + k]
  {
    FindShifted(all, 0);
  }

  lemma {:induction false} FindShifted(all: seq<byte>, k: nat)
    requires all != [] && k <= |all| - 1
    ensures Find(all, 1 + k, HASH) == 1 + Find(all[1..], k, HASH)
    decreases |all| - k
  {
    if k < |all| - 1 && all[1 + k] != HASH {
      FindShifted(all, k + 1);
    }
  }
}
