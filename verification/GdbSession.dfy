// One stop of the target as the host sees it: bytes come in, acknowledgements
// and packets go out, until an accepted continue ends the stop.
module GdbSession {
  import opened Words
  import opened GdbPacket
  import opened GdbHex
  import opened GdbCommands

  /** One received byte, and whether the UART had flagged an error before it. */
  datatype Rx = Rx(error: bool, ch: byte)

  /** What the stub puts on the line. */
  datatype Token = Ack | Nack | Packet(payload: seq<byte>)

  /** The stub's state within a stop; `last` is the reply a retry sends again. */
  datatype Session = Session(t: Target, v: View, last: seq<byte>)

  datatype Served = Served(next: Session, tokens: seq<Token>, resumed: bool)

  function TokenBytes(token: Token): seq<byte> {
    match token
    case Ack => [PLUS]
    case Nack => [MINUS]
    case Packet(p) => FrameOf(p)
  }

  function Render(tokens: seq<Token>): seq<byte> {
    if tokens == [] then [] else TokenBytes(tokens[0]) + Render(tokens[1..])
  }

  // ----- the session -----

  /** What a parser event leads to. */
  function React(s: Session, event: Event): Served
    requires ValidTarget(s.t)
  {
    match event
    case NoEvent => Served(s, [], false)
    case ChecksumError => Served(s, [Nack], false)
    case Overflow => Served(s, [Nack], false)
    case Retry => Served(s, [Packet(s.last)], false)
    case Ready =>
      match Dispatch(s.t, s.v.payload)
      case (t, Answer(reply)) => Served(Session(t, s.v, reply), [Ack, Packet(reply)], false)
      case (t, Resume) => Served(s.(t := t), [Ack], true)
  }

  /** One turn of the loop in `trap_dispatch`. */
  function Receive(s: Session, rx: Rx): Served
    requires ValidTarget(s.t)
  {
    var (v, event) := Step(if rx.error then INITIAL else s.v, rx.ch);
    var served := React(s.(v := v), event);
    if rx.error then served.(tokens := [Nack] + served.tokens) else served
  }

  /** The loop over a stream of bytes, up to the continue if there is one. */
  function Serve(s: Session, rx: seq<Rx>): (r: Served)
    requires ValidTarget(s.t)
    ensures ValidTarget(r.next.t) && (s.t.x[0] == 0 ==> r.next.t.x[0] == 0)
    decreases |rx|
  {
    if rx == [] then Served(s, [], false)
    else
      var first := Receive(s, rx[0]);
      StaysValidReceiving(s, rx[0]);
      if first.resumed then first
      else
        Prepend(first.tokens, Serve(first.next, rx[1..]))
  }

  lemma StaysValidReceiving(s: Session, rx: Rx)
    requires ValidTarget(s.t)
    ensures ValidTarget(Receive(s, rx).next.t) && (s.t.x[0] == 0 ==> Receive(s, rx).next.t.x[0] == 0)
  {
    StaysValid(s.t, Step(if rx.error then INITIAL else s.v, rx.ch).0.payload);
  }

  /** The state in which a stop begins, and the stop reply an attached host is sent. */
  function Enter(t: Target, attached: bool): Served {
    var stop := t.(stoppedPc := t.mepc, resumeExplicit := false);
    if attached then Served(Session(stop, INITIAL, StopReply(t.mcause)), [Packet(StopReply(t.mcause))], false)
    else Served(Session(stop, INITIAL, []), [], false)
  }

  lemma RenderOne(token: Token)
    ensures Render([token]) == TokenBytes(token)
  {
    assert [token][1..] == [] && TokenBytes(token) + [] == TokenBytes(token);
  }

  /** The renderings of the token lists that one reaction can have. */
  lemma RenderShort(last: seq<byte>, reply: Reply)
    ensures Render([]) == [] && Render([Ack]) == [PLUS] && Render([Nack]) == [MINUS]
    ensures Render([Packet(last)]) == FrameOf(last)
    ensures reply.Answer? ==> Render([Ack, Packet(reply.payload)]) == [PLUS] + FrameOf(reply.payload)
  {
    RenderOne(Ack);
    RenderOne(Nack);
    RenderOne(Packet(last));
    if reply.Answer? {
      RenderOne(Packet(reply.payload));
      assert [Ack, Packet(reply.payload)][1..] == [Packet(reply.payload)];
    }
  }

  lemma Assoc<T>(a: seq<T>, b: seq<T>, c: seq<T>)
    ensures a + b + c == a + (b + c)
  {
  }

  lemma {:induction false} RenderConcat(a: seq<Token>, b: seq<Token>)
    ensures Render(a + b) == Render(a) + Render(b)
  {
    if a == [] {
      assert a + b == b;
    } else {
      RenderConcat(a[1..], b);
      FirstOfConcat(a, b);
      RenderFirst(a);
      RenderFirst(a + b);
      Assoc(TokenBytes(a[0]), Render(a[1..]), Render(b));
    }
  }

  lemma FirstOfConcat(a: seq<Token>, b: seq<Token>)
    requires a != []
    ensures (a + b)[0] == a[0] && (a + b)[1..] == a[1..] + b
  {
  }

  lemma RenderFirst(tokens: seq<Token>)
    requires tokens != []
    ensures Render(tokens) == TokenBytes(tokens[0]) + Render(tokens[1..])
  {
  }

  // ----- everything sent can be received -----

  predicate Deliverable(p: seq<byte>) {
    Clean(p) && |p| <= CAPACITY
  }

  predicate AllDeliverable(tokens: seq<Token>) {
    forall k :: 0 <= k < |tokens| && tokens[k].Packet? ==> Deliverable(tokens[k].payload)
  }

  lemma ReceiveDeliverable(s: Session, rx: Rx)
    requires ValidTarget(s.t) && Deliverable(s.last)
    ensures var r := Receive(s, rx); AllDeliverable(r.tokens) && Deliverable(r.next.last)
  {
    ReplyIsDeliverable(s.t, Step(if rx.error then INITIAL else s.v, rx.ch).0.payload);
  }

  /** Every packet of a stop is at most 512 bytes and needs no escaping. */
  lemma {:induction false} ServeDeliverable(s: Session, rx: seq<Rx>)
    requires ValidTarget(s.t) && Deliverable(s.last)
    ensures var r := Serve(s, rx); AllDeliverable(r.tokens) && Deliverable(r.next.last)
    decreases |rx|
  {
    if rx != [] {
      ReceiveDeliverable(s, rx[0]);
      StaysValidReceiving(s, rx[0]);
      var first := Receive(s, rx[0]);
      if !first.resumed {
        ServeDeliverable(first.next, rx[1..]);
      }
    }
  }

  /** An independent reading of the line: `+`, `-`, or a packet up to its two check digits. */
  function ReadTokens(out: seq<byte>): seq<Token>
    decreases |out|
  {
    if out == [] then []
    else if out[0] == PLUS then [Ack] + ReadTokens(out[1..])
    else if out[0] == MINUS then [Nack] + ReadTokens(out[1..])
    else
      var end := Find(out, 1, HASH);
      if end + 3 <= |out| then [Packet(out[1..end])] + ReadTokens(out[end + 3..]) else []
  }

  lemma FindInFrame(p: seq<byte>, rest: seq<byte>)
    requires Clean(p)
    ensures Find(FrameOf(p) + rest, 1, HASH) == 1 + |p|
  {
    var out := FrameOf(p) + rest;
    assert forall k :: 1 <= k < 1 + |p| ==> out[k] == p[k - 1];
    assert out[1 + |p|] == HASH;
    var i := Find(out, 1, HASH);
    assert i <= 1 + |p|;
  }

  /** The output of a stop is unambiguous: reading the line gives back what the stub chose to send. */
  lemma {:induction false} RenderIsReadable(tokens: seq<Token>)
    requires AllDeliverable(tokens)
    ensures ReadTokens(Render(tokens)) == tokens
  {
    if tokens != [] {
      var rest := Render(tokens[1..]);
      RenderIsReadable(tokens[1..]);
      var out := Render(tokens);
      match tokens[0] {
        case Ack => assert out[1..] == rest;
        case Nack => assert out[1..] == rest;
        case Packet(p) =>
          FindInFrame(p, rest);
          assert out[1..1 + |p|] == p && out[|p| + 4..] == rest;
      }
    }
  }

  // ----- a frame coming in -----

  /** Bytes received without an error. */
  function Clear(bytes: seq<byte>): (rx: seq<Rx>)
    ensures |rx| == |bytes|
  {
    seq(|bytes|, i requires 0 <= i < |bytes| => Rx(false, bytes[i]))
  }

  /** An outcome with more tokens before its own. */
  function Prepend(sent: seq<Token>, served: Served): Served {
    served.(tokens := sent + served.tokens)
  }

  lemma PrependTwice(a: seq<Token>, b: seq<Token>, served: Served)
    ensures Prepend(a, Prepend(b, served)) == Prepend(a + b, served)
  {
    assert a + (b + served.tokens) == a + b + served.tokens;
  }

  /** Serving two streams one after the other. */
  lemma {:induction false} ServeAppend(s: Session, a: seq<Rx>, b: seq<Rx>)
    requires ValidTarget(s.t)
    ensures var first := Serve(s, a);
      Serve(s, a + b) == if first.resumed then first else Prepend(first.tokens, Serve(first.next, b))
    decreases |a|
  {
    if a == [] {
      assert a + b == b && [] + Serve(s, b).tokens == Serve(s, b).tokens;
    } else {
      var one := Receive(s, a[0]);
      StaysValidReceiving(s, a[0]);
      assert (a + b)[0] == a[0] && (a + b)[1..] == a[1..] + b;
      if !one.resumed {
        ServeAppend(one.next, a[1..], b);
        var mid := Serve(one.next, a[1..]);
        if !mid.resumed {
          PrependTwice(one.tokens, mid.tokens, Serve(mid.next, b));
        }
      }
    }
  }

  /** The first `n` bytes of a clean line raise no event. */
  predicate Quiet(v: View, bytes: seq<byte>, n: nat)
    requires n <= |bytes|
  {
    forall i :: 0 < i <= n ==> LastEvent(v, bytes[..i]) == NoEvent
  }

  lemma ServeOne(s: Session, rx: Rx)
    requires ValidTarget(s.t)
    ensures Serve(s, [rx]) == Receive(s, rx)
  {
    StaysValidReceiving(s, rx);
    var one := Receive(s, rx);
    assert [rx][1..] == [] && one.tokens + [] == one.tokens;
  }

  /** Bytes that raise no event only move the parser. */
  lemma {:induction false} ServeQuiet(s: Session, bytes: seq<byte>, n: nat)
    requires ValidTarget(s.t) && n <= |bytes| && Quiet(s.v, bytes, n)
    ensures Serve(s, Clear(bytes[..n])) == Served(s.(v := Run(s.v, bytes[..n])), [], false)
  {
    if n == 0 {
      assert bytes[..0] == [];
    } else {
      ServeQuiet(s, bytes, n - 1);
      var mid := s.(v := Run(s.v, bytes[..n - 1]));
      assert bytes[..n][..n - 1] == bytes[..n - 1];
      assert LastEvent(s.v, bytes[..n]) == NoEvent;
      assert Clear(bytes[..n]) == Clear(bytes[..n - 1]) + [Rx(false, bytes[n - 1])];
      ServeAppend(s, Clear(bytes[..n - 1]), [Rx(false, bytes[n - 1])]);
      ServeOne(mid, Rx(false, bytes[n - 1]));
    }
  }

  /** Adding one byte to a quiet stretch. */
  lemma ServeQuietThen(s: Session, bytes: seq<byte>, n: nat)
    requires ValidTarget(s.t) && n < |bytes| && Quiet(s.v, bytes, n)
    ensures var mid := s.(v := Run(s.v, bytes[..n]));
      Serve(s, Clear(bytes[..n + 1])) == Receive(mid, Rx(false, bytes[n]))
    ensures Step(Run(s.v, bytes[..n]), bytes[n]) == (Run(s.v, bytes[..n + 1]), LastEvent(s.v, bytes[..n + 1]))
  {
    var mid := s.(v := Run(s.v, bytes[..n]));
    ServeQuiet(s, bytes, n);
    assert Clear(bytes[..n + 1]) == Clear(bytes[..n]) + [Rx(false, bytes[n])];
    ServeAppend(s, Clear(bytes[..n]), [Rx(false, bytes[n])]);
    ServeOne(mid, Rx(false, bytes[n]));
    assert [] + Receive(mid, Rx(false, bytes[n])).tokens == Receive(mid, Rx(false, bytes[n])).tokens;
    RunOneMore(s.v, bytes, n);
  }

  lemma RunOneMore(v: View, bytes: seq<byte>, n: nat)
    requires n < |bytes|
    ensures Step(Run(v, bytes[..n]), bytes[n]) == (Run(v, bytes[..n + 1]), LastEvent(v, bytes[..n + 1]))
  {
    assert bytes[..n + 1][..n] == bytes[..n];
  }

  lemma FrameIsQuiet(v: View, p: seq<byte>)
    requires Deliverable(p)
    ensures Quiet(v, FrameOf(p), |FrameOf(p)| - 1)
  {
    forall i | 0 < i <= |FrameOf(p)| - 1
      ensures LastEvent(v, FrameOf(p)[..i]) == NoEvent
    {
      QuietInside(v, [], p, i - 1);
      assert [] + FrameOf(p)[..i] == FrameOf(p)[..i];
    }
  }

  /** A deliverable frame leads, from any parser state, to exactly the reaction to its payload. */
  lemma ServeFrame(s: Session, p: seq<byte>) returns (v: View)
    requires ValidTarget(s.t) && Deliverable(p)
    ensures v.payload == p && v.state == WaitStart
    ensures Serve(s, Clear(FrameOf(p))) == React(s.(v := v), Ready)
  {
    var bytes, n := FrameOf(p), |FrameOf(p)| - 1;
    FrameIsQuiet(s.v, p);
    ServeQuietThen(s, bytes, n);
    FrameIsReady(s.v, p);
    assert bytes[..n + 1] == bytes;
    v := Run(s.v, bytes);
  }

  lemma FrameIsReady(v: View, p: seq<byte>)
    requires Deliverable(p)
    ensures LastEvent(v, FrameOf(p)) == Ready && Run(v, FrameOf(p)).payload == p && Run(v, FrameOf(p)).state == WaitStart
  {
    DeliveredIff(v, [], p);
    assert [] + FrameOf(p) == FrameOf(p);
  }

  /** A clean payload that is too long draws one `-` and nothing else, and the target is untouched. */
  lemma ServeOversize(s: Session, p: seq<byte>) returns (v: View)
    requires ValidTarget(s.t) && Clean(p) && |p| > CAPACITY
    ensures Serve(s, Clear(FrameOf(p))) == Served(s.(v := v), [Nack], false)
  {
    var bytes := FrameOf(p);
    var n := CAPACITY + 1;
    forall i | 0 < i <= |bytes|
      ensures LastEvent(s.v, bytes[..i]) == if i == n + 1 then Overflow else NoEvent
    {
      OversizeEvents(s.v, p, i - 1);
    }
    ServeQuietThen(s, bytes, n);
    var after := s.(v := Run(s.v, bytes[..n + 1]));
    assert Serve(s, Clear(bytes[..n + 1])) == Served(after, [Nack], false);
    var rest := bytes[n + 1..];
    forall i | 0 < i <= |rest|
      ensures LastEvent(after.v, rest[..i]) == NoEvent
    {
      LastEventAppend(s.v, bytes[..n + 1], rest[..i]);
      assert bytes[..n + 1 + i] == bytes[..n + 1] + rest[..i];
      assert LastEvent(s.v, bytes[..n + 1 + i]) == NoEvent;
    }
    ServeQuiet(after, rest, |rest|);
    assert rest[..|rest|] == rest;
    ServeAppend(s, Clear(bytes[..n + 1]), Clear(rest));
    assert Clear(bytes) == Clear(bytes[..n + 1]) + Clear(rest);
    v := Run(after.v, rest);
    assert [Nack] + [] == [Nack];
  }

  lemma OversizeEvents(v: View, p: seq<byte>, i: nat)
    requires Clean(p) && |p| > CAPACITY && i < |FrameOf(p)|
    ensures LastEvent(v, FrameOf(p)[..i + 1]) == if i == CAPACITY + 1 then Overflow else NoEvent
  {
    var u := FrameTail(p)[..i];
    assert FrameOf(p)[..i + 1] == [] + [DOLLAR] + u;
    assert DOLLAR !in FrameTail(p);
    StreamMeaning(v, [], u);
    FirstHashOfTail(p, i);
  }

  /** Bytes behind the `#` that are not the check digits of `p`: a first that is no digit, or two that are wrong. */
  predicate Spoils(p: seq<byte>, tail: seq<byte>) {
    && DOLLAR !in tail
    && if |tail| == 1 then !IsHex(tail[0])
       else |tail| == 2 && IsHex(tail[0]) && !(IsHex(tail[1]) && UnhexByte(tail[0], tail[1]) == Checksum(p))
  }

  /** What follows the `$` of a frame spoiled so. */
  function SpoiledTail(p: seq<byte>, tail: seq<byte>): seq<byte> {
    p + [HASH] + tail
  }

  lemma SpoiledHash(p: seq<byte>, tail: seq<byte>, i: nat)
    requires Deliverable(p) && Spoils(p, tail) && i <= |SpoiledTail(p, tail)|
    ensures DOLLAR !in SpoiledTail(p, tail)[..i]
    ensures FirstHash(SpoiledTail(p, tail)[..i]) == if i <= |p| then i else |p|
    ensures i > |p| ==> SpoiledTail(p, tail)[..i][..|p|] == p
    ensures forall k :: 0 <= k < i - |p| - 1 ==> SpoiledTail(p, tail)[..i][|p| + 1 + k] == tail[k]
  {
    var u := SpoiledTail(p, tail)[..i];
    assert DOLLAR !in SpoiledTail(p, tail);
    if i <= |p| {
      assert u == p[..i];
      FirstHashIs(u, i);
    } else {
      assert u[..|p|] == p && u[|p|] == HASH;
      assert forall k :: 0 <= k < |p| ==> u[k] == p[k];
      FirstHashIs(u, |p|);
    }
  }

  /** The events of a spoiled frame, byte by byte. */
  lemma SpoiledEvents(v: View, p: seq<byte>, tail: seq<byte>, i: nat)
    requires Deliverable(p) && Spoils(p, tail) && i <= |SpoiledTail(p, tail)|
    ensures var bytes := [DOLLAR] + SpoiledTail(p, tail)[..i];
      && LastEvent(v, bytes) == (if i == |p| + 1 + |tail| then ChecksumError else NoEvent)
      && (i == |p| + 1 + |tail| ==> Run(v, bytes).state == WaitStart)
  {
    var u := SpoiledTail(p, tail)[..i];
    assert [] + [DOLLAR] + u == [DOLLAR] + u;
    SpoiledHash(p, tail, i);
    StreamMeaning(v, [], u);
  }

  /** A frame whose check digits are wrong, or are none, draws one `-` and nothing else, and the target is untouched. */
  lemma ServeSpoiled(s: Session, p: seq<byte>, tail: seq<byte>) returns (v: View)
    requires ValidTarget(s.t) && Deliverable(p) && Spoils(p, tail)
    ensures v.state == WaitStart && Serve(s, Clear([DOLLAR] + p + [HASH] + tail)) == Served(s.(v := v), [Nack], false)
  {
    var bytes, n := [DOLLAR] + SpoiledTail(p, tail), |p| + 1 + |tail|;
    assert bytes == [DOLLAR] + p + [HASH] + tail;
    forall i | 0 < i <= n
      ensures LastEvent(s.v, bytes[..i]) == NoEvent
    {
      assert bytes[..i] == [DOLLAR] + SpoiledTail(p, tail)[..i - 1];
      SpoiledEvents(s.v, p, tail, i - 1);
    }
    assert bytes[..n + 1] == bytes && SpoiledTail(p, tail)[..n] == SpoiledTail(p, tail);
    SpoiledEvents(s.v, p, tail, n);
    ServeQuietThen(s, bytes, n);
    v := Run(s.v, bytes);
  }

  /** After a receive error the byte is taken as at the start of the line, whatever had been collected before it. */
  lemma ErrorForgets(s: Session, ch: byte)
    requires ValidTarget(s.t)
    ensures Receive(s, Rx(true, ch)) == Prepend([Nack], Receive(s.(v := INITIAL), Rx(false, ch)))
  {
  }

  // ----- acknowledgements -----

  /** How many acknowledgements, refusals and packets a token list holds. */
  datatype Tally = Tally(acks: nat, nacks: nat, packets: nat)

  function TallyOf(tokens: seq<Token>): Tally {
    if tokens == [] then Tally(0, 0, 0)
    else
      var rest := TallyOf(tokens[1..]);
      match tokens[0]
      case Ack => rest.(acks := rest.acks + 1)
      case Nack => rest.(nacks := rest.nacks + 1)
      case Packet(_) => rest.(packets := rest.packets + 1)
  }

  lemma {:induction false} TallyOfConcat(a: seq<Token>, b: seq<Token>)
    ensures var x, y := TallyOf(a), TallyOf(b);
      TallyOf(a + b) == Tally(x.acks + y.acks, x.nacks + y.nacks, x.packets + y.packets)
  {
    if a == [] {
      assert a + b == b;
    } else {
      TallyOfConcat(a[1..], b);
      assert (a + b)[1..] == a[1..] + b;
    }
  }

  /** What happened on the line: frames completed, frames spoiled, retries asked for, and receive errors. */
  datatype Traffic = Traffic(ready: nat, spoiled: nat, retries: nat, errors: nat)

  function Plus(a: Traffic, b: Traffic): Traffic {
    Traffic(a.ready + b.ready, a.spoiled + b.spoiled, a.retries + b.retries, a.errors + b.errors)
  }

  /** The traffic of one byte: what the parser made of it, and whether it arrived with an error. */
  function OneByte(event: Event, error: bool): Traffic {
    Traffic(if event == Ready then 1 else 0,
            if event == ChecksumError || event == Overflow then 1 else 0,
            if event == Retry then 1 else 0,
            if error then 1 else 0)
  }

  /** The traffic of one received byte for a parser in state `v`. */
  function TrafficAt(v: View, rx: Rx): Traffic {
    OneByte(Step(if rx.error then INITIAL else v, rx.ch).1, rx.error)
  }

  /** The traffic a parser in state `v` makes of the bytes. */
  function TrafficOf(v: View, rx: seq<Rx>): Traffic
    decreases |rx|
  {
    if rx == [] then Traffic(0, 0, 0, 0)
    else Plus(TrafficAt(v, rx[0]), TrafficOf(Step(if rx[0].error then INITIAL else v, rx[0].ch).0, rx[1..]))
  }

  /** How many bytes are read before the stop ends. */
  function Used(s: Session, rx: seq<Rx>): (n: nat)
    requires ValidTarget(s.t)
    ensures n <= |rx|
    decreases |rx|
  {
    if rx == [] then 0
    else
      StaysValidReceiving(s, rx[0]);
      if Receive(s, rx[0]).resumed then 1 else 1 + Used(Receive(s, rx[0]).next, rx[1..])
  }

  /** The tokens sent for some traffic: an acknowledgement or refusal for each frame, and the packets due. */
  predicate Accounts(tokens: seq<Token>, e: Traffic, resumed: bool) {
    && e.ready + e.retries >= (if resumed then 1 else 0)
    && TallyOf(tokens) == Tally(e.ready, e.spoiled + e.errors, e.ready + e.retries - if resumed then 1 else 0)
  }

  lemma TallyOfOne(token: Token)
    ensures TallyOf([token]) == match token
                                case Ack => Tally(1, 0, 0)
                                case Nack => Tally(0, 1, 0)
                                case Packet(_) => Tally(0, 0, 1)
  {
    assert [token][1..] == [] && TallyOf([]) == Tally(0, 0, 0);
  }

  lemma AccountsAdd(a: seq<Token>, e: Traffic, b: seq<Token>, f: Traffic, resumed: bool, all: seq<Token>, g: Traffic)
    requires Accounts(a, e, false) && Accounts(b, f, resumed) && all == a + b && g == Plus(e, f)
    ensures Accounts(all, g, resumed)
  {
    TallyOfConcat(a, b);
  }

  lemma ReactTally(s: Session, event: Event)
    requires ValidTarget(s.t)
    ensures Accounts(React(s, event).tokens, OneByte(event, false), React(s, event).resumed)
  {
    TallyOfOne(Ack);
    TallyOfOne(Nack);
    if event == Retry {
      TallyOfOne(Packet(s.last));
    } else if event == Ready && !React(s, event).resumed {
      var packet := React(s, event).tokens[1];
      TallyOfOne(packet);
      TallyOfConcat([Ack], [packet]);
      assert [Ack] + [packet] == React(s, event).tokens;
    }
  }

  lemma ReceiveTally(s: Session, rx: Rx)
    requires ValidTarget(s.t)
    ensures Accounts(Receive(s, rx).tokens, TrafficAt(s.v, rx), Receive(s, rx).resumed)
  {
    var (v, event) := Step(if rx.error then INITIAL else s.v, rx.ch);
    ReactTally(s.(v := v), event);
    if rx.error {
      NackAccounts(React(s.(v := v), event).tokens, event, React(s.(v := v), event).resumed);
    }
  }

  lemma WithError(event: Event)
    ensures Plus(Traffic(0, 0, 0, 1), OneByte(event, false)) == OneByte(event, true)
  {
  }

  lemma LoneNack()
    ensures Accounts([Nack], Traffic(0, 0, 0, 1), false)
  {
    TallyOfOne(Nack);
  }

  /** A receive error adds its `-` in front. */
  lemma NackAccounts(tokens: seq<Token>, event: Event, resumed: bool)
    requires Accounts(tokens, OneByte(event, false), resumed)
    ensures Accounts([Nack] + tokens, OneByte(event, true), resumed)
  {
    LoneNack();
    WithError(event);
    AccountsAdd([Nack], Traffic(0, 0, 0, 1), tokens, OneByte(event, false), resumed, [Nack] + tokens, OneByte(event, true));
  }

  /** The traffic of a first byte and `u` more. */
  lemma TrafficStep(v: View, next: View, rx: seq<Rx>, u: nat)
    requires rx != [] && u <= |rx[1..]| && next == Step(if rx[0].error then INITIAL else v, rx[0].ch).0
    ensures TrafficOf(v, rx[..1 + u]) == Plus(TrafficAt(v, rx[0]), TrafficOf(next, rx[1..][..u]))
  {
    var bytes := rx[..1 + u];
    assert bytes[0] == rx[0] && bytes[1..] == rx[1..][..u];
  }

  lemma TrafficEnd(s: Session, rx: seq<Rx>)
    requires ValidTarget(s.t) && rx != [] && Receive(s, rx[0]).resumed
    ensures TrafficOf(s.v, rx[..Used(s, rx)]) == TrafficAt(s.v, rx[0])
  {
    var bytes := rx[..Used(s, rx)];
    assert bytes == [rx[0]] && bytes[1..] == [];
    assert Plus(TrafficAt(s.v, rx[0]), Traffic(0, 0, 0, 0)) == TrafficAt(s.v, rx[0]);
  }

  /** The tokens of a stream of bytes account for the traffic of the `n` that are read. */
  ghost predicate Tallied(s: Session, rx: seq<Rx>, n: nat)
    requires ValidTarget(s.t)
  {
    n == Used(s, rx) && Accounts(Serve(s, rx).tokens, TrafficOf(s.v, rx[..n]), Serve(s, rx).resumed)
  }

  lemma TallyEnd(s: Session, rx: seq<Rx>)
    requires ValidTarget(s.t) && rx != [] && Receive(s, rx[0]).resumed
    ensures Tallied(s, rx, 1)
  {
    ReceiveTally(s, rx[0]);
    TrafficEnd(s, rx);
  }

  /** A byte that does not end the stop only puts its tokens first. */
  lemma ServeStep(s: Session, rx: seq<Rx>, next: Session)
    requires ValidTarget(s.t) && rx != [] && ValidTarget(next.t)
    requires Receive(s, rx[0]).next == next && !Receive(s, rx[0]).resumed
    ensures Serve(s, rx) == Prepend(Receive(s, rx[0]).tokens, Serve(next, rx[1..]))
  {
  }

  lemma UsedStep(s: Session, rx: seq<Rx>, next: Session)
    requires ValidTarget(s.t) && rx != [] && ValidTarget(next.t)
    requires Receive(s, rx[0]).next == next && !Receive(s, rx[0]).resumed
    ensures Used(s, rx) == 1 + Used(next, rx[1..])
  {
  }

  lemma ReceiveMovesParser(s: Session, rx: Rx)
    requires ValidTarget(s.t)
    ensures Receive(s, rx).next.v == Step(if rx.error then INITIAL else s.v, rx.ch).0
  {
  }

  lemma TallyStep(s: Session, rx: seq<Rx>, next: Session, u: nat)
    requires ValidTarget(s.t) && rx != [] && ValidTarget(next.t)
    requires Receive(s, rx[0]).next == next && !Receive(s, rx[0]).resumed && Tallied(next, rx[1..], u)
    ensures Tallied(s, rx, 1 + u)
  {
    ReceiveTally(s, rx[0]);
    ServeStep(s, rx, next);
    UsedStep(s, rx, next);
    ReceiveMovesParser(s, rx[0]);
    TrafficStep(s.v, next.v, rx, u);
    var more := Serve(next, rx[1..]);
    AccountsAdd(Receive(s, rx[0]).tokens, TrafficAt(s.v, rx[0]), more.tokens, TrafficOf(next.v, rx[1..][..u]), more.resumed,
                Serve(s, rx).tokens, TrafficOf(s.v, rx[..1 + u]));
  }

  /**
   * The discipline of a whole stop, on any line: one `+` for each complete frame,
   * one `-` for each spoiled frame or receive error, and one packet for each
   * complete frame or retry, except for the frame that resumes the target.
   */
  lemma {:induction false} ServeTally(s: Session, rx: seq<Rx>)
    requires ValidTarget(s.t)
    ensures Tallied(s, rx, Used(s, rx))
    decreases |rx|
  {
    if rx != [] {
      StaysValidReceiving(s, rx[0]);
      if Receive(s, rx[0]).resumed {
        TallyEnd(s, rx);
      } else {
        var next := Receive(s, rx[0]).next;
        ServeTally(next, rx[1..]);
        TallyStep(s, rx, next, Used(next, rx[1..]));
      }
    }
  }

  // ----- attaching -----

  /** The byte completes a packet. */
  predicate ReadyAt(v: View, rx: Rx) {
    Step(if rx.error then INITIAL else v, rx.ch).1 == Ready
  }

  /** Some byte that is read in the stop completes a packet. */
  predicate Attaches(s: Session, rx: seq<Rx>)
    requires ValidTarget(s.t)
    decreases |rx|
  {
    if rx == [] then false
    else if ReadyAt(s.v, rx[0]) || Receive(s, rx[0]).resumed then ReadyAt(s.v, rx[0])
    else
      StaysValidReceiving(s, rx[0]);
      Attaches(Receive(s, rx[0]).next, rx[1..])
  }

  /** Only a complete packet resumes. */
  lemma ResumeIsReady(s: Session, rx: Rx)
    requires ValidTarget(s.t) && Receive(s, rx).resumed
    ensures ReadyAt(s.v, rx)
  {
  }

  /** `n` bytes are read, and a packet is completed among them exactly when their traffic has one. */
  ghost predicate AttachTold(s: Session, rx: seq<Rx>, n: nat)
    requires ValidTarget(s.t)
  {
    n == Used(s, rx) && (Attaches(s, rx) <==> TrafficOf(s.v, rx[..n]).ready > 0)
  }

  lemma AttachEnd(s: Session, rx: seq<Rx>)
    requires ValidTarget(s.t) && rx != [] && Receive(s, rx[0]).resumed
    ensures AttachTold(s, rx, 1)
  {
    ResumeIsReady(s, rx[0]);
    TrafficEnd(s, rx);
  }

  lemma AttachesStep(s: Session, rx: seq<Rx>, next: Session)
    requires ValidTarget(s.t) && rx != [] && ValidTarget(next.t)
    requires Receive(s, rx[0]).next == next && !Receive(s, rx[0]).resumed
    ensures Attaches(s, rx) <==> ReadyAt(s.v, rx[0]) || Attaches(next, rx[1..])
  {
  }

  lemma ReadyTraffic(v: View, next: View, rx: seq<Rx>, u: nat)
    requires rx != [] && u <= |rx[1..]| && next == Step(if rx[0].error then INITIAL else v, rx[0].ch).0
    ensures TrafficOf(v, rx[..1 + u]).ready > 0 <==> ReadyAt(v, rx[0]) || TrafficOf(next, rx[1..][..u]).ready > 0
  {
    TrafficStep(v, next, rx, u);
  }

  lemma AttachStep(s: Session, rx: seq<Rx>, next: Session, u: nat)
    requires ValidTarget(s.t) && rx != [] && ValidTarget(next.t)
    requires Receive(s, rx[0]).next == next && !Receive(s, rx[0]).resumed && AttachTold(next, rx[1..], u)
    ensures AttachTold(s, rx, 1 + u)
  {
    UsedStep(s, rx, next);
    ReceiveMovesParser(s, rx[0]);
    AttachesStep(s, rx, next);
    ReadyTraffic(s.v, next.v, rx, u);
  }

  /** A host attaches in a stop exactly when the stop acknowledges a frame. */
  lemma {:induction false} AttachesIff(s: Session, rx: seq<Rx>)
    requires ValidTarget(s.t)
    ensures AttachTold(s, rx, Used(s, rx))
    decreases |rx|
  {
    if rx != [] {
      StaysValidReceiving(s, rx[0]);
      if Receive(s, rx[0]).resumed {
        AttachEnd(s, rx);
      } else {
        var next := Receive(s, rx[0]).next;
        AttachesIff(next, rx[1..]);
        AttachStep(s, rx, next, Used(next, rx[1..]));
      }
    }
  }

  // ----- retries -----

  /** The payload of the last packet in a list, or `none` if there is no packet. */
  function LastPacket(none: seq<byte>, tokens: seq<Token>): seq<byte>
    decreases |tokens|
  {
    if tokens == [] then none
    else LastPacket(if tokens[0].Packet? then tokens[0].payload else none, tokens[1..])
  }

  lemma {:induction false} LastPacketConcat(none: seq<byte>, a: seq<Token>, b: seq<Token>)
    ensures LastPacket(none, a + b) == LastPacket(LastPacket(none, a), b)
    decreases |a|
  {
    if a == [] {
      assert a + b == b;
    } else {
      LastPacketConcat(if a[0].Packet? then a[0].payload else none, a[1..], b);
      assert (a + b)[1..] == a[1..] + b;
    }
  }

  lemma LastPacketOfShort(none: seq<byte>, tokens: seq<Token>)
    requires |tokens| <= 2
    ensures LastPacket(none, tokens)
         == if |tokens| == 2 && tokens[1].Packet? then tokens[1].payload
            else if |tokens| >= 1 && tokens[0].Packet? then tokens[0].payload
            else none
  {
    if |tokens| > 0 {
      var carried := if tokens[0].Packet? then tokens[0].payload else none;
      assert LastPacket(none, tokens) == LastPacket(carried, tokens[1..]);
      if |tokens| == 2 {
        var last := if tokens[1].Packet? then tokens[1].payload else carried;
        assert LastPacket(carried, tokens[1..]) == LastPacket(last, tokens[1..][1..]);
        assert tokens[1..][1..] == [];
      }
    }
  }

  lemma ReceiveKeepsLast(s: Session, rx: Rx)
    requires ValidTarget(s.t)
    ensures Receive(s, rx).next.last == LastPacket(s.last, Receive(s, rx).tokens)
  {
    var (v, event) := Step(if rx.error then INITIAL else s.v, rx.ch);
    LastPacketOfShort(s.last, React(s.(v := v), event).tokens);
    LastPacketConcat(s.last, [Nack], React(s.(v := v), event).tokens);
    LastPacketOfShort(s.last, [Nack]);
  }

  /** What a retry will send is what was last sent. */
  lemma {:induction false} ServeKeepsLast(s: Session, rx: seq<Rx>)
    requires ValidTarget(s.t)
    ensures Serve(s, rx).next.last == LastPacket(s.last, Serve(s, rx).tokens)
    decreases |rx|
  {
    if rx != [] {
      var first := Receive(s, rx[0]);
      StaysValidReceiving(s, rx[0]);
      ReceiveKeepsLast(s, rx[0]);
      if !first.resumed {
        ServeKeepsLast(first.next, rx[1..]);
        LastPacketConcat(s.last, first.tokens, Serve(first.next, rx[1..]).tokens);
      }
    }
  }

  /**
   * A `-` received between packets sends the last packet of the stop again, byte
   * for byte; before any packet was sent in this stop it sends an empty one.
   */
  lemma RetryResends(t: Target, attached: bool, rx: seq<Rx>)
    requires ValidTarget(t)
    ensures ValidTarget(Enter(t, attached).next.t)
    ensures var enter := Enter(t, attached);
      var r := Serve(enter.next, rx);
      r.next.v.state == WaitStart ==>
        Receive(r.next, Rx(false, MINUS)) == Served(r.next, [Packet(LastPacket([], enter.tokens + r.tokens))], false)
  {
    var enter := Enter(t, attached);
    LastPacketOfShort([], enter.tokens);
    ServeKeepsLast(enter.next, rx);
    LastPacketConcat([], enter.tokens, Serve(enter.next, rx).tokens);
  }

  /** What a host is told of a stop before it asks: its signal, if it is attached. */
  function Told(t: Target, attached: bool): seq<Token> {
    if attached then [Packet(SignalText(t.mcause))] else []
  }

  lemma EnterTells(t: Target, attached: bool)
    ensures Enter(t, attached).tokens == Told(t, attached)
    ensures Enter(t, attached).next.last == LastPacket([], Told(t, attached))
    ensures AllDeliverable(Told(t, attached)) && Deliverable(Enter(t, attached).next.last)
  {
    StopReplyIs(t.mcause);
    LiteralsAreClean(t.mcause);
    LastPacketOfShort([], Told(t, attached));
  }

  lemma {:induction false} NoPacketIsLast(none: seq<byte>, tokens: seq<Token>)
    requires forall k :: 0 <= k < |tokens| ==> !tokens[k].Packet?
    ensures LastPacket(none, tokens) == none
    decreases |tokens|
  {
    if tokens != [] {
      NoPacketIsLast(none, tokens[1..]);
    }
  }

  /**
   * What a host reads of a stop: if it is attached, exactly one packet with the
   * signal of the cause, and then the answers to what it sends; if not, the
   * answers alone. The parser begins at the start of the line, and of the target
   * only the notes about this stop are new.
   */
  lemma StopIsTold(t: Target, attached: bool, rx: seq<Rx>)
    requires ValidTarget(t)
    ensures var enter := Enter(t, attached);
      && enter.next.t == t.(stoppedPc := t.mepc, resumeExplicit := false)
      && enter.next.v.state == WaitStart && !enter.resumed
      && ReadTokens(Render(enter.tokens) + Render(Serve(enter.next, rx).tokens))
         == (if attached then [Packet(SignalText(t.mcause))] else []) + Serve(enter.next, rx).tokens
  {
    var enter := Enter(t, attached);
    var r := Serve(enter.next, rx);
    EnterTells(t, attached);
    ServeDeliverable(enter.next, rx);
    RenderConcat(enter.tokens, r.tokens);
    RenderIsReadable(enter.tokens + r.tokens);
  }

  /** A `-` that comes before any packet but the signal is answered with the signal again, or with an empty packet. */
  lemma SignalIsResent(t: Target, attached: bool, rx: seq<Rx>)
    requires ValidTarget(t)
    requires var r := Serve(Enter(t, attached).next, rx);
      r.next.v.state == WaitStart && forall k :: 0 <= k < |r.tokens| ==> !r.tokens[k].Packet?
    ensures var r := Serve(Enter(t, attached).next, rx);
      Receive(r.next, Rx(false, MINUS)) == Served(r.next, [Packet(if attached then SignalText(t.mcause) else [])], false)
  {
    var enter := Enter(t, attached);
    EnterTells(t, attached);
    RetryResends(t, attached, rx);
    LastPacketConcat([], enter.tokens, Serve(enter.next, rx).tokens);
    NoPacketIsLast(LastPacket([], enter.tokens), Serve(enter.next, rx).tokens);
    LastPacketOfShort([], enter.tokens);
  }

  // ----- where a stop ends -----

  /** The target as a stop leaves it standing for `t`: same stop, and the flag still tracks the pc. */
  predicate StandsAt(t: Target, stop: Target) {
    FlagTracksPc(stop) && (stop.mcause, stop.stoppedPc) == (t.mcause, t.stoppedPc)
  }

  /** One byte that does not resume keeps it so; one that resumes lands where its `c` payload says. */
  lemma ReceiveLands(t: Target, s: Session, rx: Rx)
    requires ValidTarget(s.t) && StandsAt(t, s.t)
    ensures var r, p := Receive(s, rx), Step(if rx.error then INITIAL else s.v, rx.ch).0.payload;
      if r.resumed then p != [] && p[0] == 'c' as int && Lands(t, s.t, p, (r.next.t, Resume))
      else StandsAt(t, r.next.t)
  {
    var (v, event) := Step(if rx.error then INITIAL else s.v, rx.ch);
    if event == Ready {
      if Dispatch(s.t, v.payload).1 == Resume {
        ResumeIsContinue(s.t, v.payload);
        ContinueLands(t, s.t, v.payload);
      } else {
        FlagKept(s.t, v.payload);
      }
    }
  }

  /** The session before the byte that ended the stop, and the payload that byte completed. */
  ghost predicate EndedBy(t: Target, s: Session, rx: seq<Rx>, before: Session, p: seq<byte>)
    requires ValidTarget(s.t)
  {
    var n := Used(s, rx);
    && n > 0 && ValidTarget(before.t) && StandsAt(t, before.t)
    && Serve(s, rx[..n - 1]).next == before && !Serve(s, rx[..n - 1]).resumed
    && p == Step(if rx[n - 1].error then INITIAL else before.v, rx[n - 1].ch).0.payload
    && p != [] && p[0] == 'c' as int
    && Lands(t, before.t, p, (Serve(s, rx).next.t, Resume))
  }

  /** Over the bytes of a stop: the flag tracks the pc, and a stop that ends lands where its last payload says. */
  lemma {:induction false} ServeLands(t: Target, s: Session, rx: seq<Rx>) returns (before: Session, p: seq<byte>)
    requires ValidTarget(s.t) && StandsAt(t, s.t)
    ensures if Serve(s, rx).resumed then EndedBy(t, s, rx, before, p) else StandsAt(t, Serve(s, rx).next.t)
    decreases |rx|
  {
    before, p := s, [];
    if rx != [] {
      var first := Receive(s, rx[0]);
      StaysValidReceiving(s, rx[0]);
      ReceiveLands(t, s, rx[0]);
      if first.resumed {
        p := Step(if rx[0].error then INITIAL else s.v, rx[0].ch).0.payload;
        assert rx[..0] == [];
      } else {
        before, p := ServeLands(t, first.next, rx[1..]);
        if Serve(s, rx).resumed {
          EndedLater(t, s, rx, first.next, before, p);
        }
      }
    }
  }

  lemma EndedLater(t: Target, s: Session, rx: seq<Rx>, next: Session, before: Session, p: seq<byte>)
    requires ValidTarget(s.t) && rx != [] && ValidTarget(next.t)
    requires Receive(s, rx[0]).next == next && !Receive(s, rx[0]).resumed
    requires EndedBy(t, next, rx[1..], before, p)
    ensures EndedBy(t, s, rx, before, p)
  {
    UsedStep(s, rx, next);
    ServeStep(s, rx, next);
    var m := Used(next, rx[1..]);
    var init := rx[..m];
    assert init[0] == rx[0] && init[1..] == rx[1..][..m - 1];
    assert rx[m] == rx[1..][m - 1];
  }

  /**
   * A whole stop: until a continue is accepted the flag says whether the host has
   * moved the pc; when it ends, execution resumes where the last payload says.
   */
  lemma StopLands(t: Target, attached: bool, rx: seq<Rx>)
    requires ValidTarget(t)
    ensures ValidTarget(Enter(t, attached).next.t)
    ensures var s := Enter(t, attached).next;
      && s.t.stoppedPc == t.mepc
      && if Serve(s, rx).resumed then exists before, p :: EndedBy(s.t, s, rx, before, p)
         else StandsAt(s.t, Serve(s, rx).next.t)
  {
    var s := Enter(t, attached).next;
    var before, p := ServeLands(s.t, s, rx);
  }
}
