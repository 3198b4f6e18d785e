// The stub of `gdb_stub.c` as it runs: statics, the trap frame and memory
// updated in place, bytes written to the UART one after the other. Each method
// is proved against the functions of GdbCommands and GdbSession.
module GdbStub {
  import opened Words
  import opened GdbPacket
  import opened GdbHex
  import opened GdbCommands
  import opened GdbSession

  const INTERRUPT_BIT: word := 0x8000_0000

  class Stub {
    const parser: PacketParser
    var lastReply: seq<byte>
    var debuggerAttached: bool
    var stoppedPc: word
    var resumePcExplicit: bool

    /** The trap frame. */
    const x: array<word>
    var mepc: word
    var mcause: word

    /** Memory outside the stub's own statics, stack and frame. */
    var mem: Memory

    /** Everything written to the UART. */
    var out: seq<byte>

    ghost predicate Valid()
      reads this, x, parser, parser.buffer
    {
      && x.Length == 32 && parser.Valid()
      && (x as object) !in {parser as object, parser.buffer as object, this as object}
      && forall a :: InWindow(a) ==> a in mem
    }

    ghost function Abs(): (t: Target)
      reads this, x
    {
      Target(x[..], mepc, mcause, mem, stoppedPc, resumePcExplicit)
    }

    ghost function AbsSession(): Session
      requires Valid()
      reads this, x, parser, parser.buffer
    {
      Session(Abs(), parser.Abs(), lastReply)
    }

    /** The statics as the program starts, and the frame and memory it will be handed. */
    constructor (x: array<word>, mem: Memory)
      requires x.Length == 32 && forall a :: InWindow(a) ==> a in mem
      ensures Valid() && this.x == x && this.mem == mem && out == [] && !debuggerAttached
      ensures fresh(parser) && fresh(parser.buffer)
    {
      parser := new PacketParser();
      lastReply, debuggerAttached, stoppedPc, resumePcExplicit := [], false, 0, false;
      this.x, this.mem := x, mem;
      mepc, mcause, out := 0, 0, [];
    }

    // ----- sending -----

    /** `send_packet_bytes`. */
    method SendPacketBytes(payload: seq<byte>)
      modifies `out
      ensures out == old(out) + FrameOf(payload)
    {
      var checksum: nat := 0;
      out := out + [DOLLAR];
      for index := 0 to |payload|
        invariant out == old(out) + [DOLLAR] + payload[..index]
        invariant checksum == Checksum(payload[..index])
      {
        out := out + [payload[index]];
        assert payload[..index + 1] == payload[..index] + [payload[index]];
        ChecksumOfMore(payload[..index], payload[index]);
        checksum := (checksum + payload[index]) % 256;
      }
      assert payload[..|payload|] == payload;
      out := out + [HASH] + [HexDigit(checksum / 16)] + [HexDigit(checksum % 16)];
      assert out == old(out) + FrameOf(payload);
    }

    /** `send_reply_length`: the reply is kept for a retry. */
    method SendReply(payload: seq<byte>)
      modifies `lastReply, `out
      ensures lastReply == payload && out == old(out) + FrameOf(payload)
    {
      lastReply := payload;
      SendPacketBytes(lastReply);
    }

    // ----- registers -----

    /** `encode_registers`. */
    method EncodeRegisters() returns (reply: seq<byte>)
      requires x.Length == 32
      ensures reply == RegistersHex(RegisterList(Abs()))
    {
      reply := [];
      ghost var listed := RegisterList(Abs());
      var encoded := new byte[9];
      assert listed[..0] == [];
      for registerIndex := 0 to 32
        invariant reply == RegistersHex(listed[..registerIndex])
      {
        var value := if registerIndex == 0 then 0 else x[registerIndex];
        EncodeU32Le(encoded, value);
        assert listed[..registerIndex + 1] == listed[..registerIndex] + [value];
        RegistersHexOfMore(listed[..registerIndex], value);
        reply := reply + encoded[..8];
      }
      EncodeU32Le(encoded, mepc);
      assert listed == listed[..32] + [mepc];
      RegistersHexOfMore(listed[..32], mepc);
      reply := reply + encoded[..8];
    }

    /** The decode loop: all registers of a payload, or none. */
    static method DecodeAll(digits: seq<byte>) returns (ok: bool, decoded: seq<word>)
      requires |digits| == 8 * REGISTER_COUNT
      ensures ok == AllHex(digits)
      ensures ok ==> decoded == WordsIn(digits, REGISTER_COUNT)
    {
      decoded := [];
      for registerIndex := 0 to REGISTER_COUNT
        invariant forall k :: 0 <= k < 8 * registerIndex ==> IsHex(digits[k])
        invariant AllHex(digits) ==> decoded == WordsIn(digits, registerIndex)
      {
        var group := digits[8 * registerIndex..8 * registerIndex + 8];
        var one, value := DecodeU32Le(group);
        if !one {
          ghost var k :| 0 <= k < 8 && !IsHex(group[k]);
          assert !IsHex(digits[8 * registerIndex + k]);
          return false, [];
        }
        assert forall k :: 8 * registerIndex <= k < 8 * registerIndex + 8 ==> digits[k] == group[k - 8 * registerIndex];
        decoded := decoded + [value];
      }
      ok := true;
    }

    /** `decode_registers`: everything is decoded before anything is written. */
    method DecodeRegisters(payload: seq<byte>) returns (ok: bool)
      requires x.Length == 32 && |payload| > 0
      modifies `mepc, x
      ensures ok == RegistersOk(payload)
      ensures !ok ==> mepc == old(mepc) && x[..] == old(x[..])
      ensures ok ==>
        var values := DecodedRegisters(payload);
        x[..] == [0] + values[1..32] && mepc == values[32]
    {
      if |payload| != 1 + 8 * REGISTER_COUNT {
        return false;
      }
      var decoded;
      ok, decoded := DecodeAll(payload[1..]);
      if ok {
        WriteRegisterFile(decoded);
      }
    }

    /** The writes of `decode_registers`. */
    method WriteRegisterFile(decoded: seq<word>)
      requires x.Length == 32 && |decoded| == REGISTER_COUNT
      modifies `mepc, x
      ensures x[..] == [0] + decoded[1..32] && mepc == decoded[32]
    {
      for registerIndex := 1 to 32
        invariant forall k :: 1 <= k < registerIndex ==> x[k] == decoded[k]
      {
        x[registerIndex] := decoded[registerIndex];
      }
      x[0] := 0;
      mepc := decoded[32];
      assert x[..] == [0] + decoded[1..32];
    }

    // ----- memory -----

    /** `parse_memory_header`. */
    method ParseHeader(payload: seq<byte>) returns (header: Option<Header>)
      requires payload != []
      ensures header == ParseMemoryHeader(payload)
    {
      var comma := 1;
      while comma < |payload| && payload[comma] != ',' as int
        invariant 1 <= comma <= |payload|
        invariant Find(payload, 1, ',' as int) == Find(payload, comma, ',' as int)
      {
        comma := comma + 1;
      }
      if comma == |payload| {
        return None;
      }
      var end := comma + 1;
      while end < |payload| && payload[end] != ':' as int
        invariant comma + 1 <= end <= |payload|
        invariant Find(payload, comma + 1, ':' as int) == Find(payload, end, ':' as int)
      {
        end := end + 1;
      }
      var addrOk, addr := ParseHexU32(payload[1..comma]);
      if !addrOk {
        return None;
      }
      var lengthOk, length := ParseHexU32(payload[comma + 1..end]);
      if !lengthOk {
        return None;
      }
      return Some(Header(addr, length, end));
    }

    /** `read_memory`, up to the reply. */
    method ReadMemoryReply(payload: seq<byte>) returns (reply: Option<seq<byte>>)
      requires payload != [] && ValidTarget(Abs()) && x.Length == 32
      ensures ReadMemory(Abs(), payload) == match reply case Some(digits) => Answer(digits) case None => Answer(Ascii("E01"))
      ensures reply.Some? <==> ReadRequest(payload).Some?
    {
      var header := ParseHeader(payload);
      if header.None? {
        return None;
      }
      var addr, length := header.value.addr, header.value.length;
      if header.value.separator != |payload| || length > MAX_TRANSFER || !MemoryRangeAllowed(addr, length) {
        return None;
      }
      AllowedIff(addr, length);
      ghost var data := BytesAt(mem, addr, length);
      var digits: seq<byte> := [];
      for index := 0 to length
        invariant digits == HexOf(data[..index])
      {
        assert data[..index + 1][..index] == data[..index];
        var b := mem[addr + index];
        digits := digits + HexByte(b);
      }
      assert data[..length] == data;
      return Some(digits);
    }

    /** `write_memory`, up to the reply: all digits are checked before a byte is written. */
    method WriteMemoryBytes(payload: seq<byte>) returns (ok: bool)
      requires payload != []
      modifies `mem
      requires forall a :: InWindow(a) ==> a in mem
      ensures ok == WriteRequest(payload).Some?
      ensures forall h :: WriteRequest(payload) == Some(h) ==> mem == Patch(old(mem), h.addr, Unhex(payload[h.separator + 1..]))
      ensures !ok ==> mem == old(mem)
      ensures forall a :: InWindow(a) ==> a in mem
    {
      var header := ParseHeader(payload);
      if header.None? {
        return false;
      }
      var addr, length, separator := header.value.addr, header.value.length, header.value.separator;
      if separator == |payload| || length > MAX_TRANSFER || |payload| - separator - 1 != 2 * length
         || !MemoryRangeAllowed(addr, length)
      {
        return false;
      }
      var digits := payload[separator + 1..];
      for index := 0 to 2 * length
        invariant forall k :: 0 <= k < index ==> IsHex(digits[k])
      {
        if HexNibble(digits[index]) < 0 {
          return false;
        }
      }
      assert WriteRequest(payload) == Some(header.value);
      WriteBytes(addr, length, digits);
      ok := true;
    }

    /** The write loop. */
    method WriteBytes(addr: word, length: nat, digits: seq<byte>)
      requires AllHex(digits) && |digits| == 2 * length
      requires forall a :: addr <= a < addr + length ==> a in mem
      modifies `mem
      ensures mem == Patch(old(mem), addr, Unhex(digits))
    {
      ghost var data := Unhex(digits);
      for index := 0 to length
        invariant mem == Patch(old(mem), addr, data[..index])
      {
        UnhexAt(digits, index);
        var high, low := HexNibble(digits[index * 2]), HexNibble(digits[index * 2 + 1]);
        mem := mem[addr + index := 16 * high + low];
        assert data[..index + 1] == data[..index] + [data[index]];
      }
      assert data[..length] == data;
    }

    // ----- continuing -----

    /** `continue_target`. */
    method ContinueTarget(payload: seq<byte>) returns (resumed: bool)
      requires payload != []
      modifies `mepc, `lastReply, `out
      ensures Abs() == Continue(old(Abs()), payload).0
      ensures resumed <==> Continue(old(Abs()), payload).1 == Resume
      ensures Sent(old(lastReply), old(out), Continue(old(Abs()), payload).1)
    {
      if |payload| > 1 {
        var ok, addr := ParseHexU32(payload[1..]);
        if !ok || addr % 4 != 0 || addr >= BRAM_SIZE {
          SendReply(Ascii("E01"));
          return false;
        }
        mepc := addr;
      } else if mcause == CAUSE_BREAKPOINT && !resumePcExplicit {
        mepc := (mepc + 4) % WORD_MODULUS;
      }
      return true;
    }

    /** The reply is on the line and kept; a resume sends nothing. */
    ghost predicate Sent(last: seq<byte>, before: seq<byte>, reply: Reply)
      reads `lastReply, `out
    {
      match reply
      case Answer(p) => lastReply == p && out == before + FrameOf(p)
      case Resume => lastReply == last && out == before
    }

    // ----- dispatching -----

    /** The commands known by their first letter. */
    method RunCommand(payload: seq<byte>) returns (resumed: bool)
      requires x.Length == 32 && ValidTarget(Abs())
      modifies `mepc, `mem, `resumePcExplicit, `lastReply, `out, x
      ensures Abs() == Command(old(Abs()), payload).0
      ensures resumed <==> Command(old(Abs()), payload).1 == Resume
      ensures Sent(old(lastReply), old(out), Command(old(Abs()), payload).1)
    {
      if |payload| == 0 {
        SendReply([]);
      } else if payload[0] == 'G' as int {
        var ok := DecodeRegisters(payload);
        if ok {
          resumePcExplicit := mepc != stoppedPc;
          SendReply(Ascii("OK"));
        } else {
          SendReply(Ascii("E01"));
        }
      } else if payload[0] == 'm' as int {
        var reply := ReadMemoryReply(payload);
        SendReply(if reply.Some? then reply.value else Ascii("E01"));
      } else if payload[0] == 'M' as int {
        var ok := WriteMemoryBytes(payload);
        SendReply(if ok then Ascii("OK") else Ascii("E01"));
      } else if payload[0] == 'c' as int {
        resumed := ContinueTarget(payload);
        return;
      } else {
        SendReply([]);
      }
      resumed := false;
    }

    /** `dispatch_packet` on the payload in the parser's buffer. */
    method DispatchPacket() returns (resumed: bool)
      requires Valid() && ValidTarget(Abs())
      modifies `mepc, `mem, `resumePcExplicit, `lastReply, `out, x
      ensures Abs() == Dispatch(old(Abs()), parser.Abs().payload).0
      ensures resumed <==> Dispatch(old(Abs()), parser.Abs().payload).1 == Resume
      ensures Sent(old(lastReply), old(out), Dispatch(old(Abs()), parser.Abs().payload).1)
    {
      var payload := parser.buffer[..parser.length];
      if TextStartsWith(payload, "qSupported") {
        SendReply(Ascii("PacketSize=200"));
      } else if TextEqual(payload, "vMustReplyEmpty") {
        SendReply([]);
      } else if TextEqual(payload, "Hc0") || TextEqual(payload, "Hg0") || TextEqual(payload, "Hc-1") || TextEqual(payload, "Hg-1") {
        SendReply(Ascii("OK"));
      } else if TextEqual(payload, "qAttached") {
        SendReply(Ascii("1"));
      } else if TextEqual(payload, "?") {
        SendReply(StopReply(mcause));
      } else if TextEqual(payload, "g") {
        var reply := EncodeRegisters();
        SendReply(reply);
      } else {
        resumed := RunCommand(payload);
        return;
      }
      resumed := false;
    }

    // ----- the trap -----

    /** A complete packet: `+`, then the reply. */
    method AnswerPacket() returns (resumed: bool)
      requires Valid()
      modifies `mepc, `mem, `resumePcExplicit, `lastReply, `out, `debuggerAttached, x
      ensures Valid() && debuggerAttached
      ensures var r := Dispatch(old(Abs()), parser.Abs().payload);
        && Abs() == r.0 && (resumed <==> r.1 == Resume)
        && Sent(old(lastReply), old(out) + [PLUS], r.1)
    {
      StaysValid(Abs(), parser.Abs().payload);
      out := out + [PLUS];
      debuggerAttached := true;
      resumed := DispatchPacket();
    }

    /** Acting on a parser event. */
    method ReactTo(event: Event) returns (resumed: bool)
      requires Valid()
      modifies `mepc, `mem, `resumePcExplicit, `lastReply, `out, `debuggerAttached, x
      ensures Valid() && resumed == React(old(AbsSession()), event).resumed
      ensures AbsSession() == React(old(AbsSession()), event).next
      ensures out == old(out) + Render(React(old(AbsSession()), event).tokens)
      ensures debuggerAttached == (old(debuggerAttached) || event == Ready)
    {
      ghost var reply := Dispatch(Abs(), parser.Abs().payload).1;
      RenderShort(lastReply, reply);
      resumed := false;
      match event {
        case Ready =>
          ghost var before := out;
          resumed := AnswerPacket();
          if reply.Answer? {
            Assoc(before, [PLUS], FrameOf(reply.payload));
          }
        case ChecksumError =>
          out := out + [MINUS];
        case Overflow =>
          out := out + [MINUS];
        case Retry =>
          SendPacketBytes(lastReply);
        case NoEvent =>
          assert out + [] == out;
      }
    }

    /** One turn of the loop. */
    method ReceiveByte(rx: Rx) returns (resumed: bool)
      requires Valid()
      modifies this, x, parser, parser.buffer
      ensures Valid() && resumed == Receive(old(AbsSession()), rx).resumed
      ensures AbsSession() == Receive(old(AbsSession()), rx).next
      ensures out == old(out) + Render(Receive(old(AbsSession()), rx).tokens)
      ensures debuggerAttached == (old(debuggerAttached) || ReadyAt(old(AbsSession()).v, rx))
    {
      ghost var s, before := AbsSession(), out;
      if rx.error {
        parser.Init();
        out := out + [MINUS];
      }
      ghost var sent := out;
      var event := parser.Feed(rx.ch);
      ghost var fed := s.(v := Step(if rx.error then INITIAL else s.v, rx.ch).0);
      assert AbsSession() == fed && event == Step(if rx.error then INITIAL else s.v, rx.ch).1;
      resumed := ReactTo(event);
      assert out == sent + Render(React(fed, event).tokens);
      ErrorRendered(before, React(fed, event).tokens);
    }

    /**
     * `trap_dispatch`: a pending interrupt is left alone; otherwise the stop is
     * served until a continue is accepted or, here, the input ends. A host that
     * gets a packet through is attached from then on, and so is sent the stop
     * reply at every later stop.
     */
    method TrapDispatch(rx: seq<Rx>) returns (resumed: bool)
      requires Valid()
      modifies this, x, parser, parser.buffer
      ensures Valid()
      ensures old(mcause) >= INTERRUPT_BIT ==>
        resumed && out == old(out) && Abs() == old(Abs()) && debuggerAttached == old(debuggerAttached)
      ensures old(mcause) < INTERRUPT_BIT ==>
        var enter := Enter(old(Abs()), old(debuggerAttached));
        var served := Serve(enter.next, rx);
        && resumed == served.resumed && AbsSession() == served.next
        && out == old(out) + StopBytes(old(mcause), old(debuggerAttached)) + Render(served.tokens)
        && debuggerAttached == (old(debuggerAttached) || Attaches(enter.next, rx))
    {
      if mcause >= INTERRUPT_BIT {
        return true;
      }
      EnterRendered(Abs(), debuggerAttached);
      ghost var enter := EnterStop();
      resumed := ServeLoop(rx);
    }

    /** What `trap_dispatch` does before its loop. */
    method EnterStop() returns (ghost enter: Served)
      requires Valid()
      modifies this, parser, parser.buffer
      ensures Valid() && enter == Enter(old(Abs()), old(debuggerAttached)) && AbsSession() == enter.next
      ensures out == old(out) + Render(enter.tokens) && x[..] == old(x[..])
      ensures debuggerAttached == old(debuggerAttached)
    {
      enter := Enter(Abs(), debuggerAttached);
      RenderShort(StopReply(mcause), Resume);
      parser.Init();
      lastReply, stoppedPc, resumePcExplicit := [], mepc, false;
      if debuggerAttached {
        SendReply(StopReply(mcause));
      }
    }

    /** The endless loop of `trap_dispatch`, over the bytes that come. */
    method ServeLoop(rx: seq<Rx>) returns (resumed: bool)
      requires Valid()
      modifies this, x, parser, parser.buffer
      ensures Valid() && resumed == Serve(old(AbsSession()), rx).resumed
      ensures AbsSession() == Serve(old(AbsSession()), rx).next
      ensures out == old(out) + Render(Serve(old(AbsSession()), rx).tokens)
      ensures debuggerAttached == (old(debuggerAttached) || Attaches(old(AbsSession()), rx))
    {
      ghost var start, before, attached := AbsSession(), out, debuggerAttached;
      ghost var sent: seq<Token> := [];
      var i := 0;
      assert rx[0..] == rx && before + Render(sent) == before;
      while i < |rx|
        invariant i <= |rx| && Valid() && ValidTarget(AbsSession().t)
        invariant out == before + Render(sent)
        invariant Prepend(sent, Serve(AbsSession(), rx[i..])) == Serve(start, rx)
        invariant (debuggerAttached || Attaches(AbsSession(), rx[i..])) == (attached || Attaches(start, rx))
      {
        ghost var s, first := AbsSession(), Receive(AbsSession(), rx[i]);
        ServeUnrolls(s, rx, i, sent);
        AttachesUnrolls(s, rx, i);
        RenderedMore(before, sent, first.tokens);
        resumed := ReceiveByte(rx[i]);
        sent := sent + first.tokens;
        if resumed {
          return;
        }
        i := i + 1;
      }
      assert rx[i..] == [] && sent + [] == sent;
      resumed := false;
    }
  }

  /** The bytes that tell a host of a stop. */
  function StopBytes(mcause: word, attached: bool): seq<byte> {
    if attached then FrameOf(SignalText(mcause)) else []
  }

  lemma EnterRendered(t: Target, attached: bool)
    ensures Render(Enter(t, attached).tokens) == StopBytes(t.mcause, attached)
  {
    EnterTells(t, attached);
    RenderShort(SignalText(t.mcause), Resume);
  }

  lemma ServeUnrolls(s: Session, rx: seq<Rx>, i: nat, sent: seq<Token>)
    requires ValidTarget(s.t) && i < |rx|
    ensures var first := Receive(s, rx[i]);
      && ValidTarget(first.next.t)
      && (first.resumed ==> Prepend(sent, Serve(s, rx[i..])) == Prepend(sent, first))
      && (!first.resumed ==> Prepend(sent, Serve(s, rx[i..])) == Prepend(sent + first.tokens, Serve(first.next, rx[i + 1..])))
  {
    StaysValidReceiving(s, rx[i]);
    assert rx[i..][0] == rx[i] && rx[i..][1..] == rx[i + 1..];
    var first := Receive(s, rx[i]);
    if !first.resumed {
      PrependTwice(sent, first.tokens, Serve(first.next, rx[i + 1..]));
    }
  }

  lemma RenderedMore(before: seq<byte>, sent: seq<Token>, more: seq<Token>)
    ensures before + Render(sent) + Render(more) == before + Render(sent + more)
  {
    RenderConcat(sent, more);
    Assoc(before, Render(sent), Render(more));
  }

  lemma AttachesUnrolls(s: Session, rx: seq<Rx>, i: nat)
    requires ValidTarget(s.t) && i < |rx|
    ensures var first := Receive(s, rx[i]);
      && ValidTarget(first.next.t)
      && (first.resumed ==> ReadyAt(s.v, rx[i]))
      && (Attaches(s, rx[i..]) <==> ReadyAt(s.v, rx[i]) || (!first.resumed && Attaches(first.next, rx[i + 1..])))
  {
    StaysValidReceiving(s, rx[i]);
    assert rx[i..][0] == rx[i] && rx[i..][1..] == rx[i + 1..];
    if Receive(s, rx[i]).resumed {
      ResumeIsReady(s, rx[i]);
    }
  }

  lemma {:induction false} UnhexAt(digits: seq<byte>, index: nat)
    requires AllHex(digits) && |digits| % 2 == 0 && index < |digits| / 2
    ensures Unhex(digits)[index] == UnhexByte(digits[2 * index], digits[2 * index + 1])
  {
    if index < |digits| / 2 - 1 {
      UnhexAt(digits[..|digits| - 2], index);
    }
  }

  /** The `-` of a receive error goes out first. */
  lemma ErrorRendered(before: seq<byte>, tokens: seq<Token>)
    ensures before + [MINUS] + Render(tokens) == before + Render([Nack] + tokens)
  {
    RenderConcat([Nack], tokens);
    assert Render([Nack]) == [MINUS] by {
      assert [Nack][1..] == [] && Render([]) == [];
    }
    assert before + [MINUS] + Render(tokens) == before + ([MINUS] + Render(tokens));
  }
}
