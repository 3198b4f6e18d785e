// What the debugger commands of `gdb_stub.c` do to the stopped target, as
// functions on values: registers, memory windows and the resume address.
module GdbCommands {
  import opened Words
  import opened GdbPacket
  import opened GdbHex

  const REGISTER_COUNT := 33
  const BRAM_BASE := 0x0000_0000
  const BRAM_SIZE := 0x0001_0000
  const SDRAM_BASE := 0x8000_0000
  const SDRAM_SIZE := 0x0200_0000
  const MAX_TRANSFER := CAPACITY / 2
  const CAUSE_BREAKPOINT: word := 3

  /** Memory as the debugger sees it, byte by byte. */
  type Memory = map<int, byte>

  /** The trap frame and the statics that decide how execution resumes. */
  datatype Target = Target(x: seq<word>, mepc: word, mcause: word, mem: Memory, stoppedPc: word, resumeExplicit: bool)

  datatype Reply = Answer(payload: seq<byte>) | Resume

  predicate InWindow(a: int) {
    BRAM_BASE <= a < BRAM_BASE + BRAM_SIZE || SDRAM_BASE <= a < SDRAM_BASE + SDRAM_SIZE
  }

  ghost predicate ValidTarget(t: Target) {
    |t.x| == 32 && forall a :: InWindow(a) ==> a in t.mem
  }

  // ----- text -----

  /** The bytes of an ASCII literal. */
  function Ascii(s: string): (bytes: seq<byte>)
    ensures |bytes| == |s|
  {
    seq(|s|, i requires 0 <= i < |s| => (s[i] as int) % 256)
  }

  /** The text a C string function sees in a payload: the bytes before the first NUL. */
  function CText(p: seq<byte>): seq<byte> {
    p[..Find(p, 0, 0)]
  }

  predicate TextEqual(p: seq<byte>, text: string) {
    CText(p) == Ascii(text)
  }

  predicate TextStartsWith(p: seq<byte>, text: string) {
    Ascii(text) <= CText(p)
  }

  /** The first position from `start` on that holds `ch`, or the length. */
  function Find(p: seq<byte>, start: nat, ch: byte): (i: nat)
    requires start <= |p|
    ensures start <= i <= |p| && (i < |p| ==> p[i] == ch)
    ensures forall k :: start <= k < i ==> p[k] != ch
    decreases |p| - start
  {
    if start == |p| || p[start] == ch then start else Find(p, start + 1, ch)
  }

  // ----- memory commands -----

  /** `range_inside`: an unsigned test that cannot wrap. */
  predicate RangeInside(addr: word, length: word, base: word, size: word) {
    addr >= base && length <= size && addr - base <= size - length
  }

  predicate MemoryRangeAllowed(addr: word, length: word) {
    length != 0 && (RangeInside(addr, length, BRAM_BASE, BRAM_SIZE) || RangeInside(addr, length, SDRAM_BASE, SDRAM_SIZE))
  }

  /** Every byte of the range lies in BRAM or SDRAM. */
  ghost predicate InsideWindows(addr: int, length: int) {
    forall a :: addr <= a < addr + length ==> InWindow(a)
  }

  /** An allowed range is what it should be: nonempty, and byte for byte inside the windows. */
  lemma AllowedIff(addr: word, length: word)
    ensures MemoryRangeAllowed(addr, length) <==> length > 0 && InsideWindows(addr, length)
  {
    if length > 0 && InsideWindows(addr, length) {
      assert InWindow(addr) && InWindow(addr + length - 1);
      assert InWindow(if addr < BRAM_SIZE < addr + length then BRAM_SIZE else addr);
    }
  }

  /** Address, length and the position of the `:` (or the end) of an `m` or `M` payload. */
  datatype Header = Header(addr: word, length: word, separator: nat)

  function ParseMemoryHeader(p: seq<byte>): (h: Option<Header>)
    requires p != []
    ensures h.Some? ==> h.value.separator <= |p|
  {
    var comma := Find(p, 1, ',' as int);
    if comma == |p| then None
    else
      var end := Find(p, comma + 1, ':' as int);
      match (ParseHex(p[1..comma]), ParseHex(p[comma + 1..end]))
      case (Some(addr), Some(length)) => Some(Header(addr, length, end))
      case _ => None
  }

  /** The bytes of `n` addresses from `addr` on. */
  function BytesAt(mem: Memory, addr: int, n: nat): (data: seq<byte>)
    requires forall a :: addr <= a < addr + n ==> a in mem
    ensures |data| == n
  {
    seq(n, i requires 0 <= i < n => mem[addr + i])
  }

  /** The memory with `data` from `addr` on. */
  function Patch(mem: Memory, addr: int, data: seq<byte>): Memory {
    map a | a in mem :: if addr <= a < addr + |data| then data[a - addr] else mem[a]
  }

  /** The header of an `m` payload that will be served. */
  function ReadRequest(p: seq<byte>): Option<Header>
    requires p != []
  {
    match ParseMemoryHeader(p)
    case None => None
    case Some(h) =>
      if h.separator == |p| && h.length <= MAX_TRANSFER && MemoryRangeAllowed(h.addr, h.length) then Some(h) else None
  }

  /** The header of an `M` payload that will be served. */
  function WriteRequest(p: seq<byte>): (r: Option<Header>)
    requires p != []
    ensures r.Some? ==> r.value.separator < |p|
  {
    match ParseMemoryHeader(p)
    case None => None
    case Some(h) =>
      if h.separator < |p| && h.length <= MAX_TRANSFER && |p| - h.separator - 1 == 2 * h.length
         && MemoryRangeAllowed(h.addr, h.length) && AllHex(p[h.separator + 1..])
      then Some(h) else None
  }

  // ----- register commands -----

  /** Words as digits, eight for each. */
  function RegistersHex(values: seq<word>): (s: seq<byte>)
    ensures |s| == 8 * |values| && AllHex(s)
  {
    if values == [] then [] else RegistersHex(values[..|values| - 1]) + HexLe(values[|values| - 1])
  }

  /** What `g` lists: x0 as 0, x1 to x31, pc. */
  function RegisterList(t: Target): (values: seq<word>)
    requires |t.x| == 32
    ensures |values| == REGISTER_COUNT
  {
    [0] + t.x[1..] + [t.mepc]
  }

  predicate RegistersOk(p: seq<byte>) {
    |p| == 1 + 8 * REGISTER_COUNT && AllHex(p[1..])
  }

  /** The words that the first `n` groups of eight digits stand for. */
  function WordsIn(digits: seq<byte>, n: nat): (values: seq<word>)
    requires AllHex(digits) && 8 * n <= |digits|
    ensures |values| == n
  {
    if n == 0 then [] else WordsIn(digits, n - 1) + [UnhexLe(digits[8 * n - 8..8 * n])]
  }

  /** The words a `G` payload carries. */
  function DecodedRegisters(p: seq<byte>): (values: seq<word>)
    requires RegistersOk(p)
    ensures |values| == REGISTER_COUNT
  {
    WordsIn(p[1..], REGISTER_COUNT)
  }

  // ----- dispatch -----

  function StopReply(mcause: word): seq<byte> {
    if mcause == 2 then Ascii("S04")
    else if mcause in {0, 1, 4, 5, 6, 7} then Ascii("S0b")
    else Ascii("S05")
  }

  /** `continue_target`. */
  function Continue(t: Target, p: seq<byte>): (Target, Reply)
    requires p != []
  {
    if |p| > 1 then
      match ParseHex(p[1..])
      case Some(addr) =>
        if addr % 4 == 0 && addr < BRAM_SIZE then (t.(mepc := addr), Resume) else (t, Answer(Ascii("E01")))
      case None => (t, Answer(Ascii("E01")))
    else if t.mcause == CAUSE_BREAKPOINT && !t.resumeExplicit then
      (t.(mepc := (t.mepc + 4) % WORD_MODULUS), Resume)
    else (t, Resume)
  }

  function WriteRegisters(t: Target, p: seq<byte>): (Target, Reply)
    requires |t.x| == 32
  {
    if RegistersOk(p) then
      var values := DecodedRegisters(p);
      (t.(x := [0] + values[1..32], mepc := values[32], resumeExplicit := values[32] != t.stoppedPc), Answer(Ascii("OK")))
    else (t, Answer(Ascii("E01")))
  }

  function ReadMemory(t: Target, p: seq<byte>): Reply
    requires p != [] && ValidTarget(t)
  {
    match ReadRequest(p)
    case Some(h) => (AllowedIff(h.addr, h.length); Answer(HexOf(BytesAt(t.mem, h.addr, h.length))))
    case None => Answer(Ascii("E01"))
  }

  function WriteMemory(t: Target, p: seq<byte>): (Target, Reply)
    requires p != []
  {
    match WriteRequest(p)
    case Some(h) => (t.(mem := Patch(t.mem, h.addr, Unhex(p[h.separator + 1..]))), Answer(Ascii("OK")))
    case None => (t, Answer(Ascii("E01")))
  }

  /** The queries with a fixed text, in the order they are compared. */
  predicate IsQuery(p: seq<byte>) {
    || TextStartsWith(p, "qSupported") || TextEqual(p, "vMustReplyEmpty")
    || TextEqual(p, "Hc0") || TextEqual(p, "Hg0") || TextEqual(p, "Hc-1") || TextEqual(p, "Hg-1")
    || TextEqual(p, "qAttached") || TextEqual(p, "?") || TextEqual(p, "g")
  }

  function QueryAnswer(t: Target, p: seq<byte>): seq<byte>
    requires |t.x| == 32
  {
    if TextStartsWith(p, "qSupported") then Ascii("PacketSize=200")
    else if TextEqual(p, "vMustReplyEmpty") then []
    else if TextEqual(p, "Hc0") || TextEqual(p, "Hg0") || TextEqual(p, "Hc-1") || TextEqual(p, "Hg-1") then Ascii("OK")
    else if TextEqual(p, "qAttached") then Ascii("1")
    else if TextEqual(p, "?") then StopReply(t.mcause)
    else RegistersHex(RegisterList(t))
  }

  /** The commands known by their first letter. */
  function Command(t: Target, p: seq<byte>): (Target, Reply)
    requires ValidTarget(t)
  {
    if p == [] then (t, Answer([]))
    else if p[0] == 'G' as int then WriteRegisters(t, p)
    else if p[0] == 'm' as int then (t, ReadMemory(t, p))
    else if p[0] == 'M' as int then WriteMemory(t, p)
    else if p[0] == 'c' as int then Continue(t, p)
    else (t, Answer([]))
  }

  /** `dispatch_packet`. */
  function Dispatch(t: Target, p: seq<byte>): (Target, Reply)
    requires ValidTarget(t)
  {
    if IsQuery(p) then (t, Answer(QueryAnswer(t, p))) else Command(t, p)
  }

  // ----- what a packet may change -----

  lemma PrefixStart(a: seq<byte>, b: seq<byte>)
    requires a <= b && a != []
    ensures b != [] && a[0] == b[0]
  {
  }

  /** A text is not read where the payload starts with another byte. */
  lemma FirstByte(p: seq<byte>, text: string)
    requires p != [] && p[0] != 0 && text != "" && (text[0] as int) % 256 != p[0]
    ensures !TextEqual(p, text) && !TextStartsWith(p, text)
  {
    assert Ascii(text)[0] == (text[0] as int) % 256;
    assert Find(p, 0, 0) > 0;
    assert CText(p)[0] == p[0];
    if Ascii(text) <= CText(p) {
      PrefixStart(Ascii(text), CText(p));
    }
  }

  predicate IsLetter(p: seq<byte>) {
    p != [] && (p[0] == 'G' as int || p[0] == 'm' as int || p[0] == 'M' as int || p[0] == 'c' as int)
  }

  lemma NoQueryStarts(p: seq<byte>)
    requires p != [] && p[0] != 0
    requires p[0] != 'q' as int && p[0] != 'v' as int && p[0] != 'H' as int && p[0] != '?' as int && p[0] != 'g' as int
    ensures !IsQuery(p)
  {
    FirstByte(p, "qSupported");
    FirstByte(p, "vMustReplyEmpty");
    FirstByte(p, "Hc0");
    FirstByte(p, "Hg0");
    FirstByte(p, "Hc-1");
    FirstByte(p, "Hg-1");
    FirstByte(p, "qAttached");
    FirstByte(p, "?");
    FirstByte(p, "g");
  }

  /** A payload that starts with `G`, `m`, `M` or `c` is never taken for a query. */
  lemma LettersAreCommands(p: seq<byte>)
    requires IsLetter(p)
    ensures !IsQuery(p)
  {
    NoQueryStarts(p);
  }

  lemma DispatchIsCommand(t: Target, p: seq<byte>)
    requires ValidTarget(t) && IsLetter(p)
    ensures Dispatch(t, p) == Command(t, p)
  {
    LettersAreCommands(p);
  }

  /** `after` is `before` with exactly the bytes from `addr` on replaced by `data`. */
  ghost predicate Wrote(before: Memory, after: Memory, addr: int, data: seq<byte>) {
    && after.Keys == before.Keys
    && (forall a :: a in before ==> after[a] == if addr <= a < addr + |data| then data[a - addr] else before[a])
  }

  /** What it takes to serve an `M`. */
  lemma WriteRequestFacts(p: seq<byte>, h: Header)
    requires p != [] && WriteRequest(p) == Some(h)
    ensures ParseMemoryHeader(p) == Some(h) && MemoryRangeAllowed(h.addr, h.length)
    ensures |p[h.separator + 1..]| == 2 * h.length && AllHex(p[h.separator + 1..]) && h.length <= MAX_TRANSFER
  {
  }

  lemma PatchWrites(mem: Memory, addr: int, data: seq<byte>)
    ensures Wrote(mem, Patch(mem, addr, data), addr, data)
  {
  }

  /** The bytes that the digits of a served `M` stand for. */
  function WrittenData(p: seq<byte>, h: Header): (data: seq<byte>)
    requires p != [] && WriteRequest(p) == Some(h)
    ensures |data| == h.length
  {
    WriteRequestFacts(p, h);
    Unhex(p[h.separator + 1..])
  }

  lemma WriteEffect(t: Target, p: seq<byte>, h: Header)
    requires ValidTarget(t) && p != [] && WriteRequest(p) == Some(h)
    ensures InsideWindows(h.addr, h.length) && h.addr + h.length <= WORD_MODULUS
    ensures WriteMemory(t, p) == (t.(mem := Patch(t.mem, h.addr, WrittenData(p, h))), Answer(Ascii("OK")))
    ensures Wrote(t.mem, Patch(t.mem, h.addr, WrittenData(p, h)), h.addr, WrittenData(p, h))
  {
    WriteRequestFacts(p, h);
    AllowedIff(h.addr, h.length);
    PatchWrites(t.mem, h.addr, WrittenData(p, h));
  }

  /** A packet other than a served `M` leaves every byte of memory alone. */
  lemma MemoryKept(t: Target, p: seq<byte>)
    requires ValidTarget(t)
    requires p == [] || p[0] != 'M' as int || WriteRequest(p) == None
    ensures Dispatch(t, p).0.mem == t.mem && ValidTarget(Dispatch(t, p).0)
    ensures p != [] && p[0] == 'M' as int ==> Dispatch(t, p) == (t, Answer(Ascii("E01")))
  {
    if IsLetter(p) {
      DispatchIsCommand(t, p);
    }
  }

  /** A served `M` writes exactly the bytes it names, inside one window and without wrapping, and nothing else. */
  lemma MemoryWritten(t: Target, p: seq<byte>, h: Header)
    requires ValidTarget(t) && p != [] && p[0] == 'M' as int && WriteRequest(p) == Some(h)
    ensures InsideWindows(h.addr, h.length) && h.addr + h.length <= WORD_MODULUS
    ensures Wrote(t.mem, Dispatch(t, p).0.mem, h.addr, WrittenData(p, h))
    ensures Dispatch(t, p) == (t.(mem := Dispatch(t, p).0.mem), Answer(Ascii("OK")))
    ensures ValidTarget(Dispatch(t, p).0)
  {
    DispatchIsCommand(t, p);
    WriteEffect(t, p, h);
  }

  /** Whatever a packet does, the target stays one the stub can serve, and x0 stays zero. */
  lemma StaysValid(t: Target, p: seq<byte>)
    requires ValidTarget(t)
    ensures ValidTarget(Dispatch(t, p).0)
    ensures t.x[0] == 0 ==> Dispatch(t, p).0.x[0] == 0
  {
    if p != [] && p[0] == 'M' as int && WriteRequest(p).Some? {
      MemoryWritten(t, p, WriteRequest(p).value);
    } else {
      MemoryKept(t, p);
      RegistersAtomic(t, p);
    }
  }

  /**
   * Registers change all or nothing: a packet leaves x0 to x31 alone unless it is
   * a well-formed `G`, which sets x1 to x31 and the pc to the words it carries
   * and x0 to zero; the pc changes then or when the target resumes.
   */
  lemma RegistersAtomic(t: Target, p: seq<byte>)
    requires ValidTarget(t)
    ensures var (t', r) := Dispatch(t, p);
      && (if p != [] && p[0] == 'G' as int && RegistersOk(p)
          then t'.x == [0] + DecodedRegisters(p)[1..32] && t'.mepc == DecodedRegisters(p)[32] && r == Answer(Ascii("OK"))
          else t'.x == t.x && (t'.mepc != t.mepc ==> r == Resume))
      && (p != [] && p[0] == 'G' as int && !RegistersOk(p) ==> (t', r) == (t, Answer(Ascii("E01"))))
      && (t'.mcause, t'.stoppedPc) == (t.mcause, t.stoppedPc)
  {
    if IsLetter(p) {
      LettersAreCommands(p);
    }
  }

  // ----- what the text of a packet asks for -----

  /** A letter, an address, a comma and a length in hex digits, and then `rest`: nothing, or data behind a colon. */
  predicate HeaderText(p: seq<byte>, a: seq<byte>, l: seq<byte>, rest: seq<byte>) {
    && p != [] && IsNumber(a) && IsNumber(l) && (rest == [] || rest[0] == ':' as int)
    && p[1..] == a + [',' as int] + l + rest
  }

  /** A number holds no mark. */
  lemma NumberHasNoMark(q: seq<byte>, at: nat, s: seq<byte>, ch: byte)
    requires at + |s| <= |q| && q[at..at + |s|] == s && IsNumber(s) && !IsHex(ch)
    ensures forall k :: at <= k < at + |s| ==> q[k] != ch
  {
    assert forall k :: at <= k < at + |s| ==> q[k] == s[k - at];
  }

  /** Where the comma stands. */
  lemma CommaMark(p: seq<byte>, a: seq<byte>, l: seq<byte>, rest: seq<byte>)
    requires HeaderText(p, a, l, rest)
    ensures 1 + |a| < |p| && Find(p, 1, ',' as int) == 1 + |a| && p[1..1 + |a|] == a
  {
    assert p[1 + |a|] == p[1..][|a|] == ',' as int;
    assert p[1..1 + |a|] == p[1..][..|a|] == a;
    NumberHasNoMark(p, 1, a, ',' as int);
    FindIs(p, 1, ',' as int, 1 + |a|);
  }

  /** Where the colon or the end stands. */
  lemma ColonMark(p: seq<byte>, a: seq<byte>, l: seq<byte>, rest: seq<byte>)
    requires HeaderText(p, a, l, rest)
    ensures |p| == 2 + |a| + |l| + |rest|
    ensures Find(p, 2 + |a|, ':' as int) == 2 + |a| + |l| && p[2 + |a|..2 + |a| + |l|] == l
  {
    var at, end := 2 + |a|, 2 + |a| + |l|;
    assert p[at..end] == p[1..][at - 1..end - 1] == l;
    assert end < |p| ==> p[end] == p[1..][end - 1] == rest[0];
    NumberHasNoMark(p, at, l, ':' as int);
    FindIs(p, at, ':' as int, end);
  }

  /** The first position that holds `ch` is the only one with that description. */
  lemma FindIs(p: seq<byte>, start: nat, ch: byte, i: nat)
    requires start <= i <= |p| && (i < |p| ==> p[i] == ch) && forall k :: start <= k < i ==> p[k] != ch
    ensures Find(p, start, ch) == i
  {
  }

  /** The first number is the address, the second the length; the data begins behind them. */
  lemma HeaderIs(p: seq<byte>, a: seq<byte>, l: seq<byte>, rest: seq<byte>)
    requires HeaderText(p, a, l, rest)
    ensures ParseMemoryHeader(p).Some?
    ensures var h := ParseMemoryHeader(p).value;
      h.addr == HexNumber(a) && h.length == HexNumber(l) && h.separator == |p| - |rest|
  {
    CommaMark(p, a, l, rest);
    ColonMark(p, a, l, rest);
  }

  lemma HeaderTextOf(p: seq<byte>) returns (a: seq<byte>, l: seq<byte>, rest: seq<byte>)
    requires p != [] && ParseMemoryHeader(p).Some?
    ensures HeaderText(p, a, l, rest)
  {
    var comma := Find(p, 1, ',' as int);
    var end := Find(p, comma + 1, ':' as int);
    a, l, rest := p[1..comma], p[comma + 1..end], p[end..];
    assert p[1..] == a + [',' as int] + l + rest;
  }

  /** A payload has a header exactly when it is so written. */
  lemma HeaderIff(p: seq<byte>)
    requires p != []
    ensures ParseMemoryHeader(p).Some? <==> exists a, l, rest :: HeaderText(p, a, l, rest)
  {
    if ParseMemoryHeader(p).Some? {
      var a, l, rest := HeaderTextOf(p);
    }
    if a, l, rest :| HeaderText(p, a, l, rest) {
      HeaderIs(p, a, l, rest);
    }
  }

  /** An address and a length that a host may read or write. */
  ghost predicate MayTransfer(a: seq<byte>, l: seq<byte>)
    requires AllHex(a) && AllHex(l)
  {
    0 < HexNumber(l) <= MAX_TRANSFER && InsideWindows(HexNumber(a), HexNumber(l))
  }

  /**
   * `mADDR,LENGTH` answers the bytes at that address, as many as the length says,
   * as digits; a range outside the windows, of no bytes or of more than 256 is refused.
   */
  lemma ReadTold(t: Target, p: seq<byte>, a: seq<byte>, l: seq<byte>)
    requires ValidTarget(t) && IsNumber(a) && IsNumber(l) && p == ['m' as int] + a + [',' as int] + l
    ensures Dispatch(t, p)
         == (t, if MayTransfer(a, l) then Answer(HexOf(BytesAt(t.mem, HexNumber(a), HexNumber(l)))) else Answer(Ascii("E01")))
  {
    assert p[1..] == a + [',' as int] + l + [];
    HeaderIs(p, a, l, []);
    var h := ParseMemoryHeader(p).value;
    AllowedIff(h.addr, h.length);
    DispatchIsCommand(t, p);
  }

  /** Data that a host may write: as many bytes, two digits for each, as the length says. */
  predicate DataFits(l: seq<byte>, data: seq<byte>)
    requires AllHex(l)
  {
    |data| == 2 * HexNumber(l) && AllHex(data)
  }

  /** The bytes that the digits stand for now lie from `addr` on; memory is else as it was, and all the rest too. */
  ghost predicate WroteDigits(t: Target, outcome: (Target, Reply), addr: int, data: seq<byte>)
    requires AllHex(data) && |data| % 2 == 0
  {
    && outcome == (t.(mem := outcome.0.mem), Answer(Ascii("OK")))
    && Wrote(t.mem, outcome.0.mem, addr, Unhex(data))
  }

  predicate WriteText(p: seq<byte>, a: seq<byte>, l: seq<byte>, data: seq<byte>) {
    IsNumber(a) && IsNumber(l) && p == ['M' as int] + a + [',' as int] + l + [':' as int] + data
  }

  /** Which `M` is served, and what it carries. */
  lemma WriteAsked(p: seq<byte>, a: seq<byte>, l: seq<byte>, data: seq<byte>)
    requires WriteText(p, a, l, data)
    ensures ParseMemoryHeader(p).Some?
    ensures var h := ParseMemoryHeader(p).value;
      && h.addr == HexNumber(a) && h.length == HexNumber(l) && h.separator < |p| && p[h.separator + 1..] == data
      && WriteRequest(p) == if MayTransfer(a, l) && DataFits(l, data) then Some(h) else None
  {
    assert p[1..] == a + [',' as int] + l + ([':' as int] + data);
    HeaderIs(p, a, l, [':' as int] + data);
    var h := ParseMemoryHeader(p).value;
    assert p[h.separator + 1..] == data;
    AllowedIff(h.addr, h.length);
  }

  /** How an `M` must end. */
  ghost predicate WriteEnds(t: Target, outcome: (Target, Reply), a: seq<byte>, l: seq<byte>, data: seq<byte>)
    requires IsNumber(a) && IsNumber(l)
  {
    if MayTransfer(a, l) && DataFits(l, data) then WroteDigits(t, outcome, HexNumber(a), data)
    else outcome == (t, Answer(Ascii("E01")))
  }

  /**
   * `MADDR,LENGTH:DATA` puts the bytes of the data at that address and nothing
   * else changes; with a range that may not be written, or data of another
   * length or with anything but hex digits in it, nothing changes at all.
   */
  lemma WriteTold(t: Target, p: seq<byte>, a: seq<byte>, l: seq<byte>, data: seq<byte>)
    requires ValidTarget(t) && WriteText(p, a, l, data)
    ensures WriteEnds(t, Dispatch(t, p), a, l, data)
  {
    WriteAsked(p, a, l, data);
    var h := ParseMemoryHeader(p).value;
    DispatchIsCommand(t, p);
    if MayTransfer(a, l) && DataFits(l, data) {
      WriteEffect(t, p, h);
    }
  }

  lemma {:induction false} WordsInAt(digits: seq<byte>, n: nat, k: nat)
    requires AllHex(digits) && k < n && 8 * n <= |digits|
    ensures WordsIn(digits, n)[k] == UnhexLe(digits[8 * k..8 * k + 8])
  {
    if k < n - 1 {
      WordsInAt(digits, n - 1, k);
    }
  }

  /** In a `G`, x`k` has the eight digits at its place, low byte first, and the pc comes behind all of them. */
  lemma RegistersTold(t: Target, p: seq<byte>, digits: seq<byte>, k: nat)
    requires ValidTarget(t) && p == ['G' as int] + digits && |digits| == 8 * REGISTER_COUNT && AllHex(digits)
    ensures var (t', r) := Dispatch(t, p);
      && r == Answer(Ascii("OK")) && |t'.x| == 32 && t'.x[0] == 0
      && (0 < k < 32 ==> t'.x[k] == UnhexLe(digits[8 * k..8 * k + 8]))
      && t'.mepc == UnhexLe(digits[256..264])
  {
    assert p[1..] == digits;
    RegistersAtomic(t, p);
    WordsInAt(digits, REGISTER_COUNT, 32);
    if 0 < k < 32 {
      WordsInAt(digits, REGISTER_COUNT, k);
    }
  }

  /** A `g` lists x`k` in the eight digits at its place, x0 as zeros, and the pc behind all of them. */
  lemma RegistersListed(t: Target, k: nat)
    requires ValidTarget(t) && k < 32
    ensures Dispatch(t, Ascii("g")).1.Answer?
    ensures var digits := Dispatch(t, Ascii("g")).1.payload;
      && |digits| == 8 * REGISTER_COUNT
      && digits[8 * k..8 * k + 8] == HexLe(if k == 0 then 0 else t.x[k])
      && digits[256..264] == HexLe(t.mepc)
  {
    GIsRegisters(t);
    RegistersHexAt(RegisterList(t), k);
    RegistersHexAt(RegisterList(t), 32);
  }

  /** A text is read where it stands alone or in front of a NUL, and the beginning of one where it stands at all. */
  lemma TextIff(p: seq<byte>, text: string)
    requires 0 !in Ascii(text)
    ensures TextEqual(p, text) <==> Ascii(text) <= p && (|p| == |text| || p[|text|] == 0)
    ensures TextStartsWith(p, text) <==> Ascii(text) <= p
  {
    var n := Find(p, 0, 0);
    if Ascii(text) <= p {
      assert forall k :: 0 <= k < |text| ==> p[k] == Ascii(text)[k] && p[k] in Ascii(text);
      assert n >= |text|;
      assert Ascii(text) == p[..n][..|text|];
      if |p| == |text| || p[|text|] == 0 {
        assert n == |text|;
      }
    }
  }

  /** The POSIX number of the signal a cause stands for: SIGILL, SIGSEGV or SIGTRAP. */
  function SignalOf(mcause: word): byte {
    match mcause
    case 2 => 4
    case 0 | 1 | 4 | 5 | 6 | 7 => 11
    case _ => 5
  }

  /** A stop is told as `S` and the number of its signal in two hex digits. */
  function SignalText(mcause: word): seq<byte> {
    ['S' as int] + HexByte(SignalOf(mcause))
  }

  lemma StopReplyIs(mcause: word)
    ensures StopReply(mcause) == SignalText(mcause)
  {
    assert HexByte(4) == ['0' as int, '4' as int] && HexByte(5) == ['0' as int, '5' as int] && HexByte(11) == ['0' as int, 'b' as int];
  }

  /** Texts that differ in length or in their first byte are not both read. */
  lemma OneText(p: seq<byte>, text: string, other: string)
    requires TextEqual(p, text) && text != "" && other != ""
    requires |text| != |other| || (text[0] as int) % 256 != (other[0] as int) % 256
    ensures !TextEqual(p, other)
    ensures |text| < |other| || (text[0] as int) % 256 != (other[0] as int) % 256 ==> !TextStartsWith(p, other)
  {
    assert Ascii(text)[0] == (text[0] as int) % 256 && Ascii(other)[0] == (other[0] as int) % 256;
  }

  lemma OrdinaryText(p: seq<byte>, text: string)
    requires TextEqual(p, text) && text in {"Hc0", "Hg0", "Hc-1", "Hg-1", "qAttached", "?", "g"}
    ensures !TextStartsWith(p, "qSupported") && !TextEqual(p, "vMustReplyEmpty")
    ensures text in {"qAttached", "?", "g"} ==>
      !TextEqual(p, "Hc0") && !TextEqual(p, "Hg0") && !TextEqual(p, "Hc-1") && !TextEqual(p, "Hg-1")
    ensures text in {"?", "g"} ==> !TextEqual(p, "qAttached")
    ensures text == "g" ==> !TextEqual(p, "?")
  {
    OneText(p, text, "qSupported");
    OneText(p, text, "vMustReplyEmpty");
    if text in {"qAttached", "?", "g"} {
      OneText(p, text, "Hc0");
      OneText(p, text, "Hg0");
      OneText(p, text, "Hc-1");
      OneText(p, text, "Hg-1");
    }
    if text in {"?", "g"} {
      OneText(p, text, "qAttached");
    }
    if text == "g" {
      OneText(p, text, "?");
    }
  }

  /** What each fixed request is answered, by the text alone; none of them changes the target. */
  lemma FixedAnswers(t: Target, p: seq<byte>)
    requires ValidTarget(t)
    ensures TextStartsWith(p, "qSupported") ==> Dispatch(t, p) == (t, Answer(Ascii("PacketSize=200")))
    ensures TextEqual(p, "vMustReplyEmpty") ==> Dispatch(t, p) == (t, Answer([]))
    ensures TextEqual(p, "Hc0") || TextEqual(p, "Hg0") || TextEqual(p, "Hc-1") || TextEqual(p, "Hg-1") ==>
      Dispatch(t, p) == (t, Answer(Ascii("OK")))
    ensures TextEqual(p, "qAttached") ==> Dispatch(t, p) == (t, Answer(Ascii("1")))
    ensures TextEqual(p, "?") ==> Dispatch(t, p) == (t, Answer(SignalText(t.mcause)))
  {
    StopReplyIs(t.mcause);
    if TextEqual(p, "vMustReplyEmpty") {
      OneText(p, "vMustReplyEmpty", "qSupported");
    } else if TextEqual(p, "Hc0") {
      OrdinaryText(p, "Hc0");
    } else if TextEqual(p, "Hg0") {
      OrdinaryText(p, "Hg0");
    } else if TextEqual(p, "Hc-1") {
      OrdinaryText(p, "Hc-1");
    } else if TextEqual(p, "Hg-1") {
      OrdinaryText(p, "Hg-1");
    } else if TextEqual(p, "qAttached") {
      OrdinaryText(p, "qAttached");
    } else if TextEqual(p, "?") {
      OrdinaryText(p, "?");
    }
  }

  /** The packet size announced is the capacity of the parser's buffer. */
  lemma AnnouncedSize()
    ensures AllHex(Ascii("200")) && HexNumber(Ascii("200")) == CAPACITY
    ensures Ascii("PacketSize=200") == Ascii("PacketSize=") + Ascii("200")
  {
    var s := Ascii("200");
    assert s == ['2' as int, '0' as int, '0' as int];
    assert s[..2] == ['2' as int, '0' as int] && s[..2][..1] == ['2' as int] && s[..1][..0] == [];
    assert HexNumber([]) == 0;
    assert HexNumber(['2' as int]) == 2;
    assert HexNumber(s[..2]) == 32;
  }

  /** A request that begins like none of the known ones draws an empty packet and changes nothing. */
  lemma UnknownIsEmpty(t: Target, p: seq<byte>)
    requires ValidTarget(t)
    requires p != [] ==> forall k :: 0 <= k < 9 ==> p[0] != "qvH?gGmMc"[k] as int
    ensures Dispatch(t, p) == (t, Answer([]))
  {
    if p != [] && p[0] != 0 {
      assert p[0] != "qvH?gGmMc"[0] as int && p[0] != "qvH?gGmMc"[1] as int && p[0] != "qvH?gGmMc"[2] as int;
      assert p[0] != "qvH?gGmMc"[3] as int && p[0] != "qvH?gGmMc"[4] as int && p[0] != "qvH?gGmMc"[5] as int;
      assert p[0] != "qvH?gGmMc"[6] as int && p[0] != "qvH?gGmMc"[7] as int && p[0] != "qvH?gGmMc"[8] as int;
      NoQueryStarts(p);
    } else {
      assert CText(p) == [];
    }
  }

  // ----- reading back what was written -----

  /** A payload cut after its header still has that header. */
  lemma HeaderPrefix(p: seq<byte>, q: seq<byte>, h: Header)
    requires p != [] && ParseMemoryHeader(p) == Some(h)
    requires |q| == h.separator && q[1..] == p[1..h.separator]
    ensures ParseMemoryHeader(q) == Some(h.(separator := |q|))
  {
    var comma := Find(p, 1, ',' as int);
    assert forall k :: 1 <= k < |q| ==> q[k] == q[1..][k - 1] == p[1..h.separator][k - 1] == p[k];
    assert Find(q, 1, ',' as int) == comma;
    assert Find(q, comma + 1, ':' as int) == |q|;
    assert q[1..comma] == p[1..comma] && q[comma + 1..|q|] == p[comma + 1..h.separator];
  }

  /** After an accepted `M addr,len:data`, `m addr,len` answers the same digits in lower case. */
  lemma MemoryReadsBack(t: Target, p: seq<byte>, q: seq<byte>, h: Header)
    requires ValidTarget(t) && p != [] && p[0] == 'M' as int && WriteRequest(p) == Some(h)
    requires q == ['m' as int] + p[1..h.separator]
    ensures var t' := Dispatch(t, p).0;
      ValidTarget(t') && Dispatch(t', q) == (t', Answer(Lower(p[h.separator + 1..])))
  {
    DispatchIsCommand(t, p);
    WriteEffect(t, p, h);
    WriteRequestFacts(p, h);
    assert q[1..] == p[1..h.separator];
    HeaderPrefix(p, q, h);
    ReadsPatch(t, q, h, Unhex(p[h.separator + 1..]));
    DispatchIsCommand(t.(mem := Patch(t.mem, h.addr, Unhex(p[h.separator + 1..]))), q);
    HexOfUnhex(p[h.separator + 1..]);
  }

  /** An `m` of a range just written answers what was written. */
  lemma ReadsPatch(t: Target, q: seq<byte>, h: Header, data: seq<byte>)
    requires ValidTarget(t) && q != [] && ParseMemoryHeader(q) == Some(h.(separator := |q|))
    requires MemoryRangeAllowed(h.addr, h.length) && h.length <= MAX_TRANSFER && |data| == h.length
    ensures var t' := t.(mem := Patch(t.mem, h.addr, data));
      ValidTarget(t') && ReadMemory(t', q) == Answer(HexOf(data))
  {
    var mem := Patch(t.mem, h.addr, data);
    AllowedIff(h.addr, h.length);
    PatchWrites(t.mem, h.addr, data);
    ReadsWritten(t.mem, mem, h.addr, data);
  }

  lemma ReadsWritten(before: Memory, after: Memory, addr: int, data: seq<byte>)
    requires Wrote(before, after, addr, data)
    requires forall a :: addr <= a < addr + |data| ==> a in before
    ensures forall a :: addr <= a < addr + |data| ==> a in after
    ensures BytesAt(after, addr, |data|) == data
  {
    forall a | addr <= a < addr + |data|
      ensures a in after && after[a] == data[a - addr]
    {
      assert a in before.Keys;
    }
  }

  lemma LowerOfConcat(a: seq<byte>, b: seq<byte>)
    requires AllHex(a) && AllHex(b)
    ensures AllHex(a + b) && Lower(a + b) == Lower(a) + Lower(b)
  {
  }

  lemma SplitDigits(digits: seq<byte>, k: nat)
    requires AllHex(digits) && k + 8 <= |digits|
    ensures var low, high := digits[..k], digits[k..k + 8];
      && AllHex(low) && AllHex(high) && AllHex(digits[..k + 8])
      && Lower(digits[..k + 8]) == Lower(low) + Lower(high)
  {
    LowerOfConcat(digits[..k], digits[k..k + 8]);
    assert digits[..k + 8] == digits[..k] + digits[k..k + 8];
  }

  lemma RegistersHexOfMore(values: seq<word>, v: word)
    ensures RegistersHex(values + [v]) == RegistersHex(values) + HexLe(v)
  {
    assert (values + [v])[..|values|] == values;
  }

  /** Words read from digits and written back are those digits in lower case. */
  lemma {:induction false} RegistersHexOfWords(digits: seq<byte>, n: nat)
    requires AllHex(digits) && 8 * n <= |digits|
    ensures RegistersHex(WordsIn(digits, n)) == Lower(digits[..8 * n])
  {
    if n > 0 {
      RegistersHexOfWords(digits, n - 1);
      var k := 8 * (n - 1);
      WordsInStep(digits, n, k);
      OneMoreWord(digits, n - 1, k, WordsIn(digits, n - 1));
    }
  }

  lemma WordsInStep(digits: seq<byte>, n: nat, k: nat)
    requires AllHex(digits) && 0 < n && 8 * n <= |digits| && k == 8 * (n - 1)
    ensures AllHex(digits[k..k + 8]) && WordsIn(digits, n) == WordsIn(digits, n - 1) + [UnhexLe(digits[k..k + 8])]
    ensures digits[..8 * n] == digits[..k + 8]
  {
    assert 8 * n == k + 8;
  }

  /** One more word: its digits from position `k` on. */
  lemma OneMoreWord(digits: seq<byte>, n: nat, k: nat, values: seq<word>)
    requires AllHex(digits) && k == 8 * n && k + 8 <= |digits|
    requires RegistersHex(values) == Lower(digits[..k])
    ensures AllHex(digits[k..k + 8])
    ensures RegistersHex(values + [UnhexLe(digits[k..k + 8])]) == Lower(digits[..k + 8])
  {
    SplitDigits(digits, k);
    HexUnhexLe(digits[k..k + 8]);
    RegistersHexOfMore(values, UnhexLe(digits[k..k + 8]));
  }

  lemma {:induction false} RegistersHexAt(values: seq<word>, i: nat)
    requires i < |values|
    ensures RegistersHex(values)[8 * i..8 * i + 8] == HexLe(values[i])
  {
    if i < |values| - 1 {
      RegistersHexAt(values[..|values| - 1], i);
    }
  }

  /** Registers listed in the same order have the same digits at each place. */
  lemma SameRegistersSameHex(a: seq<word>, b: seq<word>)
    requires |a| == |b| && |a| > 0 && a[1..] == b[1..]
    ensures RegistersHex(a)[8..] == RegistersHex(b)[8..]
  {
    forall k | 8 <= k < 8 * |a|
      ensures RegistersHex(a)[k] == RegistersHex(b)[k]
    {
      var i := k / 8;
      RegistersHexAt(a, i);
      RegistersHexAt(b, i);
      assert a[i] == a[1..][i - 1] == b[1..][i - 1] == b[i];
      assert RegistersHex(a)[k] == RegistersHex(a)[8 * i..8 * i + 8][k - 8 * i];
      assert RegistersHex(b)[k] == RegistersHex(b)[8 * i..8 * i + 8][k - 8 * i];
    }
  }

  /** The list after a `G`, as digits: zeros for x0, then the digits that came. */
  lemma ListedAsSent(t: Target, p: seq<byte>)
    requires |t.x| == 32 && RegistersOk(p)
    ensures var t' := WriteRegisters(t, p).0;
      |t'.x| == 32 && RegistersHex(RegisterList(t')) == HexLe(0) + Lower(p[1..])[8..]
  {
    var values := DecodedRegisters(p);
    RegistersHexOfWords(p[1..], REGISTER_COUNT);
    assert p[1..][..8 * REGISTER_COUNT] == p[1..];
    ListTail(t, p);
    ZeroFirst(RegisterList(WriteRegisters(t, p).0), values);
  }

  lemma ListTail(t: Target, p: seq<byte>)
    requires |t.x| == 32 && RegistersOk(p)
    ensures var t' := WriteRegisters(t, p).0;
      |t'.x| == 32 && RegisterList(t')[0] == 0 && RegisterList(t')[1..] == DecodedRegisters(p)[1..]
  {
  }

  lemma ZeroFirst(listed: seq<word>, sent: seq<word>)
    requires |listed| == |sent| == REGISTER_COUNT && listed[0] == 0 && listed[1..] == sent[1..]
    ensures RegistersHex(listed) == HexLe(0) + RegistersHex(sent)[8..]
  {
    SameRegistersSameHex(listed, sent);
    RegistersHexAt(listed, 0);
    var s := RegistersHex(listed);
    assert s == s[..8] + s[8..] && s[0..8] == s[..8];
  }

  /** After an accepted `G`, `g` answers eight zeros for x0 and then the same digits in lower case. */
  lemma RegistersReadBack(t: Target, p: seq<byte>)
    requires ValidTarget(t) && p != [] && p[0] == 'G' as int && RegistersOk(p)
    ensures var t' := Dispatch(t, p).0;
      && ValidTarget(t') && t'.x[0] == 0
      && Dispatch(t', Ascii("g")) == (t', Answer(HexLe(0) + Lower(p[1..])[8..]))
  {
    StaysValid(t, p);
    DispatchIsCommand(t, p);
    ListedAsSent(t, p);
    GIsRegisters(Dispatch(t, p).0);
  }

  lemma GIsRegisters(t: Target)
    requires ValidTarget(t)
    ensures Dispatch(t, Ascii("g")) == (t, Answer(RegistersHex(RegisterList(t))))
  {
    var p := Ascii("g");
    assert p == ['g' as int];
    assert CText(p) == p;
    FirstByte(p, "qSupported");
    FirstByte(p, "vMustReplyEmpty");
    FirstByte(p, "Hc0");
    FirstByte(p, "Hg0");
    FirstByte(p, "Hc-1");
    FirstByte(p, "Hg-1");
    FirstByte(p, "qAttached");
    FirstByte(p, "?");
  }

  // ----- where a continue lands -----

  /** The stub's flag says exactly whether the host has moved the pc away from the stop. */
  predicate FlagTracksPc(t: Target) {
    t.resumeExplicit == (t.mepc != t.stoppedPc)
  }

  /** The targets that a list of packets leads through, as long as none resumes. */
  function AfterPackets(t: Target, packets: seq<seq<byte>>): Target
    requires ValidTarget(t)
    ensures ValidTarget(AfterPackets(t, packets))
    ensures t.x[0] == 0 ==> AfterPackets(t, packets).x[0] == 0
  {
    if packets == [] then t
    else
      var before := AfterPackets(t, packets[..|packets| - 1]);
      StaysValid(before, packets[|packets| - 1]);
      Dispatch(before, packets[|packets| - 1]).0
  }

  predicate ResumesNot(t: Target, packets: seq<seq<byte>>, k: nat)
    requires ValidTarget(t) && k < |packets|
  {
    Dispatch(AfterPackets(t, packets[..k]), packets[k]).1 != Resume
  }

  predicate NoneResumes(t: Target, packets: seq<seq<byte>>)
    requires ValidTarget(t)
  {
    forall k :: 0 <= k < |packets| ==> ResumesNot(t, packets, k)
  }

  lemma FlagKept(t: Target, p: seq<byte>)
    requires ValidTarget(t) && FlagTracksPc(t) && Dispatch(t, p).1 != Resume
    ensures FlagTracksPc(Dispatch(t, p).0) && Dispatch(t, p).0.stoppedPc == t.stoppedPc
    ensures Dispatch(t, p).0.mcause == t.mcause
  {
    if IsLetter(p) {
      LettersAreCommands(p);
    }
  }

  lemma InitResumesNone(t: Target, packets: seq<seq<byte>>)
    requires ValidTarget(t) && packets != [] && NoneResumes(t, packets)
    ensures NoneResumes(t, packets[..|packets| - 1])
    ensures Dispatch(AfterPackets(t, packets[..|packets| - 1]), packets[|packets| - 1]).1 != Resume
  {
    var init := packets[..|packets| - 1];
    forall k | 0 <= k < |init|
      ensures ResumesNot(t, init, k)
    {
      assert init[..k] == packets[..k] && ResumesNot(t, packets, k);
    }
    assert ResumesNot(t, packets, |packets| - 1);
  }

  lemma AfterOneMore(t: Target, packets: seq<seq<byte>>)
    requires ValidTarget(t) && packets != []
    ensures AfterPackets(t, packets) == Dispatch(AfterPackets(t, packets[..|packets| - 1]), packets[|packets| - 1]).0
  {
  }

  /** Over every command sequence within one stop the flag tracks the pc. */
  lemma {:induction false} FlagKeptOverRun(t: Target, packets: seq<seq<byte>>)
    requires ValidTarget(t) && FlagTracksPc(t) && NoneResumes(t, packets)
    ensures var t' := AfterPackets(t, packets);
      FlagTracksPc(t') && t'.stoppedPc == t.stoppedPc && t'.mcause == t.mcause
  {
    if packets != [] {
      var init, last := packets[..|packets| - 1], packets[|packets| - 1];
      InitResumesNone(t, packets);
      FlagKeptOverRun(t, init);
      FlagKept(AfterPackets(t, init), last);
      AfterOneMore(t, packets);
    }
  }

  /** Where a plain `c` goes with the pc at `pc`: over the breakpoint if it still stands there. */
  function PlainResume(t: Target, pc: word): word {
    if t.mcause == CAUSE_BREAKPOINT && pc == t.stoppedPc then (t.stoppedPc + 4) % WORD_MODULUS else pc
  }

  /** `cADDR` names a place to go. */
  predicate IsTargetAddress(digits: seq<byte>) {
    IsNumber(digits) && HexNumber(digits) % 4 == 0 && HexNumber(digits) < BRAM_SIZE
  }

  /**
   * What a `c` payload must lead to for a target that trapped as `t` and stands
   * as `stop`: a plain `c` resumes, at a breakpoint over it if the pc stands
   * there and else exactly at the pc; `cADDR` resumes at an aligned BRAM
   * address or is refused and changes nothing.
   */
  predicate Lands(t: Target, stop: Target, p: seq<byte>, outcome: (Target, Reply))
    requires p != []
  {
    if |p| == 1 then outcome == (stop.(mepc := PlainResume(t, stop.mepc)), Resume)
    else if IsTargetAddress(p[1..]) then outcome == (stop.(mepc := outcome.0.mepc), Resume) && outcome.0.mepc == HexNumber(p[1..])
    else outcome == (stop, Answer(Ascii("E01")))
  }

  lemma ContinueLands(t: Target, stop: Target, p: seq<byte>)
    requires FlagTracksPc(stop) && p != [] && t.mcause == stop.mcause && t.stoppedPc == stop.stoppedPc
    ensures Lands(t, stop, p, Continue(stop, p))
  {
  }

  /** Where execution resumes, after any commands within one stop. */
  lemma ResumeLands(t: Target, packets: seq<seq<byte>>, p: seq<byte>)
    requires ValidTarget(t) && FlagTracksPc(t) && NoneResumes(t, packets)
    requires p != [] && p[0] == 'c' as int
    ensures Lands(t, AfterPackets(t, packets), p, Dispatch(AfterPackets(t, packets), p))
  {
    var stop := AfterPackets(t, packets);
    FlagKeptOverRun(t, packets);
    DispatchIsCommand(stop, p);
    ContinueLands(t, stop, p);
  }

  /** Only a payload that starts with `c` resumes. */
  lemma ResumeIsContinue(t: Target, p: seq<byte>)
    requires ValidTarget(t) && Dispatch(t, p).1 == Resume
    ensures p != [] && p[0] == 'c' as int && Dispatch(t, p) == Continue(t, p)
  {
  }

  // ----- replies can always be framed -----

  lemma HexIsClean(s: seq<byte>)
    requires AllHex(s)
    ensures Clean(s)
  {
  }

  lemma LiteralsAreClean(mcause: word)
    ensures Clean(Ascii("PacketSize=200")) && Clean(Ascii("OK")) && Clean(Ascii("E01")) && Clean(Ascii("1"))
    ensures Clean(StopReply(mcause)) && |StopReply(mcause)| == 3
  {
  }

  /** Every reply is at most 512 bytes and free of `$` and `#`. */
  lemma ReplyIsDeliverable(t: Target, p: seq<byte>)
    requires ValidTarget(t)
    ensures var r := Dispatch(t, p).1; r == Resume || (Clean(r.payload) && |r.payload| <= CAPACITY)
    ensures Dispatch(t, p).1 == Resume ==> p != [] && p[0] == 'c' as int
  {
    LiteralsAreClean(t.mcause);
    HexIsClean(RegistersHex(RegisterList(t)));
    if IsLetter(p) {
      LettersAreCommands(p);
      if p[0] == 'm' as int && ReadRequest(p).Some? {
        var h := ReadRequest(p).value;
        AllowedIff(h.addr, h.length);
        HexIsClean(HexOf(BytesAt(t.mem, h.addr, h.length)));
      }
    }
  }
}
