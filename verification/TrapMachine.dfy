// Tasks and traps as the FreeRTOS port arranges them (`port.c`,
// `trap_entry.S`): a trap pushes a frame on the interrupted task's stack, the
// kernel may pick another task, and that task's frame is restored. The
// scheduler is an arbitrary choice; the results hold for every run.
module TrapMachine {
  import opened Words
  import opened MachineTimer

  const FRAME_WORDS := 36
  const FRAME_BYTES := 144
  const MEPC_WORD := 32
  const MSTATUS_WORD := 33
  const MCAUSE_WORD := 34
  const CAUSE_ECALL: word := 0x0000_000b
  const CAUSE_TIMER: word := 0x8000_0007

  // ----- the processor -----

  /** Registers x0 to x31, the pc and the two writable bits of `mstatus`. */
  datatype Cpu = Cpu(x: seq<word>, pc: word, mie: bool, mpie: bool)

  /** `mstatus`: machine mode and the two interrupt bits (RISC-V Privileged Architecture, section 3.1.6.1). */
  function StatusWord(mie: bool, mpie: bool): (w: word) {
    0x1800 + (if mie then 0x8 else 0) + (if mpie then 0x80 else 0)
  }

  predicate MpieBit(w: word) {
    (w / 0x80) % 2 == 1
  }

  /** A register file: x0 reads as zero. */
  predicate RegistersOk(x: seq<word>) {
    |x| == 32 && x[0] == 0
  }

  // ----- frames -----

  /** What a task must find when it runs again. */
  datatype Context = Context(x: seq<word>, pc: word, mie: bool)

  /** The frame `trap_entry` stores. */
  function Frame(cpu: Cpu, epc: word, cause: word): (f: seq<word>)
    requires RegistersOk(cpu.x)
    ensures |f| == FRAME_WORDS
  {
    cpu.x + [epc, StatusWord(false, cpu.mie), cause, 0]
  }

  function Put(mem: seq<word>, k: nat, f: seq<word>): (r: seq<word>)
    requires k + |f| <= |mem|
    ensures |r| == |mem|
  {
    mem[..k] + f + mem[k + |f|..]
  }

  lemma PutThere(mem: seq<word>, k: nat, f: seq<word>)
    requires k + |f| <= |mem|
    ensures forall i :: 0 <= i < |f| ==> Put(mem, k, f)[k + i] == f[i]
  {
  }

  lemma PutElsewhere(mem: seq<word>, k: nat, f: seq<word>)
    requires k + |f| <= |mem|
    ensures forall i :: 0 <= i < |mem| && !(k <= i < k + |f|) ==> Put(mem, k, f)[i] == mem[i]
  {
  }

  lemma PutIs(mem: seq<word>, k: nat, f: seq<word>, r: seq<word>)
    requires k + |f| <= |mem| == |r| && r[k..k + |f|] == f
    requires forall i :: 0 <= i < |mem| && !(k <= i < k + |f|) ==> r[i] == mem[i]
    ensures r == Put(mem, k, f)
  {
    assert r[..k] == mem[..k] && r[k + |f|..] == mem[k + |f|..];
    assert r == r[..k] + r[k..k + |f|] + r[k + |f|..];
  }

  /** The frame at word `k` restores the context `c`. */
  predicate Holds(mem: seq<word>, k: nat, c: Context)
    requires k + FRAME_WORDS <= |mem| && RegistersOk(c.x)
  {
    && mem[k + 1..k + 32] == c.x[1..]
    && mem[k + MEPC_WORD] == c.pc
    && mem[k + MSTATUS_WORD] == StatusWord(false, c.mie)
  }

  /** `.Lrestore_frame` and `mret`: registers and pc from the frame at word `k`, interrupts as its MPIE says. */
  function Pop(mem: seq<word>, k: nat): Cpu
    requires k + FRAME_WORDS <= |mem|
  {
    Cpu([0] + mem[k + 1..k + 32], mem[k + MEPC_WORD] - mem[k + MEPC_WORD] % 4, MpieBit(mem[k + MSTATUS_WORD]), true)
  }

  /** The running processor in a context: a task always runs with MPIE set. */
  function Running(c: Context): Cpu {
    Cpu(c.x, c.pc, c.mie, true)
  }

  lemma PopHeld(mem: seq<word>, k: nat, c: Context)
    requires k + FRAME_WORDS <= |mem| && RegistersOk(c.x) && c.pc % 4 == 0
    requires Holds(mem, k, c)
    ensures Pop(mem, k) == Running(c)
  {
    assert [0] + c.x[1..] == c.x;
    assert MpieBit(StatusWord(false, c.mie)) == c.mie;
  }

  // ----- the kernel's side -----

  /**
   * The port's variables: `pxTopOfStack` of every task as a word address,
   * `pxCurrentTCB`, the trap depth, the remembered yield, the timer compare
   * value; `switches` counts calls of `vTaskSwitchContext`.
   */
  datatype Kernel = Kernel(tops: map<nat, nat>, current: nat, depth: nat, yieldPending: bool,
                           compare: time, counts: word, switches: nat)

  /** What the FreeRTOS kernel decides during one trap. */
  datatype Choice = Choice(tickSwitches: bool, next: nat)

  /** `vTaskSwitchContext`. */
  function Switched(k: Kernel, next: nat): Kernel {
    k.(current := next, switches := k.switches + 1)
  }

  /**
   * `trap_dispatch` on the frame at word `at`: an ecall skips its instruction
   * and yields, or leaves the yield pending if interrupts were off; a timer
   * interrupt moves the compare value and yields if the tick asks for it; any
   * other cause is fatal.
   */
  function Dispatch(mem: seq<word>, k: Kernel, at: nat, choice: Choice): (r: Option<(seq<word>, Kernel)>)
    requires at + FRAME_WORDS <= |mem|
  {
    var noted := k.(tops := k.tops[k.current := at]);
    if mem[at + MCAUSE_WORD] == CAUSE_ECALL then
      var skipped := mem[at + MEPC_WORD := (mem[at + MEPC_WORD] + 4) % WORD_MODULUS];
      Some((skipped, if MpieBit(mem[at + MSTATUS_WORD]) then Switched(noted, choice.next) else noted.(yieldPending := true)))
    else if mem[at + MCAUSE_WORD] == CAUSE_TIMER then
      var moved := noted.(compare := NextCompare(k.compare, k.counts));
      Some((mem, if choice.tickSwitches then Switched(moved, choice.next) else moved))
    else None
  }

  // ----- the machine -----

  /** A task's stack: the words from `lo` up to `hi`. */
  datatype Region = Region(lo: nat, hi: nat)

  /** Where a task stands in `freertos_port_enable_interrupts`. */
  datatype Place = User | Enabled | Decided | Cleared

  /** Bookkeeping per task: its stack, its place, and the context of its last trap or its creation. */
  datatype Note = Note(stack: Region, place: Place, saved: Context)

  datatype State = State(mem: seq<word>, cpu: Cpu, kernel: Kernel, notes: map<nat, Note>)

  predicate Disjoint(r: Region, q: Region) {
    r.hi <= q.lo || q.hi <= r.lo
  }

  /** The stack pointer is a word address with room for a frame below it. */
  predicate SpOk(r: Region, x: seq<word>)
    requires |x| == 32
  {
    x[2] % 4 == 0 && r.lo + FRAME_WORDS <= x[2] / 4 <= r.hi
  }

  predicate ContextOk(r: Region, c: Context) {
    RegistersOk(c.x) && c.pc % 4 == 0 && SpOk(r, c.x)
  }

  /** A suspended task: its frame lies in its stack, holds its context, and will enable interrupts. */
  predicate Suspended(mem: seq<word>, top: nat, n: Note) {
    && ContextOk(n.stack, n.saved) && n.saved.mie
    && n.stack.lo <= top && top + FRAME_WORDS <= n.stack.hi <= |mem|
    && Holds(mem, top, n.saved)
  }

  ghost predicate OthersSuspended(s: State)
    requires s.kernel.tops.Keys == s.notes.Keys
  {
    forall t :: t in s.notes && t != s.kernel.current ==> Suspended(s.mem, s.kernel.tops[t], s.notes[t])
  }

  ghost predicate StacksDisjoint(notes: map<nat, Note>) {
    forall t, u :: t in notes && u in notes && t != u ==> Disjoint(notes[t].stack, notes[u].stack)
  }

  /** The running task is in order. */
  predicate RunningOk(s: State)
    requires s.kernel.current in s.notes
  {
    var me := s.notes[s.kernel.current];
    && ContextOk(me.stack, Context(s.cpu.x, s.cpu.pc, s.cpu.mie)) && s.cpu.mpie
    && me.stack.hi <= |s.mem|
    // Inside `freertos_port_enable_interrupts` interrupts are on.
    && (me.place != User ==> s.cpu.mie)
  }

  /** Every reachable state satisfies this. */
  ghost predicate Inv(s: State) {
    && 4 * |s.mem| <= WORD_MODULUS
    && s.kernel.depth == 0
    && s.kernel.tops.Keys == s.notes.Keys
    && s.kernel.current in s.notes
    && RunningOk(s) && OthersSuspended(s) && StacksDisjoint(s.notes)
  }

  /** What a task finds when it next runs after trapping in `s`. */
  function TrapContext(s: State, cause: word): Context {
    Context(s.cpu.x, if cause == CAUSE_ECALL then (s.cpu.pc + 4) % WORD_MODULUS else s.cpu.pc, s.cpu.mie)
  }

  /** The running task's notes at a trap; an ecall ends a call of `freertos_port_enable_interrupts`. */
  function Noted(s: State, cause: word): (notes: map<nat, Note>)
    requires s.kernel.current in s.notes
    ensures notes.Keys == s.notes.Keys
  {
    var me := s.notes[s.kernel.current];
    s.notes[s.kernel.current := me.(saved := TrapContext(s, cause), place := if cause == CAUSE_ECALL then User else me.place)]
  }

  /** Word address of the frame a trap pushes. */
  function FrameAt(s: State): (k: int)
    requires |s.cpu.x| == 32
  {
    s.cpu.x[2] / 4 - FRAME_WORDS
  }

  /** Memory and kernel after push and dispatch. */
  function Entered(s: State, cause: word, choice: Choice): (r: Option<(seq<word>, Kernel)>)
    requires Inv(s)
  {
    Dispatch(Put(s.mem, FrameAt(s), Frame(s.cpu, s.cpu.pc, cause)), s.kernel, FrameAt(s), choice)
  }

  /** The words of a frame just put at `k`. */
  lemma FrameWords(mem: seq<word>, cpu: Cpu, cause: word, k: nat)
    requires RegistersOk(cpu.x) && k + FRAME_WORDS <= |mem|
    ensures var r := Put(mem, k, Frame(cpu, cpu.pc, cause));
            && r[k + 1..k + 32] == cpu.x[1..]
            && r[k + MEPC_WORD] == cpu.pc && r[k + MSTATUS_WORD] == StatusWord(false, cpu.mie)
            && r[k + MCAUSE_WORD] == cause
  {
    var f := Frame(cpu, cpu.pc, cause);
    var r := Put(mem, k, f);
    PutThere(mem, k, f);
    assert r[k + 1..k + 32] == f[1..32] == cpu.x[1..];
  }

  /** What push and dispatch make of memory: the interrupted context in a frame at `at`, nothing else changed. */
  ghost predicate FramePushed(before: seq<word>, mem: seq<word>, at: nat, c: Context)
    requires RegistersOk(c.x) && at + FRAME_WORDS <= |before|
  {
    && |mem| == |before| && Holds(mem, at, c)
    && forall i :: 0 <= i < |mem| && !(at <= i < at + FRAME_WORDS) ==> mem[i] == before[i]
  }

  /** What push and dispatch make of the port's variables. */
  predicate KernelMoved(s: State, cause: word, choice: Choice, k: Kernel)
    requires |s.cpu.x| == 32 && FrameAt(s) >= 0
  {
    && k.tops == s.kernel.tops[s.kernel.current := FrameAt(s)]
    && k.depth == s.kernel.depth && k.counts == s.kernel.counts
    && k.yieldPending == (s.kernel.yieldPending || (cause == CAUSE_ECALL && !s.cpu.mie))
    && k.compare == (if cause == CAUSE_TIMER then NextCompare(s.kernel.compare, s.kernel.counts) else s.kernel.compare)
    && (if Switches(s, cause, choice)
        then k.current == choice.next && k.switches == s.kernel.switches + 1
        else k.current == s.kernel.current && k.switches == s.kernel.switches)
  }

  /** Does this trap call `vTaskSwitchContext`? */
  predicate Switches(s: State, cause: word, choice: Choice) {
    if cause == CAUSE_ECALL then s.cpu.mie else choice.tickSwitches
  }

  /** Stepping over the ecall changes one word of the frame. */
  lemma SkippedHolds(before: seq<word>, mem: seq<word>, at: nat, c: Context)
    requires at + FRAME_WORDS <= |before| && RegistersOk(c.x) && FramePushed(before, mem, at, c)
    ensures FramePushed(before, mem[at + MEPC_WORD := (c.pc + 4) % WORD_MODULUS], at, c.(pc := (c.pc + 4) % WORD_MODULUS))
  {
    assert mem[at + MEPC_WORD := (c.pc + 4) % WORD_MODULUS][at + 1..at + 32] == mem[at + 1..at + 32];
  }

  lemma PushedHolds(mem: seq<word>, cpu: Cpu, cause: word, k: nat)
    requires RegistersOk(cpu.x) && k + FRAME_WORDS <= |mem|
    ensures FramePushed(mem, Put(mem, k, Frame(cpu, cpu.pc, cause)), k, Context(cpu.x, cpu.pc, cpu.mie))
    ensures Put(mem, k, Frame(cpu, cpu.pc, cause))[k + MCAUSE_WORD] == cause
  {
    FrameWords(mem, cpu, cause, k);
    PutElsewhere(mem, k, Frame(cpu, cpu.pc, cause));
  }

  /** `Dispatch` on a pushed frame. */
  lemma DispatchHolds(s: State, cause: word, choice: Choice, at: nat, mem: seq<word>)
    requires RegistersOk(s.cpu.x) && at == FrameAt(s) && at + FRAME_WORDS <= |s.mem|
    requires cause in {CAUSE_ECALL, CAUSE_TIMER}
    requires FramePushed(s.mem, mem, at, Context(s.cpu.x, s.cpu.pc, s.cpu.mie)) && mem[at + MCAUSE_WORD] == cause
    ensures var r := Dispatch(mem, s.kernel, at, choice);
            r.Some? && FramePushed(s.mem, r.value.0, at, TrapContext(s, cause)) && KernelMoved(s, cause, choice, r.value.1)
  {
    assert MpieBit(StatusWord(false, s.cpu.mie)) == s.cpu.mie;
    SkippedHolds(s.mem, mem, at, Context(s.cpu.x, s.cpu.pc, s.cpu.mie));
  }

  lemma EnteredHolds(s: State, cause: word, choice: Choice)
    requires Inv(s) && cause in {CAUSE_ECALL, CAUSE_TIMER}
    ensures Entered(s, cause, choice).Some?
    ensures FramePushed(s.mem, Entered(s, cause, choice).value.0, FrameAt(s), TrapContext(s, cause))
    ensures KernelMoved(s, cause, choice, Entered(s, cause, choice).value.1)
  {
    var at: nat := FrameAt(s);
    PushedHolds(s.mem, s.cpu, cause, at);
    DispatchHolds(s, cause, choice, at, Put(s.mem, at, Frame(s.cpu, s.cpu.pc, cause)));
  }

  /** Any other cause is fatal. */
  lemma OtherCausesAreFatal(s: State, cause: word, choice: Choice)
    requires Inv(s)
    ensures Entered(s, cause, choice) == None <==> cause != 11 && cause != 0x8000_0007
  {
    PushedHolds(s.mem, s.cpu, cause, FrameAt(s));
  }

  /**
   * Where the words of a frame lie, counted from the stack pointer that
   * `trap_entry` hands over, and where they come from and go to.
   */
  lemma FrameLayout(mem: seq<word>, k: nat, cpu: Cpu, epc: word, cause: word)
    requires RegistersOk(cpu.x) && k + 36 <= |mem|
    ensures var f := Frame(cpu, epc, cause);
      && (forall i :: 0 <= i < 32 ==> f[i] == cpu.x[i]) && f[32] == epc && f[34] == cause && f[35] == 0
      && f[33] == 0x1800 + if cpu.mie then 0x80 else 0
    ensures var c := Pop(mem, k);
      && |c.x| == 32 && c.x[0] == 0 && (forall i :: 1 <= i < 32 ==> c.x[i] == mem[k + i])
      && c.pc == mem[k + 32] / 4 * 4 && c.mie == (mem[k + 33] / 0x80 % 2 == 1) && c.mpie
  {
    var c := Pop(mem, k);
    forall i | 1 <= i < 32 ensures c.x[i] == mem[k + i] {
      assert c.x[i] == mem[k + 1..k + 32][i - 1];
    }
  }

  // ----- a whole trap -----

  ghost predicate SameWords(a: seq<word>, b: seq<word>, r: Region) {
    |a| == |b| && forall i :: r.lo <= i < r.hi && i < |a| ==> a[i] == b[i]
  }

  lemma SuspendedKept(a: seq<word>, b: seq<word>, top: nat, n: Note)
    requires Suspended(a, top, n) && SameWords(a, b, n.stack)
    ensures Suspended(b, top, n)
  {
    assert b[top + 1..top + 32] == a[top + 1..top + 32];
    assert b[top + MEPC_WORD] == a[top + MEPC_WORD] && b[top + MSTATUS_WORD] == a[top + MSTATUS_WORD];
  }

  /** The traps this machine can take in a state: a timer interrupt only while interrupts are on. */
  predicate TrapPossible(s: State, cause: word, choice: Choice)
    requires s.kernel.current in s.notes
  {
    && choice.next in s.notes
    && (cause == CAUSE_ECALL || (cause == CAUSE_TIMER && s.cpu.mie))
    && (cause == CAUSE_ECALL ==> s.notes[s.kernel.current].place in {User, Cleared})
  }

  /** Memory and kernel are those of a possible trap. */
  ghost predicate TrapEntered(s: State, cause: word, choice: Choice, mem: seq<word>, k: Kernel)
  {
    && Inv(s) && TrapPossible(s, cause, choice)
    && FramePushed(s.mem, mem, FrameAt(s), TrapContext(s, cause))
    && KernelMoved(s, cause, choice, k)
  }

  /** A task that did not run keeps its frame: the push stays on the running task's stack. */
  lemma OtherKept(s: State, cause: word, choice: Choice, mem: seq<word>, k: Kernel, t: nat)
    requires TrapEntered(s, cause, choice, mem, k) && t in s.notes && t != s.kernel.current
    ensures t in k.tops && Noted(s, cause)[t] == s.notes[t] && Suspended(mem, k.tops[t], s.notes[t])
  {
    assert Suspended(s.mem, s.kernel.tops[t], s.notes[t]);
    assert Disjoint(s.notes[t].stack, s.notes[s.kernel.current].stack);
    assert SameWords(s.mem, mem, s.notes[t].stack);
    SuspendedKept(s.mem, mem, k.tops[t], s.notes[t]);
  }

  /** The interrupted task's own frame, with interrupts on: it may be suspended. */
  lemma SelfSuspended(s: State, cause: word, choice: Choice, mem: seq<word>, k: Kernel)
    requires TrapEntered(s, cause, choice, mem, k) && s.cpu.mie
    ensures s.kernel.current in k.tops && Suspended(mem, k.tops[s.kernel.current], Noted(s, cause)[s.kernel.current])
  {
  }

  lemma NextAligned(pc: word)
    requires pc % 4 == 0
    ensures ((pc + 4) % WORD_MODULUS) % 4 == 0
  {
  }

  lemma ContextAligned(s: State, cause: word)
    requires Inv(s)
    ensures TrapContext(s, cause).pc % 4 == 0
  {
    NextAligned(s.cpu.pc);
  }

  /** The frame the dispatcher returns restores the context noted for the task it belongs to. */
  lemma Resumes(s: State, cause: word, choice: Choice, mem: seq<word>, k: Kernel)
    requires TrapEntered(s, cause, choice, mem, k)
    ensures k.current in k.tops && k.tops[k.current] + FRAME_WORDS <= |mem|
    ensures Pop(mem, k.tops[k.current]) == Running(Noted(s, cause)[k.current].saved)
  {
    if k.current == s.kernel.current {
      ContextAligned(s, cause);
      PopHeld(mem, FrameAt(s), TrapContext(s, cause));
    } else {
      OtherKept(s, cause, choice, mem, k, k.current);
      PopHeld(mem, k.tops[k.current], s.notes[k.current].saved);
    }
  }

  /** A whole trap: push, dispatch, restore whatever frame the dispatcher returns. */
  function TakeTrap(s: State, cause: word, choice: Choice): (r: State)
    requires Inv(s) && TrapPossible(s, cause, choice)
    ensures TrapEntered(s, cause, choice, r.mem, r.kernel)
    ensures r.notes == Noted(s, cause) && r.cpu == Running(r.notes[r.kernel.current].saved)
  {
    EnteredHolds(s, cause, choice);
    var (mem, k) := Entered(s, cause, choice).value;
    Resumes(s, cause, choice, mem, k);
    State(mem, Pop(mem, k.tops[k.current]), k, Noted(s, cause))
  }

  /** A trap, put together from its parts. */
  lemma TrapParts(s: State, cause: word, choice: Choice, mem: seq<word>, k: Kernel)
    requires Inv(s) && TrapPossible(s, cause, choice) && Entered(s, cause, choice) == Some((mem, k))
    ensures k.current in k.tops && k.tops[k.current] + FRAME_WORDS <= |mem|
    ensures TakeTrap(s, cause, choice) == State(mem, Pop(mem, k.tops[k.current]), k, Noted(s, cause))
  {
    EnteredHolds(s, cause, choice);
    Resumes(s, cause, choice, mem, k);
  }

  lemma StacksKept(s: State, cause: word)
    requires Inv(s)
    ensures StacksDisjoint(Noted(s, cause))
  {
    var notes := Noted(s, cause);
    forall t, u | t in notes && u in notes && t != u ensures Disjoint(notes[t].stack, notes[u].stack) {
      assert Disjoint(s.notes[t].stack, s.notes[u].stack);
    }
  }

  lemma OthersKept(s: State, cause: word, choice: Choice, mem: seq<word>, k: Kernel, t: nat)
    requires TrapEntered(s, cause, choice, mem, k) && t in s.notes && t != k.current
    ensures t in k.tops && Suspended(mem, k.tops[t], Noted(s, cause)[t])
  {
    if t == s.kernel.current {
      SelfSuspended(s, cause, choice, mem, k);
    } else {
      OtherKept(s, cause, choice, mem, k, t);
    }
  }

  /** The resumed task is in order. */
  lemma ResumedOk(s: State, cause: word, choice: Choice, r: State)
    requires TrapEntered(s, cause, choice, r.mem, r.kernel)
    requires r.notes == Noted(s, cause) && r.cpu == Running(r.notes[r.kernel.current].saved)
    ensures RunningOk(r)
  {
    if r.kernel.current != s.kernel.current {
      OtherKept(s, cause, choice, r.mem, r.kernel, r.kernel.current);
    }
  }

  lemma AllOthersKept(s: State, cause: word, choice: Choice, r: State)
    requires TrapEntered(s, cause, choice, r.mem, r.kernel) && r.notes == Noted(s, cause)
    ensures r.kernel.tops.Keys == r.notes.Keys && OthersSuspended(r)
  {
    forall t | t in r.notes && t != r.kernel.current ensures Suspended(r.mem, r.kernel.tops[t], r.notes[t]) {
      OthersKept(s, cause, choice, r.mem, r.kernel, t);
    }
  }

  lemma TrapKeeps(s: State, cause: word, choice: Choice)
    requires Inv(s) && TrapPossible(s, cause, choice)
    ensures Inv(TakeTrap(s, cause, choice))
  {
    var r := TakeTrap(s, cause, choice);
    AllOthersKept(s, cause, choice, r);
    ResumedOk(s, cause, choice, r);
    StacksKept(s, cause);
  }
}
