// Runs of the trap machine: tasks working, interrupts and yields in any order,
// tasks being created, and calls of `freertos_port_enable_interrupts` that can
// be interrupted between any two of their steps.
module TrapRuns {
  import opened Words
  import opened MachineTimer
  import opened TrapMachine

  // ----- a new task's frame -----

  /** The 16-aligned stack top `pxPortInitialiseStack` makes of `pxTopOfStack`. */
  function AlignedTop(slot: word): (top: word)
    ensures top % 16 == 0 && 0 <= (slot + 4) % WORD_MODULUS - top < 16
  {
    var end := (slot + 4) % WORD_MODULUS;
    end - end % 16
  }

  /** What a new task starts with: entry point, argument, stack top, interrupts on. */
  function FreshContext(top: word, code: word, param: word, returned: word, gp: word, tp: word): (c: Context)
    ensures RegistersOk(c.x) && c.pc == code && c.mie
    ensures c.x[1] == returned && c.x[2] == top && c.x[3] == gp && c.x[4] == tp && c.x[10] == param
  {
    Context([0, returned, top, gp, tp, 0, 0, 0, 0, 0, param] + seq(21, _ => 0), code, true)
  }

  /** Word `i` of a new frame. */
  function FreshWord(i: nat, top: word, code: word, param: word, returned: word, gp: word, tp: word): word {
    match i
    case 1 => returned
    case 2 => top
    case 3 => gp
    case 4 => tp
    case 10 => param
    case 32 => code
    case 33 => 0x1880
    case _ => 0
  }

  lemma FreshWords(top: word, code: word, param: word, returned: word, gp: word, tp: word, i: nat)
    requires i < FRAME_WORDS
    ensures FreshFrame(FreshContext(top, code, param, returned, gp, tp))[i] == FreshWord(i, top, code, param, returned, gp, tp)
  {
    var x := FreshContext(top, code, param, returned, gp, tp).x;
    assert x == [0, returned, top, gp, tp, 0, 0, 0, 0, 0, param] + seq(21, _ => 0);
    if 11 <= i < 32 {
      assert x[i] == seq(21, _ => 0)[i - 11];
    }
  }

  /** The frame `pxPortInitialiseStack` writes. */
  function FreshFrame(c: Context): (f: seq<word>)
    requires RegistersOk(c.x)
    ensures |f| == FRAME_WORDS
  {
    c.x + [c.pc, 0x1880, 0, 0]
  }

  /** Memory with these words at `k` and nothing else changed holds the new frame there. */
  lemma FreshPut(before: seq<word>, r: seq<word>, k: nat, top: word, code: word, param: word, returned: word, gp: word, tp: word)
    requires k + FRAME_WORDS <= |before| == |r|
    requires forall i :: k <= i < k + FRAME_WORDS ==> r[i] == FreshWord(i - k, top, code, param, returned, gp, tp)
    requires forall i :: 0 <= i < |r| && !(k <= i < k + FRAME_WORDS) ==> r[i] == before[i]
    ensures r == Put(before, k, FreshFrame(FreshContext(top, code, param, returned, gp, tp)))
  {
    var f := FreshFrame(FreshContext(top, code, param, returned, gp, tp));
    forall i | 0 <= i < FRAME_WORDS ensures r[k..k + FRAME_WORDS][i] == f[i] {
      FreshWords(top, code, param, returned, gp, tp, i);
    }
    PutIs(before, k, f, r);
  }

  /** A new task's frame fits its stack. */
  predicate FrameFits(mem: seq<word>, stack: Region, slot: word) {
    stack.lo + FRAME_WORDS <= AlignedTop(slot) / 4 <= stack.hi <= |mem|
  }

  lemma FreshSuspended(mem: seq<word>, stack: Region, slot: word, c: Context)
    requires FrameFits(mem, stack, slot) && RegistersOk(c.x)
    requires c.mie && c.pc % 4 == 0 && c.x[2] == AlignedTop(slot)
    ensures var k := AlignedTop(slot) / 4 - FRAME_WORDS;
            Suspended(Put(mem, k, FreshFrame(c)), k, Note(stack, User, c))
  {
    var k := AlignedTop(slot) / 4 - FRAME_WORDS;
    var f := FreshFrame(c);
    var r := Put(mem, k, f);
    assert r[k..k + 36] == f;
    assert r[k + 1..k + 32] == f[1..32] == c.x[1..];
    assert r[k + MEPC_WORD] == f[32] && r[k + MSTATUS_WORD] == f[33];
  }

  // ----- steps -----

  datatype Step =
    /** Instructions of the running task, or of the kernel on its behalf: its own stack and memory outside all stacks may change. */
    | Work(mem: seq<word>, x: seq<word>, pc: word, mie: bool, request: bool)
    | TrapTaken(cause: word, choice: Choice)
    /** `csrs mstatus, 8`. */
    | EnableBegin
    /** The test of the pending flag and the depth. */
    | EnableTest
    /** `freertos_yield_pending = 0`; an ecall follows. */
    | EnableClear
    | Create(task: nat, stack: Region, slot: word, code: word, param: word, returned: word)

  predicate OutsideOthers(s: State, mem: seq<word>) {
    forall t :: t in s.notes && t != s.kernel.current ==> Untouched(s, mem, t)
  }

  predicate Untouched(s: State, mem: seq<word>, t: nat)
    requires t in s.notes
  {
    var r := s.notes[t].stack;
    |mem| == |s.mem| && forall i :: r.lo <= i < r.hi && i < |mem| ==> mem[i] == s.mem[i]
  }

  ghost predicate StepPossible(s: State, step: Step)
    requires Inv(s)
  {
    var me := s.notes[s.kernel.current];
    match step
    case Work(mem, x, pc, mie, request) =>
      && |mem| == |s.mem| && OutsideOthers(s, mem) && ContextOk(me.stack, Context(x, pc, mie))
      && (me.place == User || (mie && !request))
    case TrapTaken(cause, choice) => TrapPossible(s, cause, choice)
    case EnableBegin => me.place == User
    case EnableTest => me.place == Enabled
    case EnableClear => me.place == Decided
    case Create(task, stack, slot, code, param, returned) =>
      && me.place == User && task !in s.notes && FrameFits(s.mem, stack, slot) && code % 4 == 0
      && forall t :: t in s.notes ==> Disjoint(stack, s.notes[t].stack)
  }

  function Moved(s: State, place: Place): (notes: map<nat, Note>)
    requires s.kernel.current in s.notes
    ensures notes.Keys == s.notes.Keys
  {
    s.notes[s.kernel.current := s.notes[s.kernel.current].(place := place)]
  }

  /** The machine with a new task, ready to run in the context `c`. */
  function WithTask(s: State, task: nat, stack: Region, slot: word, c: Context): State
    requires FrameFits(s.mem, stack, slot) && RegistersOk(c.x)
  {
    var k := AlignedTop(slot) / 4 - FRAME_WORDS;
    s.(mem := Put(s.mem, k, FreshFrame(c)), kernel := s.kernel.(tops := s.kernel.tops[task := k]),
       notes := s.notes[task := Note(stack, User, c)])
  }

  /** Timer ticks in one step. */
  function TickOf(step: Step): nat {
    if step.TrapTaken? && step.cause == CAUSE_TIMER then 1 else 0
  }

  /** `next_compare` after `n` ticks. */
  function CompareAfter(compare: time, counts: word, n: nat): time {
    if n == 0 then compare else NextCompare(CompareAfter(compare, counts, n - 1), counts)
  }

  /** One step. Only a timer trap moves the compare value, by one tick; only `EnableClear` forgets a yield. */
  ghost function After(s: State, step: Step): (r: State)
    requires Inv(s) && StepPossible(s, step)
    ensures s.kernel.yieldPending && !step.EnableClear? ==> r.kernel.yieldPending
    ensures r.kernel.counts == s.kernel.counts
    ensures r.kernel.compare == CompareAfter(s.kernel.compare, s.kernel.counts, TickOf(step))
  {
    match step
    case Work(mem, x, pc, mie, request) =>
      s.(mem := mem, cpu := Cpu(x, pc, mie, true),
         kernel := s.kernel.(yieldPending := s.kernel.yieldPending || request))
    case TrapTaken(cause, choice) => TakeTrap(s, cause, choice)
    case EnableBegin => s.(cpu := s.cpu.(mie := true), notes := Moved(s, Enabled))
    case EnableTest =>
      s.(notes := Moved(s, if s.kernel.yieldPending && s.kernel.depth == 0 then Decided else User))
    case EnableClear => s.(kernel := s.kernel.(yieldPending := false), notes := Moved(s, Cleared))
    case Create(task, stack, slot, code, param, returned) =>
      WithTask(s, task, stack, slot, FreshContext(AlignedTop(slot), code, param, returned, s.cpu.x[3], s.cpu.x[4]))
  }

  // ----- the invariant -----

  lemma MovedKeeps(s: State, place: Place, mie: bool, pending: bool)
    requires Inv(s) && (place != User ==> mie) && (s.cpu.mie ==> mie)
    ensures Inv(s.(cpu := s.cpu.(mie := mie), notes := Moved(s, place), kernel := s.kernel.(yieldPending := pending)))
  {
    var r := s.(cpu := s.cpu.(mie := mie), notes := Moved(s, place), kernel := s.kernel.(yieldPending := pending));
    forall t | t in r.notes && t != r.kernel.current ensures Suspended(r.mem, r.kernel.tops[t], r.notes[t]) {
      assert Suspended(s.mem, s.kernel.tops[t], s.notes[t]);
    }
    forall t, u | t in r.notes && u in r.notes && t != u ensures Disjoint(r.notes[t].stack, r.notes[u].stack) {
      assert Disjoint(s.notes[t].stack, s.notes[u].stack);
    }
  }

  lemma WorkKeeps(s: State, step: Step)
    requires Inv(s) && step.Work? && StepPossible(s, step)
    ensures Inv(After(s, step))
  {
    var r := After(s, step);
    forall t | t in r.notes && t != r.kernel.current ensures Suspended(r.mem, r.kernel.tops[t], r.notes[t]) {
      assert Suspended(s.mem, s.kernel.tops[t], s.notes[t]);
      assert Untouched(s, step.mem, t);
      SuspendedKept(s.mem, r.mem, s.kernel.tops[t], s.notes[t]);
    }
  }

  /** A new task may be created: its stack is its own. */
  ghost predicate Creatable(s: State, task: nat, stack: Region, slot: word, c: Context) {
    && Inv(s) && task !in s.notes && FrameFits(s.mem, stack, slot)
    && RegistersOk(c.x) && c.mie && c.pc % 4 == 0 && c.x[2] == AlignedTop(slot)
    && forall t :: t in s.notes ==> Disjoint(stack, s.notes[t].stack)
  }

  lemma CreateElsewhere(s: State, task: nat, stack: Region, slot: word, c: Context, t: nat)
    requires Creatable(s, task, stack, slot, c) && t in s.notes
    ensures SameWords(s.mem, WithTask(s, task, stack, slot, c).mem, s.notes[t].stack)
  {
    assert Disjoint(stack, s.notes[t].stack);
    PutElsewhere(s.mem, AlignedTop(slot) / 4 - FRAME_WORDS, FreshFrame(c));
  }

  lemma CreateLeavesSuspended(s: State, task: nat, stack: Region, slot: word, c: Context, t: nat)
    requires Creatable(s, task, stack, slot, c) && t in s.notes && t != s.kernel.current
    ensures Suspended(WithTask(s, task, stack, slot, c).mem, s.kernel.tops[t], s.notes[t])
  {
    assert Suspended(s.mem, s.kernel.tops[t], s.notes[t]);
    CreateElsewhere(s, task, stack, slot, c, t);
    SuspendedKept(s.mem, WithTask(s, task, stack, slot, c).mem, s.kernel.tops[t], s.notes[t]);
  }

  lemma CreateSeparates(s: State, task: nat, stack: Region, slot: word, c: Context)
    requires Creatable(s, task, stack, slot, c)
    ensures StacksDisjoint(WithTask(s, task, stack, slot, c).notes)
  {
    var notes := WithTask(s, task, stack, slot, c).notes;
    forall t, u | t in notes && u in notes && t != u ensures Disjoint(notes[t].stack, notes[u].stack) {
      assert t != task && u != task ==> Disjoint(s.notes[t].stack, s.notes[u].stack);
    }
  }

  lemma CreateKeeps(s: State, task: nat, stack: Region, slot: word, c: Context)
    requires Creatable(s, task, stack, slot, c)
    ensures Inv(WithTask(s, task, stack, slot, c))
  {
    var r := WithTask(s, task, stack, slot, c);
    assert s.kernel.current != task;
    CreateSeparates(s, task, stack, slot, c);
    forall t | t in r.notes && t != r.kernel.current ensures Suspended(r.mem, r.kernel.tops[t], r.notes[t]) {
      if t == task {
        FreshSuspended(s.mem, stack, slot, c);
      } else {
        CreateLeavesSuspended(s, task, stack, slot, c, t);
      }
    }
  }

  /** Every step keeps the invariant. */
  lemma StepKeeps(s: State, step: Step)
    requires Inv(s) && StepPossible(s, step)
    ensures Inv(After(s, step))
  {
    match step
    case Work(_, _, _, _, _) => WorkKeeps(s, step);
    case TrapTaken(cause, choice) => TrapKeeps(s, cause, choice);
    case EnableBegin => MovedKeeps(s, Enabled, true, s.kernel.yieldPending);
    case EnableTest =>
      MovedKeeps(s, if s.kernel.yieldPending && s.kernel.depth == 0 then Decided else User, s.cpu.mie, s.kernel.yieldPending);
    case EnableClear => MovedKeeps(s, Cleared, s.cpu.mie, false);
    case Create(task, stack, slot, code, param, returned) =>
      CreateKeeps(s, task, stack, slot, FreshContext(AlignedTop(slot), code, param, returned, s.cpu.x[3], s.cpu.x[4]));
  }

  // ----- runs -----

  /** A run, last step outermost. */
  datatype Run = Start | Then(before: Run, step: Step)

  ghost predicate CanRun(s: State, r: Run)
    requires Inv(s)
    decreases r, 0
  {
    r.Start? || (CanRun(s, r.before) && StepPossible(Reach(s, r.before), r.step))
  }

  /** The state a run ends in; the invariant holds there. */
  ghost function Reach(s: State, r: Run): (e: State)
    requires Inv(s) && CanRun(s, r)
    ensures Inv(e)
    decreases r, 1
  {
    if r.Start? then s else
      StepKeeps(Reach(s, r.before), r.step);
      After(Reach(s, r.before), r.step)
  }

  /** Every task is suspended, each on its own stack. */
  ghost predicate AllSuspended(mem: seq<word>, tops: map<nat, nat>, notes: map<nat, Note>) {
    && tops.Keys == notes.Keys && StacksDisjoint(notes)
    && forall t :: t in notes ==> Suspended(mem, tops[t], notes[t])
  }

  /** `xPortStartScheduler`: restoring the chosen task's frame establishes the invariant. */
  lemma SchedulerStarts(mem: seq<word>, kernel: Kernel, notes: map<nat, Note>)
    requires 4 * |mem| <= WORD_MODULUS && kernel.depth == 0
    requires AllSuspended(mem, kernel.tops, notes) && kernel.current in notes
    ensures kernel.tops[kernel.current] + FRAME_WORDS <= |mem|
    ensures Inv(State(mem, Pop(mem, kernel.tops[kernel.current]), kernel, notes))
    ensures Pop(mem, kernel.tops[kernel.current]) == Running(notes[kernel.current].saved)
  {
    var me := notes[kernel.current];
    assert Suspended(mem, kernel.tops[kernel.current], me);
    PopHeld(mem, kernel.tops[kernel.current], me.saved);
  }

  // ----- isolation -----

  /** Task `t` runs at no point of the run. */
  ghost predicate Away(s: State, r: Run, t: nat)
    requires Inv(s) && CanRun(s, r)
    decreases r
  {
    Reach(s, r).kernel.current != t && (r.Then? ==> Away(s, r.before, t))
  }

  lemma TrapIsolates(s: State, cause: word, choice: Choice, t: nat)
    requires Inv(s) && TrapPossible(s, cause, choice) && t in s.notes && t != s.kernel.current
    ensures t in TakeTrap(s, cause, choice).notes && TakeTrap(s, cause, choice).notes[t] == s.notes[t]
    ensures SameWords(s.mem, TakeTrap(s, cause, choice).mem, s.notes[t].stack)
  {
    assert Disjoint(s.notes[t].stack, s.notes[s.kernel.current].stack);
  }

  /** One step of another task leaves a suspended task's context and stack alone. */
  lemma StepIsolates(s: State, step: Step, t: nat)
    requires Inv(s) && StepPossible(s, step) && t in s.notes && t != s.kernel.current
    ensures t in After(s, step).notes && After(s, step).notes[t] == s.notes[t]
    ensures SameWords(s.mem, After(s, step).mem, s.notes[t].stack)
  {
    match step
    case Work(mem, _, _, _, _) => assert Untouched(s, mem, t);
    case TrapTaken(cause, choice) => TrapIsolates(s, cause, choice, t);
    case EnableBegin =>
    case EnableTest =>
    case EnableClear =>
    case Create(task, stack, slot, code, param, returned) =>
      CreateElsewhere(s, task, stack, slot,
                      FreshContext(AlignedTop(slot), code, param, returned, s.cpu.x[3], s.cpu.x[4]), t);
  }

  lemma {:induction false} AwayIsolates(s: State, r: Run, t: nat)
    requires Inv(s) && CanRun(s, r) && t in s.notes && Away(s, r, t)
    ensures t in Reach(s, r).notes && Reach(s, r).notes[t] == s.notes[t]
    ensures SameWords(s.mem, Reach(s, r).mem, s.notes[t].stack)
    decreases r
  {
    if r.Then? {
      AwayIsolates(s, r.before, t);
      StepIsolates(Reach(s, r.before), r.step, t);
    }
  }

  /** However long a task is away, it is resumed with the context and the stack it left. */
  lemma ResumedExactly(s: State, r: Run, step: Step, t: nat)
    requires Inv(s) && CanRun(s, r) && t in s.notes && Away(s, r, t)
    requires StepPossible(Reach(s, r), step) && After(Reach(s, r), step).kernel.current == t
    ensures After(Reach(s, r), step).cpu == Running(s.notes[t].saved)
    ensures SameWords(s.mem, After(Reach(s, r), step).mem, s.notes[t].stack)
  {
    AwayIsolates(s, r, t);
    StepIsolates(Reach(s, r), step, t);
    assert Reach(s, r).kernel.current != t;
  }

  /** A trap touches the trapping task's stack only below its stack pointer. */
  lemma TrapBelowStackPointer(s: State, cause: word, choice: Choice)
    requires Inv(s) && TrapPossible(s, cause, choice)
    ensures SameWords(s.mem, TakeTrap(s, cause, choice).mem, Region(s.cpu.x[2] / 4, s.notes[s.kernel.current].stack.hi))
  {
  }

  /**
   * Isolation: a task that trapped and made way gets back its registers, its
   * interrupt state, its stack from the stack pointer up, and the pc it trapped
   * at (timer) or the one after the ecall. `m` is the state after the trap;
   * `TrapKeeps` shows that it always satisfies the invariant repeated here.
   */
  lemma TrapIsInvisible(s: State, cause: word, choice: Choice, m: State, r: Run, step: Step, e: State)
    requires Inv(s) && TrapPossible(s, cause, choice) && m == TakeTrap(s, cause, choice)
    requires Inv(m) && CanRun(m, r) && Away(m, r, s.kernel.current)
    requires StepPossible(Reach(m, r), step) && e == After(Reach(m, r), step)
    requires e.kernel.current == s.kernel.current
    ensures e.cpu == Running(TrapContext(s, cause))
    ensures SameWords(s.mem, e.mem, Region(s.cpu.x[2] / 4, s.notes[s.kernel.current].stack.hi))
  {
    TrapBelowStackPointer(s, cause, choice);
    TrapNotes(s, cause, choice);
    ResumedExactly(m, r, step, s.kernel.current);
    assert SameWords(m.mem, e.mem, s.notes[s.kernel.current].stack);
  }

  lemma TrapNotes(s: State, cause: word, choice: Choice)
    requires Inv(s) && TrapPossible(s, cause, choice)
    ensures var me := s.kernel.current;
            && me in TakeTrap(s, cause, choice).notes
            && TakeTrap(s, cause, choice).notes[me].saved == TrapContext(s, cause)
            && TakeTrap(s, cause, choice).notes[me].stack == s.notes[me].stack
  {
  }

  /** A trap that keeps the task running returns to it in the same way. */
  lemma TrapReturns(s: State, cause: word, choice: Choice)
    requires Inv(s) && TrapPossible(s, cause, choice)
    requires TakeTrap(s, cause, choice).kernel.current == s.kernel.current
    ensures TakeTrap(s, cause, choice).cpu == Running(TrapContext(s, cause))
  {
  }

  /**
   * A new task first runs at its entry point, with its argument, a 16-aligned
   * stack pointer and interrupts on. `StepKeeps` shows `Inv(m)` always holds.
   */
  lemma FreshTaskStarts(s: State, make: Step, m: State, r: Run, step: Step, e: State)
    requires Inv(s) && make.Create? && StepPossible(s, make) && m == After(s, make)
    requires Inv(m) && CanRun(m, r) && Away(m, r, make.task)
    requires StepPossible(Reach(m, r), step) && e == After(Reach(m, r), step)
    requires e.kernel.current == make.task
    ensures StartsAt(e.cpu, make, s.cpu)
  {
    FreshNote(s, make);
    ResumedExactly(m, r, step, make.task);
  }

  predicate StartsAt(cpu: Cpu, make: Step, creator: Cpu)
    requires make.Create? && |creator.x| == 32
  {
    && |cpu.x| == 32 && cpu.pc == make.code && cpu.mie
    && cpu.x[10] == make.param && cpu.x[1] == make.returned
    && cpu.x[3] == creator.x[3] && cpu.x[4] == creator.x[4]
    && (forall i :: 0 <= i < 32 && i !in {1, 2, 3, 4, 10} ==> cpu.x[i] == 0)
    && cpu.x[2] % 16 == 0 && make.stack.lo < cpu.x[2] / 4 <= make.stack.hi
    && 0 <= (make.slot + 4) % WORD_MODULUS - cpu.x[2] < 16
  }

  lemma FreshNote(s: State, make: Step)
    requires Inv(s) && make.Create? && StepPossible(s, make)
    ensures make.task in After(s, make).notes
    ensures StartsAt(Running(After(s, make).notes[make.task].saved), make, s.cpu)
  {
  }

  // ----- interrupts off -----

  /** A task that would run, or runs, with interrupts off. */
  predicate Masked(s: State, t: nat)
    requires t in s.kernel.tops && s.kernel.tops[t] + FRAME_WORDS <= |s.mem|
  {
    if t == s.kernel.current then !s.cpu.mie else !MpieBit(s.mem[s.kernel.tops[t] + MSTATUS_WORD])
  }

  /** In every reachable state at most one task, the running one, has interrupts off. */
  lemma OnlyTheRunningTaskIsMasked(s: State, r: Run, t: nat)
    requires Inv(s) && CanRun(s, r) && t in Reach(s, r).notes && t != Reach(s, r).kernel.current
    ensures var e := Reach(s, r); t in e.kernel.tops && e.kernel.tops[t] + FRAME_WORDS <= |e.mem| && !Masked(e, t)
  {
    SuspendedUnmasked(Reach(s, r), t);
  }

  lemma SuspendedUnmasked(e: State, t: nat)
    requires Inv(e) && t in e.notes && t != e.kernel.current
    ensures t in e.kernel.tops && e.kernel.tops[t] + FRAME_WORDS <= |e.mem| && !Masked(e, t)
  {
    assert Suspended(e.mem, e.kernel.tops[t], e.notes[t]);
    assert MpieBit(StatusWord(false, true));
  }

  /** No step leaves a task that has interrupts off. */
  lemma MaskedTaskKeepsRunning(s: State, step: Step)
    requires Inv(s) && StepPossible(s, step) && !s.cpu.mie
    ensures After(s, step).kernel.current == s.kernel.current
  {
  }

  /** One instruction that only sets the interrupt bit, or asks for a yield. */
  function Flags(s: State, mie: bool, request: bool): Step {
    Work(s.mem, s.cpu.x, s.cpu.pc, mie, request)
  }

  lemma FlagsAreWork(s: State, mie: bool, request: bool)
    requires Inv(s) && s.notes[s.kernel.current].place == User
    ensures StepPossible(s, Flags(s, mie, request))
    ensures var r := After(s, Flags(s, mie, request));
      && Inv(r) && r == s.(cpu := s.cpu.(mie := mie), kernel := s.kernel.(yieldPending := s.kernel.yieldPending || request))
  {
    StepKeeps(s, Flags(s, mie, request));
  }

  /** The mask word that tells whether interrupts were on, and what giving it back makes of them. */
  function MaskWord(mie: bool): word {
    if mie then 8 else 0
  }

  predicate Unmasked(mie: bool, told: word) {
    mie || told != 0
  }

  /** No step of the run turns interrupts on. */
  predicate StaysMasked(r: Run) {
    r.Start? || (StaysMasked(r.before) && !r.step.EnableBegin? && (r.step.Work? ==> !r.step.mie))
  }

  lemma MaskedStep(s: State, step: Step)
    requires Inv(s) && StepPossible(s, step) && !s.cpu.mie
    requires !step.EnableBegin? && (step.Work? ==> !step.mie)
    ensures After(s, step).kernel.current == s.kernel.current && !After(s, step).cpu.mie
  {
    if step.TrapTaken? {
      TrapReturns(s, step.cause, step.choice);
    }
  }

  /** A masked section is not interrupted, whatever is done and whatever yields are asked for in it. */
  lemma {:induction false} MaskedSectionIsAtomic(s: State, r: Run)
    requires Inv(s) && CanRun(s, r) && !s.cpu.mie && StaysMasked(r)
    ensures Reach(s, r).kernel.current == s.kernel.current && !Reach(s, r).cpu.mie
    decreases r
  {
    if r.Then? {
      MaskedSectionIsAtomic(s, r.before);
      MaskedStep(Reach(s, r.before), r.step);
    }
  }

  /**
   * Masking, any masked section, and giving the mask back: the same task runs,
   * with interrupts as it had them. (An inner pair of a nesting gives back a mask
   * of 0, which keeps the outer section masked.)
   */
  lemma MaskPairRestores(s: State, m: State, r: Run)
    requires Inv(s) && s.notes[s.kernel.current].place == User
    requires StepPossible(s, Flags(s, false, false)) && m == After(s, Flags(s, false, false))
    requires Inv(m) && CanRun(m, r) && StaysMasked(r)
    ensures Reach(m, r).kernel.current == s.kernel.current
    ensures Unmasked(Reach(m, r).cpu.mie, MaskWord(s.cpu.mie)) == s.cpu.mie
  {
    MaskedSectionIsAtomic(m, r);
  }

  // ----- the remembered yield -----

  /** The run contains no step that forgets a yield. */
  predicate NeverCleared(r: Run) {
    r.Start? || (!r.step.EnableClear? && NeverCleared(r.before))
  }

  /** A remembered yield stays remembered until a task clears it on its way to an ecall. */
  lemma {:induction false} YieldStaysPending(s: State, r: Run)
    requires Inv(s) && CanRun(s, r) && s.kernel.yieldPending && NeverCleared(r)
    ensures Reach(s, r).kernel.yieldPending
    decreases r
  {
    if r.Then? {
      YieldStaysPending(s, r.before);
    }
  }

  /** What one step can do to a task's place in `freertos_port_enable_interrupts`. */
  lemma PlaceMoves(s: State, step: Step, t: nat)
    requires Inv(s) && StepPossible(s, step) && t in s.notes && s.kernel.yieldPending && !step.EnableClear?
    requires s.notes[t].place in {Enabled, Decided}
    ensures t in After(s, step).notes && After(s, step).notes[t].place in {Enabled, Decided}
  {
    if t != s.kernel.current {
      StepIsolates(s, step, t);
    }
  }

  /**
   * A call of `freertos_port_enable_interrupts` that begins while a yield is
   * pending cannot return before some task has cleared the flag for its ecall.
   */
  lemma {:induction false} NoSilentReturn(s: State, r: Run, t: nat)
    requires Inv(s) && CanRun(s, r) && NeverCleared(r)
    requires t in s.notes && s.kernel.yieldPending && s.notes[t].place in {Enabled, Decided}
    ensures t in Reach(s, r).notes && Reach(s, r).notes[t].place in {Enabled, Decided}
    decreases r
  {
    if r.Then? {
      NoSilentReturn(s, r.before, t);
      YieldStaysPending(s, r.before);
      PlaceMoves(Reach(s, r.before), r.step, t);
    }
  }

  /** A yield asked for with interrupts off is remembered, and the task goes on. */
  lemma MaskedYieldIsRemembered(s: State, choice: Choice)
    requires Inv(s) && TrapPossible(s, CAUSE_ECALL, choice) && !s.cpu.mie
    ensures var e := TakeTrap(s, CAUSE_ECALL, choice);
            && e.kernel.yieldPending && e.kernel.current == s.kernel.current
            && e.kernel.switches == s.kernel.switches && !e.cpu.mie
  {
  }

  /** Flags cleared by task `t` in a run. */
  ghost function ClearsBy(s: State, r: Run, t: nat): nat
    requires Inv(s) && CanRun(s, r)
    decreases r
  {
    if r.Start? then 0
    else ClearsBy(s, r.before, t) + if r.step.EnableClear? && Reach(s, r.before).kernel.current == t then 1 else 0
  }

  /** Is this step the ecall that follows a cleared flag, by task `t`? */
  predicate HandsOver(s: State, step: Step, t: nat)
    requires s.kernel.current in s.notes
  {
    step.TrapTaken? && step.cause == CAUSE_ECALL && s.kernel.current == t && s.notes[t].place == Cleared
  }

  ghost function HandoversBy(s: State, r: Run, t: nat): nat
    requires Inv(s) && CanRun(s, r)
    decreases r
  {
    if r.Start? then 0
    else HandoversBy(s, r.before, t) + if HandsOver(Reach(s, r.before), r.step, t) then 1 else 0
  }

  function InHand(n: Note): nat {
    if n.place == Cleared then 1 else 0
  }

  /** The ecall after a cleared flag always reaches `vTaskSwitchContext`. */
  lemma HandoverSwitches(s: State, step: Step, t: nat)
    requires Inv(s) && StepPossible(s, step) && HandsOver(s, step, t)
    ensures After(s, step).kernel.switches == s.kernel.switches + 1
    ensures After(s, step).kernel.current == step.choice.next
  {
  }

  lemma StepHandsOver(s: State, step: Step, t: nat)
    requires Inv(s) && StepPossible(s, step) && t in s.notes
    ensures t in After(s, step).notes
    ensures InHand(After(s, step).notes[t]) + (if HandsOver(s, step, t) then 1 else 0)
         == InHand(s.notes[t]) + if step.EnableClear? && s.kernel.current == t then 1 else 0
  {
    if t != s.kernel.current {
      StepIsolates(s, step, t);
    }
  }

  /** Every flag a task clears becomes one call of the scheduler by that task, at most one of them still to come. */
  lemma {:induction false} ClearedBecomesSwitched(s: State, r: Run, t: nat)
    requires Inv(s) && CanRun(s, r) && t in s.notes
    ensures t in Reach(s, r).notes
    ensures InHand(s.notes[t]) + ClearsBy(s, r, t) == HandoversBy(s, r, t) + InHand(Reach(s, r).notes[t])
    decreases r
  {
    if r.Then? {
      ClearedBecomesSwitched(s, r.before, t);
      StepHandsOver(Reach(s, r.before), r.step, t);
    }
  }

  // ----- ticks -----

  function TimerTraps(r: Run): nat {
    if r.Start? then 0 else TimerTraps(r.before) + TickOf(r.step)
  }

  /** The compare value `c` is `n` ticks after `from`. */
  predicate TicksAfter(c: time, from: time, counts: word, n: nat) {
    c == CompareAfter(from, counts, n)
  }

  lemma {:induction false} TicksAdd(from: time, c: time, d: time, counts: word, n: nat, m: nat, total: nat)
    requires TicksAfter(c, from, counts, n) && TicksAfter(d, c, counts, m) && total == n + m
    ensures TicksAfter(d, from, counts, total)
    decreases m
  {
    if m > 0 {
      TicksAdd(from, c, CompareAfter(c, counts, m - 1), counts, n, m - 1, total - 1);
    }
  }

  lemma StepTicks(s: State, r: Run)
    requires Inv(s) && CanRun(s, r) && r.Then?
    ensures Reach(s, r).kernel.counts == Reach(s, r.before).kernel.counts
    ensures TicksAfter(Reach(s, r).kernel.compare, Reach(s, r.before).kernel.compare,
                       Reach(s, r.before).kernel.counts, TickOf(r.step))
  {
    assert Reach(s, r) == After(Reach(s, r.before), r.step);
  }

  /** Only timer traps move the compare value, each by one tick, whatever else tasks do. */
  lemma {:induction false} CompareCountsTicks(s: State, r: Run, c: time, counts: word)
    requires Inv(s) && CanRun(s, r) && c == Reach(s, r).kernel.compare && counts == s.kernel.counts
    ensures Reach(s, r).kernel.counts == counts && TicksAfter(c, s.kernel.compare, counts, TimerTraps(r))
    decreases r
  {
    if r.Then? {
      var b := Reach(s, r.before).kernel.compare;
      CompareCountsTicks(s, r.before, b, counts);
      StepTicks(s, r);
      TicksAdd(s.kernel.compare, b, c, counts, TimerTraps(r.before), TickOf(r.step), TimerTraps(r));
    }
  }
}
