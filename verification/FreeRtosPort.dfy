// The FreeRTOS port itself (`port.c`, `portmacro.h` and the register traffic of
// `trap_entry.S`), updating memory, processor and kernel variables in place.
// Each method is proved to do what the trap machine's functions say.
module FreeRtosPort {
  import opened Words
  import opened MachineTimer
  import opened TrapMachine
  import opened TrapRuns

  class Port {
    // The processor and memory.
    const ram: array<word>
    const x: array<word>
    var pc: word
    var mie: bool
    var mpie: bool
    // `pxTopOfStack` of every task, `pxCurrentTCB`, and the port's statics.
    var tops: map<nat, nat>
    var current: nat
    var depth: nat
    var yieldPending: bool
    var counts: word
    var nextCompare: time
    const timer: CompareRegister
    // Calls of `vTaskSwitchContext`, and the tasks' notes.
    ghost var switches: nat
    ghost var notes: map<nat, Note>

    constructor (ram: array<word>, x: array<word>, timer: CompareRegister)
      requires ram != x
      ensures this.ram == ram && this.x == x && this.timer == timer
      ensures depth == 0 && !yieldPending && tops == map[] && notes == map[] && switches == 0
    {
      this.ram, this.x, this.timer := ram, x, timer;
      pc, mie, mpie := 0, false, true;
      tops, current, depth, yieldPending, counts, nextCompare := map[], 0, 0, false, 0, 0;
      switches, notes := 0, map[];
    }

    predicate Shaped()
      reads x
    {
      ram != x && x.Length == 32 && x[0] == 0
    }

    function Processor(): Cpu
      reads x, `pc, `mie, `mpie
    {
      Cpu(x[..], pc, mie, mpie)
    }

    ghost function Variables(): Kernel
      reads `tops, `current, `depth, `yieldPending, `nextCompare, `counts, `switches
    {
      Kernel(tops, current, depth, yieldPending, nextCompare, counts, switches)
    }

    ghost function Abstract(): State
      reads this, ram, x
    {
      State(ram[..], Processor(), Variables(), notes)
    }

    ghost predicate Valid()
      reads this, ram, x
    {
      Shaped() && Inv(Abstract())
    }

    // ----- frames -----

    /** The stores of `trap_entry`, after the hardware has saved and cleared MIE. */
    method PushFrame(cause: word) returns (frame: nat)
      requires Shaped() && FRAME_BYTES <= x[2] && x[2] / 4 <= ram.Length
      modifies ram, `mie, `mpie
      ensures frame == old(x[2]) / 4 - FRAME_WORDS
      ensures ram[..] == Put(old(ram[..]), frame, Frame(old(Processor()), pc, cause))
      ensures !mie && mpie == old(mie)
    {
      mpie, mie := mie, false;
      frame := x[2] / 4 - FRAME_WORDS;
      forall i | 0 <= i < 32 {
        ram[frame + i] := x[i];
      }
      ram[frame + MEPC_WORD] := pc;
      ram[frame + MSTATUS_WORD] := StatusWord(mie, mpie);
      ram[frame + MCAUSE_WORD] := cause;
      ram[frame + 35] := 0;
      ghost var f := Frame(old(Processor()), pc, cause);
      assert ram[frame..frame + FRAME_WORDS] == f;
      PutIs(old(ram[..]), frame, f, ram[..]);
    }

    /** `.Lrestore_frame` and `mret`. */
    method PopFrame(frame: nat)
      requires Shaped() && frame + FRAME_WORDS <= ram.Length
      modifies x, `pc, `mie, `mpie
      ensures Processor() == Pop(ram[..], frame) && x[0] == 0
      ensures Variables() == old(Variables()) && ram[..] == old(ram[..])
    {
      pc := ram[frame + MEPC_WORD] - ram[frame + MEPC_WORD] % 4;
      var status := ram[frame + MSTATUS_WORD];
      forall i | 1 <= i < 32 {
        x[i] := ram[frame + i];
      }
      mie, mpie := MpieBit(status), true;
      assert x[..] == [0] + ram[..][frame + 1..frame + 32];
    }

    /** `pxPortInitialiseStack`. */
    method InitialiseStack(slot: word, code: word, param: word, returned: word) returns (frame: nat)
      requires Shaped() && FRAME_BYTES <= AlignedTop(slot) && AlignedTop(slot) / 4 <= ram.Length
      modifies ram
      ensures frame == AlignedTop(slot) / 4 - FRAME_WORDS
      ensures ram[..] == Put(old(ram[..]), frame,
                             FreshFrame(FreshContext(AlignedTop(slot), code, param, returned, x[3], x[4])))
    {
      var end := (slot + 4) % WORD_MODULUS;
      var top: word := end - end % 16;
      frame := top / 4 - FRAME_WORDS;
      forall i | 0 <= i < FRAME_WORDS {
        ram[frame + i] := 0;
      }
      ram[frame + 1] := returned;
      ram[frame + 2] := top;
      ram[frame + 3] := x[3];
      ram[frame + 4] := x[4];
      ram[frame + 10] := param;
      ram[frame + MEPC_WORD] := code;
      ram[frame + MSTATUS_WORD] := 0x1880;
      ghost var r := ram[..];
      assert top == AlignedTop(slot);
      assert forall i :: frame <= i < frame + FRAME_WORDS ==> r[i] == FreshWord(i - frame, top, code, param, returned, x[3], x[4]);
      FreshPut(old(ram[..]), r, frame, top, code, param, returned, x[3], x[4]);
    }

    // ----- traps -----

    /** `vTaskSwitchContext`, with the kernel's choice. */
    method SwitchContext(next: nat)
      modifies `current, `switches
      ensures current == next && switches == old(switches) + 1
    {
      current, switches := next, switches + 1;
    }

    /** `trap_dispatch`; `None` stands for `freertos_fatal_trap`, which does not return. */
    method TrapDispatch(frame: nat, choice: Choice) returns (r: Option<nat>)
      requires Shaped() && frame + FRAME_WORDS <= ram.Length
      requires choice.next in tops
      modifies ram, `tops, `current, `depth, `yieldPending, `nextCompare, `switches, timer
      ensures r.Some? <==> Dispatch(old(ram[..]), old(Variables()), frame, choice).Some?
      ensures r.Some? ==> Dispatch(old(ram[..]), old(Variables()), frame, choice) == Some((ram[..], Variables()))
      ensures r.Some? ==> current in tops && r.value == tops[current]
      ensures old(ram[frame + MCAUSE_WORD]) == CAUSE_TIMER ==> timer.Compare() == nextCompare
    {
      tops := tops[current := frame];
      depth := depth + 1;
      if ram[frame + MCAUSE_WORD] == CAUSE_ECALL {
        ram[frame + MEPC_WORD] := (ram[frame + MEPC_WORD] + 4) % WORD_MODULUS;
        if MpieBit(ram[frame + MSTATUS_WORD]) {
          SwitchContext(choice.next);
        } else {
          yieldPending := true;
        }
      } else if ram[frame + MCAUSE_WORD] == CAUSE_TIMER {
        nextCompare := (nextCompare + counts) % TIME_MODULUS;
        timer.SetCompare(nextCompare);
        if choice.tickSwitches {
          SwitchContext(choice.next);
        }
      } else {
        return None;
      }
      depth := depth - 1;
      r := Some(tops[current]);
    }

    /** The first half of a trap: push and dispatch. */
    method EnterTrap(cause: word, choice: Choice) returns (frame: nat)
      requires Valid() && TrapPossible(Abstract(), cause, choice)
      modifies ram, `mie, `mpie, `tops, `current, `depth, `yieldPending, `nextCompare, `switches, timer
      ensures Entered(old(Abstract()), cause, choice) == Some((ram[..], Variables()))
      ensures current in tops && frame == tops[current]
      ensures cause == CAUSE_TIMER ==> timer.Compare() == nextCompare
    {
      ghost var s := Abstract();
      EnteredHolds(s, cause, choice);
      FrameWords(s.mem, s.cpu, cause, FrameAt(s));
      var at := PushFrame(cause);
      ghost var pushed := ram[..];
      assert Variables() == s.kernel;
      assert Entered(s, cause, choice) == Dispatch(pushed, s.kernel, at, choice);
      var r := TrapDispatch(at, choice);
      frame := r.value;
    }

    /** A whole trap: push, dispatch, restore. */
    method TakeTrap(cause: word, choice: Choice)
      requires Valid() && TrapPossible(Abstract(), cause, choice)
      modifies this, ram, x, timer
      ensures Abstract() == TrapMachine.TakeTrap(old(Abstract()), cause, choice)
      ensures Valid()
      ensures cause == CAUSE_TIMER ==> timer.Compare() == nextCompare
    {
      ghost var s := Abstract();
      TrapKeeps(s, cause, choice);
      var frame := EnterTrap(cause, choice);
      ghost var e := TrapMachine.TakeTrap(s, cause, choice);
      TrapParts(s, cause, choice, ram[..], Variables());
      assert e.mem == ram[..] && e.kernel == Variables();
      PopFrame(frame);
      notes := Noted(s, cause);
      assert e.mem == ram[..] && e.cpu == Processor() && e.kernel == Variables();
      StateParts(e, ram[..], Processor(), Variables(), notes);
    }

    // ----- interrupts and yields -----

    /** The machine is in order and its task outside `freertos_port_enable_interrupts`. */
    ghost predicate AtUser()
      reads this, ram, x
    {
      Valid() && notes[current].place == User
    }

    /** `freertos_port_request_yield`: from a task, a step of its work; in a trap, the flag alone. */
    method RequestYield()
      modifies `yieldPending
      ensures yieldPending
      ensures old(AtUser()) ==> Valid() && Abstract() == After(old(Abstract()), Flags(old(Abstract()), mie, true))
    {
      ghost var s := Abstract();
      if AtUser() {
        FlagsAreWork(s, mie, true);
      }
      yieldPending := true;
      StateParts(Abstract(), s.mem, s.cpu, s.kernel.(yieldPending := true), s.notes);
    }

    /** `csrs mstatus, 8`. */
    method EnableMie()
      requires Valid() && notes[current].place == User
      modifies `mie, `notes
      ensures StepPossible(old(Abstract()), EnableBegin) && Abstract() == After(old(Abstract()), EnableBegin) && Valid()
    {
      ghost var s := Abstract();
      StepKeeps(s, EnableBegin);
      mie := true;
      notes := Moved(s, Enabled);
      assert Abstract() == After(s, EnableBegin);
    }

    /** Is there a yield to hand over, outside a trap? */
    method TestPending() returns (pending: bool)
      requires Valid() && notes[current].place == Enabled
      modifies `notes
      ensures pending == (yieldPending && depth == 0)
      ensures StepPossible(old(Abstract()), EnableTest) && Abstract() == After(old(Abstract()), EnableTest) && Valid()
    {
      ghost var s := Abstract();
      StepKeeps(s, EnableTest);
      pending := yieldPending && depth == 0;
      notes := Moved(s, if pending then Decided else User);
      assert Abstract() == After(s, EnableTest);
    }

    /** `freertos_yield_pending = 0`. */
    method ClearPending()
      requires Valid() && notes[current].place == Decided
      modifies `yieldPending, `notes
      ensures StepPossible(old(Abstract()), EnableClear) && Abstract() == After(old(Abstract()), EnableClear) && Valid()
    {
      ghost var s := Abstract();
      StepKeeps(s, EnableClear);
      yieldPending := false;
      notes := Moved(s, Cleared);
      assert Abstract() == After(s, EnableClear);
    }

    /**
     * `freertos_port_enable_interrupts`, not interrupted on its way: the steps of
     * the trap machine, one after another. Inside a trap it only turns interrupts
     * on, and a pending yield stays pending.
     */
    method EnableInterrupts(choice: Choice) returns (yielded: bool)
      requires depth == 0 ==> AtUser() && choice.next in notes
      modifies this, ram, x, timer
      ensures old(depth) == 0 ==> Valid() && (yielded <==> old(yieldPending))
      ensures old(depth) == 0 ==>
        EndsAs(old(Abstract()), if yielded then YieldingCall(choice) else QuietCall(), Abstract())
      ensures old(depth) == 0 ==> !yieldPending && switches == old(switches) + if yielded then 1 else 0
      ensures !yielded ==> mie && current == old(current)
      ensures old(depth) != 0 ==> !yielded && Abstract() == old(Abstract()).(cpu := old(Processor()).(mie := true))
    {
      ghost var s := Abstract();
      if depth != 0 {
        mie := true;
        return false;
      }
      EnableMie();
      EndsStep(s, Start, s, EnableBegin);
      ghost var s1 := Abstract();
      yielded := TestPending();
      EndsStep(s, Then(Start, EnableBegin), s1, EnableTest);
      if yielded {
        ghost var s2 := Abstract();
        ClearPending();
        EndsStep(s, QuietCall(), s2, EnableClear);
        ghost var s3 := Abstract();
        TakeTrap(CAUSE_ECALL, choice);
        EndsStep(s, Then(QuietCall(), EnableClear), s3, TrapTaken(CAUSE_ECALL, choice));
      }
    }

    /** `freertos_port_set_interrupt_mask`: `csrrc`. */
    method SetInterruptMask() returns (oldMask: word)
      modifies `mie
      ensures !mie && oldMask == MaskWord(old(mie))
      ensures old(AtUser()) ==> Valid() && Abstract() == After(old(Abstract()), Flags(old(Abstract()), false, false))
    {
      ghost var s := Abstract();
      if AtUser() {
        FlagsAreWork(s, false, false);
      }
      oldMask := if mie then 8 else 0;
      mie := false;
      StateParts(Abstract(), s.mem, s.cpu.(mie := false), s.kernel, s.notes);
    }

    /** `freertos_port_clear_interrupt_mask`. */
    method ClearInterruptMask(oldMask: word)
      modifies `mie
      ensures mie == Unmasked(old(mie), oldMask)
      ensures old(AtUser()) ==> Valid() && Abstract() == After(old(Abstract()), Flags(old(Abstract()), mie, false))
    {
      ghost var s := Abstract();
      if AtUser() {
        FlagsAreWork(s, Unmasked(mie, oldMask), false);
      }
      if oldMask != 0 {
        mie := true;
      }
      StateParts(Abstract(), s.mem, s.cpu.(mie := Unmasked(s.cpu.mie, oldMask)), s.kernel, s.notes);
    }

    // ----- the scheduler -----

    /** The first tick: `counts_per_tick` after the time read, which the source asserts is not 0. */
    method SetFirstTick(now: time, countsPerTick: word)
      requires countsPerTick != 0
      modifies timer, `counts, `nextCompare
      ensures counts == countsPerTick && timer.Compare() == nextCompare == NextCompare(now, countsPerTick)
      ensures Variables() == old(Variables()).(counts := countsPerTick, compare := nextCompare)
    {
      counts := countsPerTick;
      nextCompare := (now + counts) % TIME_MODULUS;
      timer.SetCompare(nextCompare);
    }

    /** `trap_restore_frame` on the chosen task's frame. */
    method RunFirst()
      requires Shaped() && 4 * ram.Length <= WORD_MODULUS && depth == 0
      requires AllSuspended(ram[..], tops, notes) && current in notes
      modifies x, `pc, `mie, `mpie
      ensures Valid() && Processor() == Running(notes[current].saved)
    {
      ghost var k := Variables();
      SchedulerStarts(ram[..], k, notes);
      ghost var e := State(ram[..], Pop(ram[..], k.tops[k.current]), k, notes);
      PopFrame(tops[current]);
      assert Abstract() == e;
    }

    /**
     * `xPortStartScheduler`, given the time it reads and the configured counts
     * per tick; false when no task has been chosen. On success the chosen task
     * runs and the first tick is set.
     */
    method StartScheduler(now: time, countsPerTick: word, chosen: bool) returns (ok: bool)
      requires countsPerTick != 0
      requires Shaped() && 4 * ram.Length <= WORD_MODULUS && depth == 0
      requires AllSuspended(ram[..], tops, notes) && (chosen ==> current in notes)
      modifies x, timer, `pc, `mie, `mpie, `counts, `nextCompare
      ensures ok <==> chosen
      ensures ok ==> Valid() && Processor() == Running(notes[current].saved)
      ensures ok ==> counts == countsPerTick && timer.Compare() == nextCompare == NextCompare(now, counts)
    {
      if !chosen {
        return false;
      }
      ghost var mem := ram[..];
      SetFirstTick(now, countsPerTick);
      assert ram[..] == mem;
      RunFirst();
      ok := true;
    }
  }

  lemma StateParts(e: State, mem: seq<word>, cpu: Cpu, k: Kernel, notes: map<nat, Note>)
    requires e.mem == mem && e.cpu == cpu && e.kernel == k && e.notes == notes
    ensures e == State(mem, cpu, k, notes)
  {
  }

  /** The steps of a call that finds a yield pending. */
  function YieldingCall(choice: Choice): Run {
    Then(Then(QuietCall(), EnableClear), TrapTaken(CAUSE_ECALL, choice))
  }

  /** The steps of a call that does not. */
  function QuietCall(): Run {
    Then(Then(Start, EnableBegin), EnableTest)
  }

  /** The run is possible from `s` and ends in `e`. */
  ghost predicate EndsAs(s: State, r: Run, e: State)
    requires Inv(s)
  {
    CanRun(s, r) && e == Reach(s, r)
  }

  lemma EndsStep(s: State, r: Run, e: State, step: Step)
    requires Inv(s) && EndsAs(s, r, e) && StepPossible(e, step)
    ensures EndsAs(s, Then(r, step), After(e, step))
  {
  }
}
