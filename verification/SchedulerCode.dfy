/** The scheduler's objects (kernel/src/scheduler.rs, thread.rs, process.rs). Their methods do to
    the objects what the steps of the model do to its state. */
module Schedulers {
  import opened Wrappers
  import opened Scheduling

  const USER_STACK_START: nat := 0x7000_0000_0000
  const USER_STACK_SIZE: nat := 0x4000
  const KERNEL_STACK_SIZE: nat := 0x4000

  function Zeros(count: nat): seq<nat> {
    seq(count, _ => 0)
  }

  /** The registers of a kernel thread that has not run yet. */
  function KernelRegisters(func: nat, stack: nat): Registers {
    Registers(Zeros(15), func, 0x08, 0x202, stack + KERNEL_STACK_SIZE, 0x10)
  }

  /** The registers that enter a user image: selectors of ring 3 and the top of the user stack. */
  function ImageRegisters(entry: nat): Registers {
    Registers(Zeros(15), entry, 0x30 + 3, 0x202, USER_STACK_START + USER_STACK_SIZE, 0x28 + 3)
  }

  /** A new kernel thread starts its function in ring 0 with interrupts enabled, on the segments 1 and
      2 of the descriptor table, with its stack pointer at the end of the 16K of its stack. */
  lemma KernelThreadEnters(func: nat, stack: nat)
    ensures var r := KernelRegisters(func, stack);
      && r.rip == func && r.rsp == stack + 0x4000
      && r.cs == 1 * 8 && r.ss == 2 * 8 && r.rflags == 0x200 + 0x2
      && |r.general| == 15 && forall k | 0 <= k < 15 :: r.general[k] == 0
  {}

  /** An image is entered in ring 3 with interrupts enabled, on the segments 6 and 5. */
  lemma ImageEnters(entry: nat)
    ensures var r := ImageRegisters(entry);
      && r.rip == entry && r.cs == 6 * 8 + 3 && r.ss == 5 * 8 + 3 && r.rflags == 0x200 + 0x2
      && |r.general| == 15 && forall k | 0 <= k < 15 :: r.general[k] == 0
  {}

  class Thread {
    const id: nat
    const parent: Process
    const kernelStack: nat
    /** The number that the model knows the thread by. */
    ghost const handle: nat
    var registers: Registers
    var update: bool

    function State(): Context
      reads this
    {
      Context(registers, update)
    }

    /** `create`, on a kernel stack that was allocated for it. */
    constructor (parent: Process, id: nat, func: nat, kernelStack: nat, ghost handle: nat)
      ensures this.parent == parent && this.id == id && this.kernelStack == kernelStack && this.handle == handle
      ensures State() == Context(KernelRegisters(func, kernelStack), true)
    {
      this.parent, this.id, this.kernelStack, this.handle := parent, id, kernelStack, handle;
      registers, update := KernelRegisters(func, kernelStack), true;
    }

    method SetUpdate(update: bool)
      modifies this`update
      ensures this.update == update
    {
      this.update := update;
    }

    method SetRegisters(registers: Registers)
      modifies this`registers
      ensures this.registers == registers
    {
      this.registers := registers;
    }
  }

  class Process {
    var memorySpace: Option<nat>
    var kernel: bool
    var threads: seq<Thread>
    ghost const handle: nat

    function State(): ProcessState
      reads this
    {
      ProcessState(memorySpace, kernel)
    }

    constructor (ghost handle: nat)
      ensures State() == ProcessState(None, true) && threads == [] && this.handle == handle
    {
      memorySpace, kernel, threads := None, true, [];
      this.handle := handle;
    }

    method AddThread(thread: Thread)
      modifies this`threads
      ensures threads == old(threads) + [thread]
    {
      threads := threads + [thread];
    }

    /** `create_kernel`, and `create_idle`: a kernel process with one new thread. */
    static method CreateKernel(func: nat, kernelStack: nat, ghost handle: nat, ghost threadHandle: nat)
      returns (process: Process)
      ensures fresh(process) && process.handle == handle
      ensures process.State() == ProcessState(None, true) && Runnable(process.State())
      ensures |process.threads| == 1 && fresh(process.threads[0]) && process.threads[0].parent == process
      ensures process.threads[0].State() == Context(KernelRegisters(func, kernelStack), true)
      ensures process.threads[0].handle == threadHandle
    {
      process := new Process(handle);
      var thread := new Thread(process, 0, func, kernelStack, threadHandle);
      process.AddThread(thread);
    }

    /** What `replace_image` does to the process and to its running thread, for a new table `table`:
        the table is set before the kernel flag is dropped. */
    method ReplaceImage(thread: Thread, table: nat, entry: nat)
      requires thread.parent == this
      modifies this`memorySpace, this`kernel, thread
      ensures State() == ProcessState(Some(table), false) && Runnable(State())
      ensures thread.State() == Context(ImageRegisters(entry), false)
    {
      var newRegisterState := ImageRegisters(entry);
      memorySpace := Some(table);
      kernel := false;
      thread.SetRegisters(newRegisterState);
      thread.SetUpdate(false);
    }
  }

  /** `THREAD_QUEUE` and `PROCESSES`. */
  class Shared {
    var queue: seq<Thread>
    var processes: seq<Process>

    constructor ()
      ensures queue == [] && processes == []
    {
      queue, processes := [], [];
    }

    method PushBack(thread: Thread)
      modifies this`queue
      ensures queue == old(queue) + [thread]
    {
      queue := queue + [thread];
    }

    method PopFront() returns (thread: Option<Thread>)
      modifies this`queue
      ensures thread.None? <==> old(queue) == []
      ensures thread.None? ==> queue == []
      ensures thread.Some? ==> thread.value == old(queue)[0] && queue == old(queue)[1..]
    {
      if queue == [] { return None; }
      thread := Some(queue[0]);
      queue := queue[1..];
    }

    /** `add_process`. */
    method AddProcess(process: Process)
      modifies this
      ensures queue == old(queue) + process.threads && processes == old(processes) + [process]
    {
      for i := 0 to |process.threads|
        invariant queue == old(queue) + process.threads[..i] && processes == old(processes)
      {
        PushBack(process.threads[i]);
      }
      assert process.threads[..|process.threads|] == process.threads;
      processes := processes + [process];
    }
  }

  datatype Outcome = NotReady | Panic | Picked(thread: Thread, cr3: nat)

  class Scheduler {
    const shared: Shared
    var ready: bool
    var currentThread: Option<Thread>

    constructor (shared: Shared)
      ensures this.shared == shared && !ready && currentThread == None
    {
      this.shared, ready, currentThread := shared, false, None;
    }

    ghost function Running(): set<Thread>
      reads this
    {
      if currentThread.Some? then {currentThread.value} else {}
    }

    method SetReady()
      modifies this`ready
      ensures ready
    {
      ready := true;
    }

    /** `start`: the registers of the first thread and the table for `switch_thread`, which is the
        kernel's whatever the thread's process; `None` is a panic. */
    method Start(kernelCr3: nat) returns (registers: Option<Registers>, cr3: nat)
      modifies this`currentThread, shared`queue
      ensures registers.None? <==> old(currentThread).Some? || old(shared.queue) == []
      ensures registers.Some? ==> currentThread == Some(old(shared.queue)[0]) && shared.queue == old(shared.queue)[1..]
      ensures registers.Some? ==> registers.value == currentThread.value.registers && cr3 == kernelCr3
    {
      if currentThread.Some? { return None, 0; }
      var newThread := shared.PopFront();
      if newThread.None? { return None, 0; }
      registers := Some(newThread.value.registers);
      cr3 := kernelCr3;
      currentThread := newThread;
    }

    /** `exec`: the running thread's registers and the table of its process; `None` is a panic. */
    method Exec(kernelCr3: nat) returns (switch: Option<(Registers, nat)>)
      ensures switch.None? <==> currentThread.None? || Cr3(currentThread.value.parent.State(), kernelCr3).None?
      ensures switch.Some? ==> switch.value.0 == currentThread.value.registers
      ensures switch.Some? ==> Cr3(currentThread.value.parent.State(), kernelCr3) == Some(switch.value.1)
    {
      if currentThread.None? { return None; }
      var thread, parent := currentThread.value, currentThread.value.parent;
      if parent.memorySpace.Some? { return Some((thread.registers, parent.memorySpace.value)); }
      if parent.kernel { return Some((thread.registers, kernelCr3)); }
      return None;
    }

    /** `schedule`: the running thread, if any, goes to the back of the queue with its context
        saved, and the first thread of the queue is picked with the table to run it on. */
    method Schedule(registerState: Registers, kernelCr3: nat) returns (outcome: Outcome)
      modifies this`currentThread, shared`queue, Running()
      ensures outcome.NotReady? <==> !ready
      ensures !ready ==> shared.queue == old(shared.queue) && currentThread == old(currentThread)
      ensures !ready ==> forall t | t in old(Running()) :: t.State() == old(t.State())
      ensures ready ==> forall t | t in old(Running()) :: t.State() == Saved(old(t.State()), registerState)
      ensures ready ==>
        var queue := Requeued(old(shared.queue), old(currentThread));
        outcome == if queue == [] || Cr3(queue[0].parent.State(), kernelCr3).None? then Panic
                   else Picked(queue[0], Cr3(queue[0].parent.State(), kernelCr3).value)
      ensures outcome.Picked? ==> currentThread == Some(outcome.thread)
      ensures outcome.Picked? ==> shared.queue == Requeued(old(shared.queue), old(currentThread))[1..]
    {
      if !ready { return NotReady; }
      if currentThread.Some? {
        var thread := currentThread.value;
        currentThread := None;
        if thread.update {
          thread.SetRegisters(registerState);
        } else {
          thread.SetUpdate(true);
        }
        shared.PushBack(thread);
      }
      var newThread := shared.PopFront();
      if newThread.None? { return Panic; }
      var parent := newThread.value.parent;
      var cr3;
      if parent.memorySpace.Some? {
        cr3 := parent.memorySpace.value;
      } else if parent.kernel {
        cr3 := kernelCr3;
      } else {
        return Panic;
      }
      currentThread := newThread;
      return Picked(newThread.value, cr3);
    }
  }

  /** All cores with what they share: the objects whose state the model describes. */
  class Machine {
    const shared: Shared
    const cores: map<nat, Scheduler>
    const kernelCr3: nat
    /** The table that each core was last switched to. */
    var tables: map<nat, nat>
    ghost const threads: map<nat, Thread>
    ghost const processes: map<nat, Process>

    ghost predicate Knows(t: Thread) {
      t.handle in threads && threads[t.handle] == t
    }

    ghost predicate KnowsProcess(p: Process) {
      p.handle in processes && processes[p.handle] == p
    }

    /** Handles name the objects, and all cores share one queue. */
    ghost predicate Named() {
      && (forall h | h in threads :: threads[h].handle == h && KnowsProcess(threads[h].parent))
      && (forall p | p in processes :: processes[p].handle == p)
      && (forall c | c in cores :: cores[c].shared == shared)
      && (forall c, d | c in cores && d in cores && cores[c] == cores[d] :: c == d)
    }

    ghost predicate KnowsQueue()
      reads shared
    {
      forall k | 0 <= k < |shared.queue| :: Knows(shared.queue[k])
    }

    ghost predicate KnowsRunning()
      reads cores.Values
    {
      forall c | c in cores && cores[c].currentThread.Some? :: Knows(cores[c].currentThread.value)
    }

    ghost predicate Valid()
      reads shared, cores.Values
    {
      Named() && KnowsQueue() && KnowsRunning()
    }

    /** The handles of a queue. */
    ghost function Handles(queue: seq<Thread>): (h: seq<nat>)
      ensures |h| == |queue| && forall k | 0 <= k < |h| :: h[k] == queue[k].handle
    {
      seq(|queue|, k requires 0 <= k < |queue| => queue[k].handle)
    }

    ghost function Running(): map<nat, nat>
      reads cores.Values
    {
      map c | c in cores && cores[c].currentThread.Some? :: cores[c].currentThread.value.handle
    }

    ghost function Ready(): set<nat>
      reads cores.Values
    {
      set c | c in cores && cores[c].ready
    }

    ghost function Contexts(): map<nat, Context>
      reads threads.Values
    {
      map h | h in threads :: threads[h].State()
    }

    ghost function Processes(): map<nat, ProcessState>
      reads processes.Values
    {
      map p | p in processes :: processes[p].State()
    }

    ghost function Parents(): map<nat, nat> {
      map h | h in threads :: threads[h].parent.handle
    }

    /** The model's view of the objects. */
    ghost function View(): System
      reads this, shared, cores.Values, threads.Values, processes.Values
    {
      System(Handles(shared.queue), Running(), Ready(), Contexts(), Parents(), Processes(), tables, kernelCr3)
    }

    lemma ViewParts()
      ensures var s := View();
        && s.queue == Handles(shared.queue) && s.current == Running() && s.ready == Ready() && s.context == Contexts()
        && s.parent == Parents() && s.process == Processes() && s.table == tables && s.kernelCr3 == kernelCr3
    {}

    lemma ViewIs(s: System)
      requires s.queue == Handles(shared.queue) && s.current == Running() && s.ready == Ready() && s.context == Contexts()
      requires s.parent == Parents() && s.process == Processes() && s.table == tables && s.kernelCr3 == kernelCr3
      ensures View() == s
    {}

    ghost predicate RunsAs(c: nat, running: map<nat, nat>, ready: set<nat>)
      requires c in cores
      reads cores[c]
    {
      && (c in ready <==> cores[c].ready) && (c in running <==> cores[c].currentThread.Some?)
      && (c in running ==> running[c] == cores[c].currentThread.value.handle)
    }

    lemma RunningIs(running: map<nat, nat>, ready: set<nat>)
      requires running.Keys <= cores.Keys && ready <= cores.Keys && forall c | c in cores :: RunsAs(c, running, ready)
      ensures Running() == running && Ready() == ready
    {}

    lemma CoresRun()
      ensures forall c | c in cores :: RunsAs(c, Running(), Ready())
      ensures Running().Keys <= cores.Keys && Ready() <= cores.Keys
    {}

    ghost predicate ContextAs(h: nat, contexts: map<nat, Context>)
      requires h in threads
      reads threads[h]
    {
      h in contexts && contexts[h] == threads[h].State()
    }

    lemma ContextsAre(contexts: map<nat, Context>)
      requires contexts.Keys == threads.Keys && forall h | h in threads :: ContextAs(h, contexts)
      ensures Contexts() == contexts
    {}

    lemma ThreadsHave()
      ensures Contexts().Keys == threads.Keys && forall h | h in threads :: ContextAs(h, Contexts())
    {}

    ghost predicate ProcessAs(p: nat, states: map<nat, ProcessState>)
      requires p in processes
      reads processes[p]
    {
      p in states && states[p] == processes[p].State()
    }

    lemma ProcessesAre(states: map<nat, ProcessState>)
      requires states.Keys == processes.Keys && forall p | p in processes :: ProcessAs(p, states)
      ensures Processes() == states
    {}

    lemma ProcessesHave()
      ensures Processes().Keys == processes.Keys && forall p | p in processes :: ProcessAs(p, Processes())
    {}

    constructor (shared: Shared, cores: map<nat, Scheduler>, kernelCr3: nat, ghost threads: map<nat, Thread>,
                 ghost processes: map<nat, Process>)
      ensures this.shared == shared && this.cores == cores && this.kernelCr3 == kernelCr3
      ensures this.threads == threads && this.processes == processes && tables == map[]
    {
      tables := map[];
      this.shared, this.cores, this.kernelCr3, this.threads, this.processes := shared, cores, kernelCr3, threads, processes;
    }

    lemma QueueAppend(queue: seq<Thread>, more: seq<Thread>)
      ensures Handles(queue + more) == Handles(queue) + Handles(more)
    {}

    lemma QueuePop(queue: seq<Thread>)
      requires queue != []
      ensures Handles(queue[1..]) == Handles(queue)[1..] && Handles(queue)[0] == queue[0].handle
    {}

    /** What the model requeues on a core are the handles of what the code requeues. */
    lemma RequeuedHandles(core: nat)
      requires core in cores
      ensures Handles(Requeued(shared.queue, cores[core].currentThread)) == Requeued(View().queue, Current(View(), core))
      ensures core in View().ready <==> cores[core].ready
      ensures core in View().current <==> cores[core].currentThread.Some?
    {
      if cores[core].currentThread.Some? {
        QueueAppend(shared.queue, [cores[core].currentThread.value]);
        assert Handles([cores[core].currentThread.value]) == [cores[core].currentThread.value.handle];
      }
    }

    lemma KnownCr3(t: Thread)
      requires Valid() && Knows(t)
      ensures Cr3Of(View(), t.handle) == Cr3(t.parent.State(), kernelCr3)
    {}

    lemma AllKnown(core: nat)
      requires Valid() && core in cores
      ensures forall t | t in Requeued(shared.queue, cores[core].currentThread) :: Knows(t)
    {}

    lemma QueueKnown(all: seq<Thread>)
      requires all != [] && shared.queue == all[1..] && forall t | t in all :: Knows(t)
      ensures KnowsQueue()
    {}

    ghost predicate KnowsCurrent(c: nat)
      requires c in cores
      reads cores[c]
    {
      cores[c].currentThread.Some? ==> Knows(cores[c].currentThread.value)
    }

    lemma CurrentKnown()
      ensures KnowsRunning() <==> forall c | c in cores :: KnowsCurrent(c)
    {}

    lemma NamedGives(core: nat)
      requires Named() && core in cores
      ensures cores[core].shared == shared && forall d | d in cores && d != core :: cores[d] != cores[core]
      ensures forall h | h in threads :: threads[h].handle == h
    {}

    lemma AllGives(core: nat)
      requires core in cores
      ensures cores[core].currentThread.Some? ==>
        cores[core].currentThread.value in Requeued(shared.queue, cores[core].currentThread)
    {}

    /** What `schedule` does to the objects, part by part. */
    method Switch(core: nat, registers: Registers, ghost all: seq<Thread>, ghost running: map<nat, nat>, ghost ready: set<nat>,
                  ghost contexts: map<nat, Context>, ghost states: map<nat, ProcessState>)
      returns (outcome: Outcome)
      requires Named() && core in cores && all == Requeued(shared.queue, cores[core].currentThread)
      requires (forall t | t in all :: Knows(t)) && cores[core].ready
      requires forall c | c in cores :: RunsAs(c, running, ready) && KnowsCurrent(c)
      requires (forall h | h in threads :: ContextAs(h, contexts)) && forall p | p in processes :: ProcessAs(p, states)
      modifies shared, cores[core], threads.Values
      ensures forall p | p in processes :: ProcessAs(p, states)
      ensures outcome.Panic? <==> all == [] || Cr3(all[0].parent.State(), kernelCr3).None?
      ensures outcome.Panic? || outcome.Picked?
      ensures outcome.Picked? ==> shared.queue == all[1..] && Cr3(all[0].parent.State(), kernelCr3) == Some(outcome.cr3)
      ensures outcome.Picked? ==> forall c | c in cores :: RunsAs(c, running[core := all[0].handle], ready) && KnowsCurrent(c)
      ensures outcome.Picked? ==> forall h | h in threads :: ContextAs(h, ContextsSaved(old(cores[core].currentThread), contexts, registers))
    {
      hide Next, Named, Cr3, Requeued;
      NamedGives(core);
      AllGives(core);
      ghost var before, saved := cores[core].currentThread, ContextsSaved(cores[core].currentThread, contexts, registers);
      assert before.Some? ==> Knows(before.value);
      outcome := cores[core].Schedule(registers, kernelCr3);
      if outcome.Picked? {
        forall c | c in cores ensures RunsAs(c, running[core := all[0].handle], ready) && KnowsCurrent(c) {
          if c != core { assert cores[c] != cores[core] && RunsAs(c, running, ready); }
        }
        forall h | h in threads ensures ContextAs(h, saved) {
          if before != Some(threads[h]) { assert ContextAs(h, contexts); }
        }
      }
    }

    /** The contexts after the preempted thread, if any, was saved. */
    ghost function ContextsSaved(thread: Option<Thread>, contexts: map<nat, Context>, registers: Registers): map<nat, Context> {
      if thread.Some? && thread.value.handle in contexts
      then contexts[thread.value.handle := Saved(contexts[thread.value.handle], registers)]
      else contexts
    }

    lemma SwitchIsStep(s: System, core: nat, registers: Registers, all: seq<Thread>, before: Option<Thread>)
      requires core in cores && all != [] && core in s.ready && Handles(all) == Requeued(s.queue, Current(s, core))
      requires core in s.current <==> before.Some?
      requires before.Some? ==> s.current[core] == before.value.handle
      requires Cr3Of(s, all[0].handle).Some? && shared.queue == all[1..]
      requires View() == s.(queue := Handles(all[1..]), current := s.current[core := all[0].handle],
                            context := ContextsSaved(before, s.context, registers),
                            table := s.table[core := Cr3Of(s, all[0].handle).value])
      ensures Next(s, Scheduling.Op.Schedule(core, registers)) == Some(View())
    {
      hide View, Handles;
      QueuePop(all);
    }

    /** The objects after `Switch` are the model's next state. */
    lemma Switched(s: System, core: nat, registers: Registers, all: seq<Thread>, before: Option<Thread>)
      requires Named() && core in cores && all != [] && core in s.ready && Handles(all) == Requeued(s.queue, Current(s, core))
      requires core in s.current <==> before.Some?
      requires before.Some? ==> s.current[core] == before.value.handle
      requires s.current.Keys <= cores.Keys && s.ready <= cores.Keys && s.context.Keys == threads.Keys
      requires s.process.Keys == processes.Keys && s.parent == Parents() && s.kernelCr3 == kernelCr3
      requires Cr3Of(s, all[0].handle).Some? && tables == s.table[core := Cr3Of(s, all[0].handle).value]
      requires shared.queue == all[1..] && forall t | t in all :: Knows(t)
      requires forall c | c in cores :: RunsAs(c, s.current[core := all[0].handle], s.ready) && KnowsCurrent(c)
      requires forall h | h in threads :: ContextAs(h, ContextsSaved(before, s.context, registers))
      requires forall p | p in processes :: ProcessAs(p, s.process)
      ensures Valid() && Next(s, Scheduling.Op.Schedule(core, registers)) == Some(View())
    {
      hide View, Parents, Processes, Handles, Running, Ready, Contexts, RunsAs, ContextAs, KnowsCurrent, ContextsSaved, KnowsQueue,
        KnowsRunning, Named, Cr3, Cr3Of, Knows, ProcessAs, Next;
      RunningIs(s.current[core := all[0].handle], s.ready);
      SavedKeys(before, s.context, registers);
      ContextsAre(ContextsSaved(before, s.context, registers));
      ProcessesAre(s.process);
      CurrentKnown();
      QueueKnown(all);
      ViewIs(s.(queue := Handles(all[1..]), current := s.current[core := all[0].handle],
                context := ContextsSaved(before, s.context, registers), table := tables));
      SwitchIsStep(s, core, registers, all, before);
    }

    /** `schedule` on one core is the step of the model. */
    method Schedule(core: nat, registers: Registers) returns (outcome: Outcome)
      requires Valid() && core in cores
      modifies this`tables, shared, cores[core], threads.Values
      ensures Valid() || outcome.Panic?
      ensures outcome.Panic? <==> Next(old(View()), Scheduling.Op.Schedule(core, registers)).None?
      ensures !outcome.Panic? ==> Next(old(View()), Scheduling.Op.Schedule(core, registers)) == Some(View())
    {
      hide View, Parents, Processes, Handles, Running, Ready, Contexts, RunsAs, ContextAs, KnowsCurrent, ContextsSaved, KnowsQueue,
        KnowsRunning, Named, Cr3, Knows, ProcessAs;
      ghost var s, all, before := View(), Requeued(shared.queue, cores[core].currentThread), cores[core].currentThread;
      ViewParts();
      RequeuedHandles(core);
      AllKnown(core);
      assert forall t | t in all :: Knows(t);
      CoresRun();
      CurrentKnown();
      ThreadsHave();
      ProcessesHave();
      RunningHandle(core);
      if !cores[core].ready { return NotReady; }
      if all != [] {
        KnownCr3(all[0]);
        QueuePop(all);
      }
      outcome := Switch(core, registers, all, s.current, s.ready, s.context, s.process);
      if outcome.Picked? {
        tables := tables[core := outcome.cr3];
        Switched(s, core, registers, all, before);
      }
    }

    lemma RunningHandle(core: nat)
      requires core in cores
      ensures cores[core].currentThread.Some? ==>
        core in Running() && Running()[core] == cores[core].currentThread.value.handle
    {}

    lemma SavedKeys(thread: Option<Thread>, contexts: map<nat, Context>, registers: Registers)
      ensures ContextsSaved(thread, contexts, registers).Keys == contexts.Keys
    {}

    /** `set_ready` on one core. */
    method SetReady(core: nat)
      requires Valid() && core in cores
      modifies cores[core]
      ensures Valid() && Next(old(View()), Scheduling.Op.SetReady(core)) == Some(View())
    {
      hide Contexts, Processes, Handles;
      ghost var s := View();
      cores[core].SetReady();
      assert Running() == s.current && Ready() == s.ready + {core};
    }

    /** What `start` does to the objects, part by part. */
    method StartCore(core: nat, ghost running: map<nat, nat>, ghost ready: set<nat>) returns (registers: Option<Registers>, cr3: nat)
      requires Named() && KnowsQueue() && core in cores && forall c | c in cores :: RunsAs(c, running, ready) && KnowsCurrent(c)
      modifies shared, cores[core]
      ensures registers.None? <==> old(cores[core].currentThread).Some? || old(shared.queue) == []
      ensures registers.Some? ==> cr3 == kernelCr3 && shared.queue == old(shared.queue)[1..] && KnowsQueue()
      ensures registers.Some? ==>
        forall c | c in cores :: RunsAs(c, running[core := old(shared.queue)[0].handle], ready) && KnowsCurrent(c)
    {
      ghost var queue := shared.queue;
      registers, cr3 := cores[core].Start(kernelCr3);
      if registers.Some? {
        assert Knows(queue[0]);
        forall c | c in cores ensures RunsAs(c, running[core := queue[0].handle], ready) && KnowsCurrent(c) {
          if c != core { assert cores[c] != cores[core] && RunsAs(c, running, ready); }
        }
      }
    }

    lemma StartIsStep(s: System, core: nat, queue: seq<Thread>)
      requires core !in s.current && queue != [] && Handles(queue) == s.queue && s.kernelCr3 == kernelCr3
      requires View() == s.(queue := Handles(queue[1..]), current := s.current[core := queue[0].handle],
                            table := s.table[core := kernelCr3])
      ensures Next(s, Scheduling.Op.Start(core)) == Some(View())
    {
      hide View, Handles;
      QueuePop(queue);
    }

    /** `start` on one core. */
    method Start(core: nat) returns (registers: Option<Registers>)
      requires Valid() && core in cores
      modifies this`tables, shared, cores[core]
      ensures Valid() || registers.None?
      ensures registers.None? <==> Next(old(View()), Scheduling.Op.Start(core)).None?
      ensures registers.Some? ==> Next(old(View()), Scheduling.Op.Start(core)) == Some(View())
    {
      hide Processes, Handles, Running, Ready, Contexts, RunsAs, KnowsCurrent, KnowsQueue, KnowsRunning, Named;
      ghost var s, queue := View(), shared.queue;
      RequeuedHandles(core);
      CoresRun();
      CurrentKnown();
      if queue != [] { QueuePop(queue); }
      var cr3;
      registers, cr3 := StartCore(core, s.current, s.ready);
      if registers.Some? {
        tables := tables[core := cr3];
        RunningIs(s.current[core := queue[0].handle], s.ready);
        CurrentKnown();
        StartIsStep(s, core, queue);
      }
    }

    lemma ExecIsStep(s: System, core: nat, cr3: nat)
      requires core in s.current && Cr3Of(s, s.current[core]) == Some(cr3) && View() == s.(table := s.table[core := cr3])
      ensures Next(s, Scheduling.Op.Exec(core)) == Some(View())
    {
      hide View;
    }

    /** `exec` on one core. */
    method Exec(core: nat) returns (registers: Option<Registers>)
      requires Valid() && core in cores
      modifies this`tables
      ensures Valid() && (registers.None? <==> Next(old(View()), Scheduling.Op.Exec(core)).None?)
      ensures registers.Some? ==> Next(old(View()), Scheduling.Op.Exec(core)) == Some(View())
    {
      hide Processes, Handles, Running, Ready, Contexts, Named, KnowsQueue, Cr3;
      ghost var s := View();
      RequeuedHandles(core);
      RunningHandle(core);
      var switch := cores[core].Exec(kernelCr3);
      if cores[core].currentThread.Some? { KnownCr3(cores[core].currentThread.value); }
      if switch.None? { return None; }
      tables := tables[core := switch.value.1];
      ExecIsStep(s, core, switch.value.1);
      return Some(switch.value.0);
    }

    /** `add_process`. */
    method AddProcess(process: Process)
      requires Valid() && forall k | 0 <= k < |process.threads| :: Knows(process.threads[k])
      modifies shared
      ensures Valid() && Next(old(View()), Scheduling.Op.AddProcess(Handles(process.threads))) == Some(View())
    {
      hide Contexts, Processes, Running, Ready, Handles;
      QueueAppend(shared.queue, process.threads);
      shared.AddProcess(process);
    }

    lemma ReplaceIsStep(s: System, core: nat, thread: Thread, table: nat, entry: nat)
      requires core in s.current && s.current[core] == thread.handle && thread.handle in s.parent
      requires s.parent[thread.handle] == thread.parent.handle
      requires View() == s.(process := s.process[thread.parent.handle := ProcessState(Some(table), false)],
                            context := s.context[thread.handle := Context(ImageRegisters(entry), false)])
      ensures Next(s, Scheduling.Op.ReplaceImage(core, table, ImageRegisters(entry))) == Some(View())
    {
      hide View;
    }

    lemma KnownParent(t: Thread)
      requires Valid() && Knows(t)
      ensures t.handle in View().parent && View().parent[t.handle] == t.parent.handle && KnowsProcess(t.parent)
      ensures t in threads.Values && t.parent in processes.Values && t.handle in threads && t.parent.handle in processes
    {}

    /** What `replace_image` does to the objects, part by part. */
    method ReplaceOn(thread: Thread, table: nat, entry: nat, ghost contexts: map<nat, Context>, ghost states: map<nat, ProcessState>)
      requires Named() && Knows(thread)
      requires (forall h | h in threads :: ContextAs(h, contexts)) && forall p | p in processes :: ProcessAs(p, states)
      modifies thread, thread.parent
      ensures forall h | h in threads :: ContextAs(h, contexts[thread.handle := Context(ImageRegisters(entry), false)])
      ensures forall p | p in processes :: ProcessAs(p, states[thread.parent.handle := ProcessState(Some(table), false)])
    {
      thread.parent.ReplaceImage(thread, table, entry);
      forall h | h in threads ensures ContextAs(h, contexts[thread.handle := Context(ImageRegisters(entry), false)]) {
        if threads[h] != thread { assert ContextAs(h, contexts); }
      }
      forall p | p in processes ensures ProcessAs(p, states[thread.parent.handle := ProcessState(Some(table), false)]) {
        if processes[p] != thread.parent { assert ProcessAs(p, states); }
      }
    }

    /** `replace_image` in the thread that runs on a core. */
    method ReplaceImage(core: nat, table: nat, entry: nat)
      requires Valid() && core in cores && cores[core].currentThread.Some?
      modifies threads.Values, processes.Values
      ensures Valid()
      ensures Next(old(View()), Scheduling.Op.ReplaceImage(core, table, ImageRegisters(entry))) == Some(View())
    {
      hide Ready, Handles, Running, Contexts, Processes, KnowsQueue, Named, ContextAs, ProcessAs;
      ghost var s := View();
      var thread := cores[core].currentThread.value;
      RunningHandle(core);
      ThreadsHave();
      ProcessesHave();
      KnownParent(thread);
      ReplaceOn(thread, table, entry, s.context, s.process);
      ProcessesAre(s.process[thread.parent.handle := ProcessState(Some(table), false)]);
      ContextsAre(s.context[thread.handle := Context(ImageRegisters(entry), false)]);
      ReplaceIsStep(s, core, thread, table, entry);
    }
  }
}
