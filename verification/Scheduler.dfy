/** Round-robin scheduling by several cores over one shared queue (kernel/src/scheduler.rs), with
    each locked section as one step, and what every run of such steps keeps. Threads, processes
    and cores are named by numbers. */
module Scheduling {
  import opened Wrappers

  /** `ThreadRegisterState`; `general` holds r15 to rax. */
  datatype Registers = Registers(general: seq<nat>, rip: nat, cs: nat, rflags: nat, rsp: nat, ss: nat)

  /** The part of a thread that scheduling touches. */
  datatype Context = Context(registers: Registers, update: bool)

  datatype ProcessState = ProcessState(memorySpace: Option<nat>, kernel: bool)

  /** `table` holds the page table that each core was last switched to. */
  datatype System = System(queue: seq<nat>, current: map<nat, nat>, ready: set<nat>, context: map<nat, Context>,
                           parent: map<nat, nat>, process: map<nat, ProcessState>, table: map<nat, nat>, kernelCr3: nat)

  datatype Op =
    | Start(core: nat)
    | SetReady(core: nat)
    | Schedule(core: nat, registers: Registers)
    | AddProcess(threads: seq<nat>)
    | ReplaceImage(core: nat, table: nat, image: Registers)
    | Exec(core: nat)

  // One core's share of a step; the code is proved against the same functions.

  function Requeued<T>(queue: seq<T>, current: Option<T>): seq<T> {
    if current.Some? then queue + [current.value] else queue
  }

  /** The context of a preempted thread. The preemption after a new image was set up is skipped,
      because the interrupted registers still belong to the old image. */
  function Saved(c: Context, registers: Registers): Context {
    if c.update then c.(registers := registers) else c.(update := true)
  }

  /** The table to run a process on; `None` is the panic "Can't find cr3". */
  function Cr3(p: ProcessState, kernelCr3: nat): Option<nat> {
    if p.memorySpace.Some? then p.memorySpace
    else if p.kernel then Some(kernelCr3)
    else None
  }

  function Current(s: System, core: nat): Option<nat> {
    if core in s.current then Some(s.current[core]) else None
  }

  function Cr3Of(s: System, t: nat): Option<nat> {
    if t in s.parent && s.parent[t] in s.process then Cr3(s.process[s.parent[t]], s.kernelCr3) else None
  }

  function SavedContexts(s: System, core: nat, registers: Registers): map<nat, Context> {
    if core in s.current && s.current[core] in s.context
    then s.context[s.current[core] := Saved(s.context[s.current[core]], registers)]
    else s.context
  }

  /** The state after a step; `None` when the code panics. */
  function Next(s: System, op: Op): Option<System> {
    match op
    case Start(c) =>
      if c in s.current || s.queue == [] then None
      else Some(s.(queue := s.queue[1..], current := s.current[c := s.queue[0]], table := s.table[c := s.kernelCr3]))
    case SetReady(c) => Some(s.(ready := s.ready + {c}))
    case Schedule(c, registers) =>
      if c !in s.ready then Some(s)
      else
        var queue := Requeued(s.queue, Current(s, c));
        if queue == [] || Cr3Of(s, queue[0]).None? then None
        else Some(s.(queue := queue[1..], current := s.current[c := queue[0]], context := SavedContexts(s, c, registers),
                     table := s.table[c := Cr3Of(s, queue[0]).value]))
    case AddProcess(threads) => Some(s.(queue := s.queue + threads))
    case ReplaceImage(c, table, image) =>
      if c !in s.current || s.current[c] !in s.parent then None
      else
        var t := s.current[c];
        Some(s.(process := s.process[s.parent[t] := ProcessState(Some(table), false)],
                context := s.context[t := Context(image, false)]))
    case Exec(c) =>
      if c !in s.current || Cr3Of(s, s.current[c]).None? then None
      else Some(s.(table := s.table[c := Cr3Of(s, s.current[c]).value]))
  }

  // What stays.

  ghost predicate NoRepeat(queue: seq<nat>) {
    forall j, k | 0 <= j < k < |queue| :: queue[j] != queue[k]
  }

  /** Known to the system: it has a context and a process that lives. */
  ghost predicate Known(s: System, t: nat) {
    t in s.context && t in s.parent && s.parent[t] in s.process
  }

  /** A process runs on its own table, or it is the kernel's. */
  ghost predicate Runnable(p: ProcessState) {
    p.memorySpace.Some? || p.kernel
  }

  ghost predicate Holds(s: System, t: nat) {
    t in s.queue || t in s.current.Values
  }

  ghost predicate Inv(s: System) {
    && NoRepeat(s.queue)
    && (forall c, d | c in s.current && d in s.current && s.current[c] == s.current[d] :: c == d)
    && (forall c | c in s.current :: s.current[c] !in s.queue)
    && (forall t | Holds(s, t) :: Known(s, t))
    && (forall p | p in s.process :: Runnable(s.process[p]))
  }

  /** A process is added once, with threads of its own. */
  ghost predicate Allowed(s: System, op: Op) {
    op.AddProcess? ==> NoRepeat(op.threads) && forall t | t in op.threads :: !Holds(s, t) && Known(s, t)
  }

  ghost predicate Step(s: System, op: Op, s': System) {
    Allowed(s, op) && Next(s, op) == Some(s')
  }

  ghost predicate Run(states: seq<System>, ops: seq<Op>) {
    |states| == |ops| + 1 && Inv(states[0]) && forall i | 0 <= i < |ops| :: Step(states[i], ops[i], states[i + 1])
  }

  function Elements(threads: seq<nat>): set<nat> {
    set t | t in threads
  }

  ghost function Threads(s: System): set<nat> {
    Elements(s.queue) + s.current.Values
  }

  /** `t` runs on a core other than `c`. */
  ghost predicate RunsElsewhere(current: map<nat, nat>, c: nat, t: nat) {
    exists d :: d in current && d != c && current[d] == t
  }

  lemma CurrentValues(current: map<nat, nat>, c: nat, t: nat, x: nat)
    ensures x in current[c := t].Values <==> x == t || RunsElsewhere(current, c, x)
    ensures x in current.Values <==> (c in current && x == current[c]) || RunsElsewhere(current, c, x)
  {
    if x == t { assert current[c := t][c] == t; }
    if RunsElsewhere(current, c, x) {
      var d :| d in current && d != c && current[d] == x;
      assert current[c := t][d] == x;
    }
  }

  lemma NotElsewhere(s: System, core: nat, queue: seq<nat>, e: nat)
    requires Inv(s) && queue == Requeued(s.queue, Current(s, core)) && queue != []
    requires e in s.current && e != core
    ensures s.current[e] != queue[0]
  {
    assert queue[0] in s.queue || (core in s.current && queue[0] == s.current[core]);
  }

  lemma PopKeeps(queue: seq<nat>)
    requires NoRepeat(queue) && queue != []
    ensures NoRepeat(queue[1..]) && queue[0] !in queue[1..] && forall x :: x in queue <==> x == queue[0] || x in queue[1..]
  {
    assert queue == [queue[0]] + queue[1..];
  }

  /** Taking the first of the requeued threads moves threads between the queue and the core only. */
  lemma Rotates(s: System, core: nat, queue: seq<nat>)
    requires Inv(s) && queue == Requeued(s.queue, Current(s, core)) && queue != []
    ensures var s' := s.(queue := queue[1..], current := s.current[core := queue[0]]);
      Inv(s') && forall t :: Holds(s', t) <==> Holds(s, t)
  {
    var current' := s.current[core := queue[0]];
    var s' := s.(queue := queue[1..], current := current');
    PopKeeps(queue);
    forall t ensures Holds(s', t) <==> Holds(s, t) {
      CurrentValues(s.current, core, queue[0], t);
    }
    forall c, d | c in current' && d in current' && current'[c] == current'[d] ensures c == d {
      if c != core { NotElsewhere(s, core, queue, c); }
      if d != core { NotElsewhere(s, core, queue, d); }
    }
    forall c | c in current' ensures current'[c] !in queue[1..] {
      if c != core { NotElsewhere(s, core, queue, c); }
    }
    forall t | Holds(s', t) ensures Known(s', t) { assert Holds(s, t); }
  }

  lemma AddKeeps(s: System, threads: seq<nat>)
    requires Inv(s) && Allowed(s, AddProcess(threads))
    ensures Inv(s.(queue := s.queue + threads))
    ensures forall t :: Holds(s.(queue := s.queue + threads), t) <==> Holds(s, t) || t in threads
  {
    var s' := s.(queue := s.queue + threads);
    forall t ensures Holds(s', t) <==> Holds(s, t) || t in threads {}
    forall t | Holds(s', t) ensures Known(s', t) { assert Holds(s, t) || t in threads; }
    forall j, k | 0 <= j < k < |s'.queue| ensures s'.queue[j] != s'.queue[k] {
      if j < |s.queue| { assert Holds(s, s'.queue[j]); }
    }
    forall c | c in s.current ensures s.current[c] !in s'.queue { assert Holds(s, s.current[c]); }
  }

  /** `add_process` keeps the invariant if and only if the process is new: the code does not check
      that its threads are no one's yet, and adding a process twice puts threads in the queue twice. */
  lemma AddKeepsIff(s: System, threads: seq<nat>)
    requires Inv(s) && forall t | t in threads :: Known(s, t)
    ensures Inv(s.(queue := s.queue + threads)) <==> Allowed(s, AddProcess(threads))
  {
    var s' := s.(queue := s.queue + threads);
    if Allowed(s, AddProcess(threads)) {
      AddKeeps(s, threads);
    }
    if Inv(s') {
      forall j, k | 0 <= j < k < |threads| ensures threads[j] != threads[k] {
        assert s'.queue[|s.queue| + j] == threads[j] && s'.queue[|s.queue| + k] == threads[k];
      }
      forall t | t in threads ensures !Holds(s, t) {
        var k :| 0 <= k < |threads| && threads[k] == t;
        assert s'.queue[|s.queue| + k] == t && t in s'.queue;
        forall j: nat | j < |s.queue| ensures s.queue[j] != t { assert s'.queue[j] == s.queue[j]; }
      }
    }
  }

  /** Adding a process of one thread twice puts the thread in the queue twice. */
  lemma AddTwiceExample(context: Context)
    ensures var s := System([], map[], {}, map[7 := context], map[7 := 1], map[1 := ProcessState(None, true)], map[], 0);
      var once := Next(s, AddProcess([7])).value;
      Inv(s) && Inv(once) && !Inv(Next(once, AddProcess([7])).value)
  {
    var s := System([], map[], {}, map[7 := context], map[7 := 1], map[1 := ProcessState(None, true)], map[], 0);
    var once := Next(s, AddProcess([7])).value;
    AddKeepsIff(s, [7]);
    AddKeepsIff(once, [7]);
    assert once.queue == [7] && Holds(once, 7);
  }

  lemma StepKeeps(s: System, op: Op, s': System)
    requires Inv(s) && Step(s, op, s')
    ensures Inv(s') && s'.parent == s.parent
    ensures forall t :: Holds(s', t) <==> Holds(s, t) || (op.AddProcess? && t in op.threads)
  {
    match op {
      case Start(c) => Rotates(s, c, s.queue);
      case SetReady(c) =>
      case Schedule(c, registers) => if c in s.ready { Rotates(s, c, Requeued(s.queue, Current(s, c))); }
      case AddProcess(threads) => AddKeeps(s, threads);
      case ReplaceImage(c, table, image) =>
      case Exec(c) =>
    }
    if !op.AddProcess? {
      assert forall t :: Holds(s', t) <==> Holds(s, t);
      forall t | Holds(s', t) ensures Known(s', t) { assert Holds(s, t); }
    }
  }

  lemma {:induction false} RunKeeps(states: seq<System>, ops: seq<Op>, i: nat)
    requires Run(states, ops) && i <= |ops|
    ensures Inv(states[i])
  {
    if i > 0 {
      RunKeeps(states, ops, i - 1);
      StepKeeps(states[i - 1], ops[i - 1], states[i]);
    }
  }

  function Added(ops: seq<Op>): set<nat> {
    if ops == [] then {}
    else Added(ops[..|ops| - 1]) + Elements(if ops[|ops| - 1].AddProcess? then ops[|ops| - 1].threads else [])
  }

  /** Conservation: over any interleaving no thread is lost or invented, and none is in two places. */
  lemma {:induction false} ThreadsConserved(states: seq<System>, ops: seq<Op>)
    requires Run(states, ops)
    ensures Threads(states[|ops|]) == Threads(states[0]) + Added(ops)
    ensures Inv(states[|ops|])
    decreases |ops|
  {
    if |ops| > 0 {
      var k := |ops| - 1;
      assert Run(states[..k + 1], ops[..k]);
      ThreadsConserved(states[..k + 1], ops[..k]);
      StepKeeps(states[k], ops[k], states[k + 1]);
      forall t ensures t in Threads(states[k + 1]) <==> t in Threads(states[k]) || (ops[k].AddProcess? && t in ops[k].threads) {
        assert t in Threads(states[k + 1]) <==> Holds(states[k + 1], t);
        assert t in Threads(states[k]) <==> Holds(states[k], t);
      }
    }
  }

  /** No thread runs on two cores, and none runs while it waits. */
  lemma OneCoreOnly(states: seq<System>, ops: seq<Op>, i: nat, c: nat, d: nat)
    requires Run(states, ops) && i <= |ops| && c in states[i].current && d in states[i].current && c != d
    ensures states[i].current[c] != states[i].current[d] && states[i].current[c] !in states[i].queue
  {
    RunKeeps(states, ops, i);
  }

  // Panics.

  /** `schedule` panics exactly when a ready core has no thread and the queue is empty; in
      particular it always finds a table to run the thread on. */
  lemma SchedulePanics(s: System, c: nat, registers: Registers)
    requires Inv(s)
    ensures Next(s, Schedule(c, registers)).None? <==> c in s.ready && c !in s.current && s.queue == []
  {
    var queue := Requeued(s.queue, Current(s, c));
    if queue != [] {
      if c in s.current {
        assert queue[0] in s.queue || queue[0] == s.current[c];
      }
      assert Holds(s, queue[0]);
      assert Known(s, queue[0]) && Runnable(s.process[s.parent[queue[0]]]);
    }
  }

  /** `exec` panics exactly on a core without a thread. */
  lemma ExecPanics(s: System, c: nat)
    requires Inv(s)
    ensures Next(s, Exec(c)).None? <==> c !in s.current
  {
    if c in s.current {
      assert Holds(s, s.current[c]);
      assert Known(s, s.current[c]) && Runnable(s.process[s.parent[s.current[c]]]);
    }
  }

  /** Without the invariant there is one more panic: a process that is neither the kernel's nor has a
      memory space cannot run. */
  lemma NoTablePanics(s: System, c: nat, registers: Registers, t: nat)
    requires c in s.current && Known(s, t)
    ensures c in s.ready && t == (s.queue + [s.current[c]])[0] ==>
      (Next(s, Schedule(c, registers)).None? <==> !Runnable(s.process[s.parent[t]]))
    ensures t == s.current[c] ==> (Next(s, Exec(c)).None? <==> !Runnable(s.process[s.parent[t]]))
  {}

  // Tables.

  /** A process runs on the table of its memory space; without one, a kernel process runs on the kernel's. */
  ghost predicate BelongsOn(s: System, t: nat, table: nat) {
    Known(s, t) &&
    var p := s.process[s.parent[t]];
    p.memorySpace == Some(table) || (p.memorySpace.None? && p.kernel && table == s.kernelCr3)
  }

  /** The core runs its thread on the table of the thread's process. */
  ghost predicate OnOwnTable(s: System, c: nat)
    requires c in s.current
  {
    c in s.table && BelongsOn(s, s.current[c], s.table[c])
  }

  /** The table that `schedule` and `exec` switch a core to is that of the memory space of its
      thread's process, and the kernel's if the process has none, which only a kernel process may. */
  lemma SwitchedTable(s: System, op: Op, s': System)
    requires Inv(s) && Step(s, op, s') && (op.Exec? || (op.Schedule? && op.core in s.ready))
    ensures op.core in s'.current && op.core in s'.table && Known(s', s'.current[op.core])
    ensures var p, table := s'.process[s'.parent[s'.current[op.core]]], s'.table[op.core];
      && (p.memorySpace.Some? ==> table == p.memorySpace.value)
      && (p.memorySpace.None? ==> p.kernel && table == s.kernelCr3)
  {
    StepKeeps(s, op, s');
    assert Holds(s', s'.current[op.core]);
  }

  ghost predicate SameProcess(s: System, c: nat, d: nat)
    requires c in s.current && d in s.current
  {
    s.current[c] in s.parent && s.current[d] in s.parent && s.parent[s.current[c]] == s.parent[s.current[d]]
  }

  /** Exactly when a core runs its thread on the right table after a step: `schedule` and `exec`
      see to it; `start` does so only for a process that uses the kernel's table, because it takes
      that one for every thread; and `replace_image` leaves all cores of the process on the old one. */
  lemma OnOwnTableIff(s: System, op: Op, s': System, c: nat)
    requires Inv(s) && Step(s, op, s') && c in s'.current
    ensures OnOwnTable(s', c) <==>
      match op
      case Start(d) => if d == c then BelongsOn(s, s'.current[c], s.kernelCr3) else OnOwnTable(s, c)
      case Schedule(d, _) => (d == c && c in s.ready) || (c in s.current && OnOwnTable(s, c))
      case Exec(d) => d == c || OnOwnTable(s, c)
      case ReplaceImage(d, table, _) => if SameProcess(s, c, d) then c in s.table && s.table[c] == table else OnOwnTable(s, c)
      case SetReady(_) => OnOwnTable(s, c)
      case AddProcess(_) => OnOwnTable(s, c)
  {
    hide Inv;
    StepKeeps(s, op, s');
    AllKnown(s', s'.current[c]);
    if op.ReplaceImage? {
      AllKnown(s, s.current[op.core]);
      AllKnown(s, s.current[c]);
    }
  }

  lemma AllKnown(s: System, t: nat)
    requires Inv(s) && Holds(s, t)
    ensures Known(s, t)
  {}

  /** `start` on a process with a table of its own runs the thread on the wrong one. */
  lemma StartOnWrongTable(s: System, c: nat)
    requires Inv(s) && c !in s.current && s.queue != [] && Known(s, s.queue[0])
    requires s.process[s.parent[s.queue[0]]].memorySpace.Some?
    requires s.process[s.parent[s.queue[0]]].memorySpace.value != s.kernelCr3
    ensures Next(s, Start(c)).Some? && c in Next(s, Start(c)).value.current && !OnOwnTable(Next(s, Start(c)).value, c)
  {}

  ghost predicate AllOnOwnTable(s: System) {
    forall c | c in s.current :: OnOwnTable(s, c)
  }

  /** The step puts core `c` on a wrong table: `start` for a process with a table of its own, or a
      new image for the process that `c` runs, under a table that `c` was not switched to. */
  ghost predicate Misplaces(s: System, op: Op, c: nat) {
    match op
    case Start(d) => d == c && s.queue != [] && !BelongsOn(s, s.queue[0], s.kernelCr3)
    case ReplaceImage(d, table, _) =>
      c in s.current && d in s.current && SameProcess(s, c, d) && !(c in s.table && s.table[c] == table)
    case _ => false
  }

  lemma StepMisplacesIff(s: System, op: Op, s': System)
    requires Inv(s) && Step(s, op, s') && AllOnOwnTable(s)
    ensures AllOnOwnTable(s') <==> forall c: nat :: !Misplaces(s, op, c)
  {
    hide OnOwnTable, Inv;
    forall c | c in s'.current ensures OnOwnTable(s', c) <==> !Misplaces(s, op, c) {
      CurrentAfter(s, op, s', c);
      OnOwnTableIff(s, op, s', c);
    }
    forall c: nat | c !in s'.current ensures !Misplaces(s, op, c) {
      StillCurrent(s, op, s', c);
    }
  }

  /** Over any run every core runs its thread on the table of the thread's process, as long as no
      step misplaces one. */
  lemma {:induction false} TablesAreOwn(states: seq<System>, ops: seq<Op>, i: nat)
    requires Run(states, ops) && i <= |ops| && AllOnOwnTable(states[0])
    requires forall k, c: nat | 0 <= k < i :: !Misplaces(states[k], ops[k], c)
    ensures AllOnOwnTable(states[i])
  {
    hide AllOnOwnTable, Next, Misplaces;
    if i > 0 {
      TablesAreOwn(states, ops, i - 1);
      RunKeeps(states, ops, i - 1);
      StepMisplacesIff(states[i - 1], ops[i - 1], states[i]);
    }
  }

  lemma StillCurrent(s: System, op: Op, s': System, c: nat)
    requires Step(s, op, s') && c !in s'.current
    ensures c !in s.current && !(op.Start? && op.core == c)
  {}

  lemma CurrentAfter(s: System, op: Op, s': System, c: nat)
    requires Step(s, op, s') && c in s'.current
    ensures c in s.current || ((op.Start? || (op.Schedule? && c in s.ready)) && op.core == c)
    ensures op.Start? && op.core == c ==> s'.current[c] == s.queue[0]
  {}

  // Round robin.

  predicate Pops(s: System, op: Op) {
    op.Start? || (op.Schedule? && op.core in s.ready)
  }

  function PopCount(states: seq<System>, ops: seq<Op>, n: nat): nat
    requires |states| == |ops| + 1 && n <= |ops|
  {
    if n == 0 then 0 else PopCount(states, ops, n - 1) + if Pops(states[n - 1], ops[n - 1]) then 1 else 0
  }

  lemma StepMovesUp(s: System, op: Op, s': System, k: nat)
    requires Step(s, op, s') && k < |s.queue|
    ensures Pops(s, op) && k == 0 ==> op.core in s'.current && s'.current[op.core] == s.queue[0]
    ensures Pops(s, op) && k > 0 ==> k - 1 < |s'.queue| && s'.queue[k - 1] == s.queue[k]
    ensures !Pops(s, op) ==> k < |s'.queue| && s'.queue[k] == s.queue[k]
  {}

  /** A waiting thread moves up by one with every pop of any core, whatever is added meanwhile. */
  lemma {:induction false} QueuePosition(states: seq<System>, ops: seq<Op>, k: nat, n: nat)
    requires Run(states, ops) && n <= |ops| && k < |states[0].queue| && PopCount(states, ops, n) <= k
    ensures k - PopCount(states, ops, n) < |states[n].queue|
    ensures states[n].queue[k - PopCount(states, ops, n)] == states[0].queue[k]
  {
    if n > 0 {
      QueuePosition(states, ops, k, n - 1);
      StepMovesUp(states[n - 1], ops[n - 1], states[n], k - PopCount(states, ops, n - 1));
    }
  }

  /** The thread at position `k` is picked by the pop number `k + 1`. */
  lemma PickedInTurn(states: seq<System>, ops: seq<Op>, k: nat, n: nat)
    requires Run(states, ops) && n < |ops| && k < |states[0].queue|
    requires PopCount(states, ops, n) == k && Pops(states[n], ops[n])
    ensures ops[n].core in states[n + 1].current && states[n + 1].current[ops[n].core] == states[0].queue[k]
  {
    QueuePosition(states, ops, k, n);
    StepMovesUp(states[n], ops[n], states[n + 1], 0);
  }

  // Contexts.

  /** Step `i` preempts thread `t`. */
  predicate PreemptedAt(states: seq<System>, ops: seq<Op>, t: nat, i: nat)
    requires |states| == |ops| + 1
  {
    i < |ops| && ops[i].Schedule? && ops[i].core in states[i].ready && Current(states[i], ops[i].core) == Some(t)
  }

  predicate ReplacedAt(states: seq<System>, ops: seq<Op>, t: nat, i: nat)
    requires |states| == |ops| + 1
  {
    i < |ops| && ops[i].ReplaceImage? && Current(states[i], ops[i].core) == Some(t)
  }

  function LastPreempted(states: seq<System>, ops: seq<Op>, t: nat, n: nat): (i: Option<nat>)
    requires |states| == |ops| + 1
    ensures i.Some? ==> i.value < n && PreemptedAt(states, ops, t, i.value)
  {
    if n == 0 then None
    else if PreemptedAt(states, ops, t, n - 1) then Some(n - 1)
    else LastPreempted(states, ops, t, n - 1)
  }

  function LastReplaced(states: seq<System>, ops: seq<Op>, t: nat, n: nat): (i: Option<nat>)
    requires |states| == |ops| + 1
    ensures i.Some? ==> i.value < n && ReplacedAt(states, ops, t, i.value)
  {
    if n == 0 then None
    else if ReplacedAt(states, ops, t, n - 1) then Some(n - 1)
    else LastReplaced(states, ops, t, n - 1)
  }

  /** How often `t` was preempted by the steps from `from` up to `n`. */
  function Preemptions(states: seq<System>, ops: seq<Op>, t: nat, from: nat, n: nat): nat
    requires |states| == |ops| + 1
    decreases n
  {
    if n <= from then 0
    else Preemptions(states, ops, t, from, n - 1) + if PreemptedAt(states, ops, t, n - 1) then 1 else 0
  }

  lemma {:induction false} SomePreemption(states: seq<System>, ops: seq<Op>, t: nat, from: nat, n: nat)
    requires |states| == |ops| + 1
    ensures Preemptions(states, ops, t, from, n) > 0 ==> LastPreempted(states, ops, t, n).Some?
  {
    if n > from { SomePreemption(states, ops, t, from, n - 1); }
  }

  /** The registers a thread should resume with: those of its last preemption, or those of the
      last image set up for it as long as at most one preemption followed. */
  function Resumes(states: seq<System>, ops: seq<Op>, t: nat, n: nat): Registers
    requires |states| == |ops| + 1 && n <= |ops| && t in states[0].context
  {
    var replaced, preempted := LastReplaced(states, ops, t, n), LastPreempted(states, ops, t, n);
    if replaced.Some? && (Preemptions(states, ops, t, replaced.value + 1, n) <= 1 || preempted.None?)
    then ops[replaced.value].image
    else if preempted.Some? then ops[preempted.value].registers
    else states[0].context[t].registers
  }

  lemma StepContext(states: seq<System>, ops: seq<Op>, t: nat, i: nat)
    requires Run(states, ops) && i < |ops| && t in states[i].context
    ensures t in states[i + 1].context
    ensures states[i + 1].context[t] ==
      if PreemptedAt(states, ops, t, i) then Saved(states[i].context[t], ops[i].registers)
      else if ReplacedAt(states, ops, t, i) then Context(ops[i].image, false)
      else states[i].context[t]
  {
    assert Step(states[i], ops[i], states[i + 1]);
  }

  lemma {:induction false} LastIsLast(states: seq<System>, ops: seq<Op>, t: nat, n: nat, j: nat)
    requires |states| == |ops| + 1 && j < n
    ensures PreemptedAt(states, ops, t, j) ==> LastPreempted(states, ops, t, n).Some? && j <= LastPreempted(states, ops, t, n).value
    ensures ReplacedAt(states, ops, t, j) ==> LastReplaced(states, ops, t, n).Some? && j <= LastReplaced(states, ops, t, n).value
  {
    if j < n - 1 { LastIsLast(states, ops, t, n - 1, j); }
  }

  /** The context after the first `n` steps is as it should be. */
  ghost predicate ContextOk(states: seq<System>, ops: seq<Op>, t: nat, n: nat)
    requires |states| == |ops| + 1 && n <= |ops| && t in states[0].context
  {
    var replaced := LastReplaced(states, ops, t, n);
    && t in states[n].context && states[n].context[t].registers == Resumes(states, ops, t, n)
    && (states[n].context[t].update <==>
          (replaced.Some? ==> Preemptions(states, ops, t, replaced.value + 1, n) > 0))
  }

  lemma AfterPreemption(states: seq<System>, ops: seq<Op>, t: nat, n: nat)
    requires Run(states, ops) && n < |ops| && t in states[0].context && ContextOk(states, ops, t, n)
    requires PreemptedAt(states, ops, t, n) && t in states[n + 1].context
    requires states[n + 1].context[t] == Saved(states[n].context[t], ops[n].registers)
    ensures ContextOk(states, ops, t, n + 1)
  {
    hide Step, Inv;
    var replaced := LastReplaced(states, ops, t, n);
    assert !ReplacedAt(states, ops, t, n) && LastReplaced(states, ops, t, n + 1) == replaced;
    assert LastPreempted(states, ops, t, n + 1) == Some(n);
    if replaced.Some? {
      assert Preemptions(states, ops, t, replaced.value + 1, n + 1) == Preemptions(states, ops, t, replaced.value + 1, n) + 1;
    }
  }

  lemma AfterReplacement(states: seq<System>, ops: seq<Op>, t: nat, n: nat)
    requires Run(states, ops) && n < |ops| && t in states[0].context
    requires ReplacedAt(states, ops, t, n) && t in states[n + 1].context
    requires states[n + 1].context[t] == Context(ops[n].image, false)
    ensures ContextOk(states, ops, t, n + 1)
  {
    assert LastReplaced(states, ops, t, n + 1) == Some(n);
    assert Preemptions(states, ops, t, n + 1, n + 1) == 0;
  }

  lemma AfterOther(states: seq<System>, ops: seq<Op>, t: nat, n: nat)
    requires Run(states, ops) && n < |ops| && t in states[0].context && ContextOk(states, ops, t, n)
    requires !PreemptedAt(states, ops, t, n) && !ReplacedAt(states, ops, t, n)
    requires t in states[n + 1].context && states[n + 1].context[t] == states[n].context[t]
    ensures ContextOk(states, ops, t, n + 1)
  {
    hide PreemptedAt, ReplacedAt, Step, Inv;
    var replaced := LastReplaced(states, ops, t, n);
    assert LastReplaced(states, ops, t, n + 1) == replaced;
    assert LastPreempted(states, ops, t, n + 1) == LastPreempted(states, ops, t, n);
    if replaced.Some? {
      assert Preemptions(states, ops, t, replaced.value + 1, n + 1) == Preemptions(states, ops, t, replaced.value + 1, n);
    }
  }

  /** Context preservation: in every state of a run a thread's saved registers are those it
      should resume with. The first preemption after a new image is skipped, no other. */
  lemma {:induction false} ContextsPreserved(states: seq<System>, ops: seq<Op>, t: nat, n: nat)
    requires Run(states, ops) && n <= |ops| && t in states[0].context && states[0].context[t].update
    ensures ContextOk(states, ops, t, n)
  {
    hide Step, Inv;
    if n > 0 {
      hide ContextOk;
      ContextsPreserved(states, ops, t, n - 1);
      ContextThere(states, ops, t, n - 1);
      StepContext(states, ops, t, n - 1);
      if PreemptedAt(states, ops, t, n - 1) {
        AfterPreemption(states, ops, t, n - 1);
      } else if ReplacedAt(states, ops, t, n - 1) {
        AfterReplacement(states, ops, t, n - 1);
      } else {
        AfterOther(states, ops, t, n - 1);
      }
    }
  }

  lemma ContextThere(states: seq<System>, ops: seq<Op>, t: nat, n: nat)
    requires |states| == |ops| + 1 && n <= |ops| && t in states[0].context && ContextOk(states, ops, t, n)
    ensures t in states[n].context
  {}

  /** What `schedule` hands back for the picked thread is what it should resume with, and the
      thread was waiting or running on this core before. */
  lemma PickResumes(states: seq<System>, ops: seq<Op>, n: nat)
    requires Run(states, ops) && n < |ops| && ops[n].Schedule? && ops[n].core in states[n].ready
    requires forall t | t in states[0].context :: states[0].context[t].update
    ensures ops[n].core in states[n + 1].current
    ensures states[n + 1].current[ops[n].core] == Requeued(states[n].queue, Current(states[n], ops[n].core))[0]
    ensures var t := states[n + 1].current[ops[n].core];
      t in states[0].context ==> t in states[n + 1].context && states[n + 1].context[t].registers == Resumes(states, ops, t, n + 1)
  {
    assert Step(states[n], ops[n], states[n + 1]);
    var t := states[n + 1].current[ops[n].core];
    if t in states[0].context { ContextsPreserved(states, ops, t, n + 1); }
  }
}
