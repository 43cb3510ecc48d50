/** Whole runs of the kernel, event by event, and what holds over them. */
module KernelRuns {
  import opened Scheduling
  import opened Sequences
  import opened ProcessTable
  import opened ProcessSteps

  /** What `mem_alloc` and `mem_free` do to the heap of a page directory: new heap pointers and a result. */
  type HeapCall = (int, Pointers, int) -> (Pointers, int)

  /** A program named in a run command: whether its file exists, and the context of its new process. */
  datatype Program = Program(found: bool, ctx: Context)

  /** A system call, with what the model takes from outside: the child's directory, the allocator, the interrupts. */
  datatype Call =
    | Exit
    | Wait
    | Fork(dir: Directory)
    | Malloc(alloc: HeapCall)
    | MemFree(free: HeapCall)
    | Hlt(ticks: nat, programs: seq<Program>)   // the interrupts that come: timer ticks, then a key
    | Other(eax: int)

  datatype Event =
    | Compute(regs: Regs)                  // the running process changes its registers
    | Tick(kernel: Pointers)               // the timer; `kernel` is where the kernel's own allocations lead
    | Press(programs: seq<Program>, kernel: Pointers)   // a key, which may be the end of a run command
    | Syscall(call: Call, kernel: Pointers)

  /** `run_program`: the least free slot gets a child of init, or is free again if there is no such program. */
  function Launched(ps: Table, program: Program): Table
  {
    var id := LeastFree(ps, 0);
    if id == NUM_PROCESSES then ps else ps[id := Process(if program.found then Runnable else Free, INIT, 1, program.ctx)]
  }

  /** `run_program` without `Launched`: the slot is in use exactly if there is such a program. */
  ghost predicate LaunchMeans(ps: Table, r: Table, program: Program)
  {
    if forall i :: IsPid(i) ==> ps[i].state != Free then r == ps
    else exists id :: FirstFree(ps, id) && r[id].state == (if program.found then Runnable else Free) && r[id].parent == 1 && r[id].prio == 1
                      && r[id].ctx == program.ctx && forall i :: IsPid(i) && i != id ==> r[i] == ps[i]
  }

  /** Only a process that is started enters a runqueue, that of priority 1. */
  ghost predicate LaunchQueues(ps: Table, qs: seq<seq<int>>, qs': seq<seq<int>>, program: Program)
  {
    if !program.found || forall i :: IsPid(i) ==> ps[i].state != Free then qs' == qs
    else exists id :: FirstFree(ps, id) && Joins(qs, qs', 1, id)
  }

  lemma LaunchIs(ps: Table, program: Program)
    ensures LaunchMeans(ps, Launched(ps, program), program)
  {
    var id := LeastFree(ps, 0);
    if id < NUM_PROCESSES { assert FirstFree(ps, id); }
  }

  lemma LaunchQueuesAre(ps: Table, program: Program, qs: seq<seq<int>>, qs': seq<seq<int>>)
    requires if program.found && LeastFree(ps, 0) < NUM_PROCESSES then Joins(qs, qs', 1, LeastFree(ps, 0)) else qs' == qs
    ensures LaunchQueues(ps, qs, qs', program)
  {
    var id := LeastFree(ps, 0);
    if id < NUM_PROCESSES { assert FirstFree(ps, id); }
  }

  function LaunchAll(ps: Table, programs: seq<Program>): Table
    decreases |programs|
  {
    if programs == [] then ps else LaunchAll(Launched(ps, programs[0]), programs[1..])
  }

  /** One program after the other is launched. */
  ghost predicate Launches(ps: Table, r: Table, programs: seq<Program>)
    decreases |programs|
  {
    if programs == [] then r == ps else exists m :: LaunchMeans(ps, m, programs[0]) && Launches(m, r, programs[1..])
  }

  lemma {:induction false} LaunchesAll(ps: Table, programs: seq<Program>)
    ensures Launches(ps, LaunchAll(ps, programs), programs)
    decreases |programs|
  {
    if programs != [] {
      var m := Launched(ps, programs[0]);
      LaunchIs(ps, programs[0]);
      LaunchesAll(m, programs[1..]);
      assert LaunchMeans(ps, m, programs[0]);
    }
  }

  /** Some program of the command is started. */
  predicate Starts(ps: Table, programs: seq<Program>)
    decreases |programs|
  {
    programs != [] && ((LeastFree(ps, 0) < NUM_PROCESSES && programs[0].found) || Starts(Launched(ps, programs[0]), programs[1..]))
  }

  lemma {:induction false} LaunchMore(ps: Table, programs: seq<Program>, p: Program)
    ensures LaunchAll(ps, programs + [p]) == Launched(LaunchAll(ps, programs), p)
    ensures Starts(ps, programs + [p]) <==> Starts(ps, programs) || (LeastFree(LaunchAll(ps, programs), 0) < NUM_PROCESSES && p.found)
    decreases |programs|
  {
    if programs == [] {
      assert ([] + [p])[1..] == [] && LaunchAll(Launched(ps, p), []) == Launched(ps, p);
    } else {
      assert (programs + [p])[1..] == programs[1..] + [p];
      LaunchMore(Launched(ps, programs[0]), programs[1..], p);
    }
  }

  /** Processes that exist are not touched. */
  lemma {:induction false} LaunchLive(ps: Table, programs: seq<Program>)
    ensures forall i :: Live(ps, i) ==> LaunchAll(ps, programs)[i] == ps[i]
    decreases |programs|
  {
    if programs != [] { LaunchLive(Launched(ps, programs[0]), programs[1..]); }
  }

  lemma LaunchNext(ps: Table, programs: seq<Program>, i: nat, r: Table)
    requires i < |programs| && r == LaunchAll(ps, programs[..i])
    ensures LaunchAll(ps, programs[..i + 1]) == Launched(r, programs[i]) && forall j :: Live(ps, j) ==> r[j] == ps[j]
    ensures Starts(ps, programs[..i + 1]) <==> Starts(ps, programs[..i]) || (LeastFree(r, 0) < NUM_PROCESSES && programs[i].found)
  {
    assert programs[..i + 1] == programs[..i] + [programs[i]];
    LaunchMore(ps, programs[..i], programs[i]);
    LaunchLive(ps, programs[..i]);
  }

  ghost predicate SameStates(ps: Table, ps': Table)
  {
    forall i :: IsPid(i) ==> ps'[i].state == ps[i].state
  }

  lemma {:induction false} SameSlot(ps: Table, ps': Table, i: int)
    requires SameStates(ps, ps') && 0 <= i <= NUM_PROCESSES
    ensures LeastFree(ps', i) == LeastFree(ps, i)
    decreases NUM_PROCESSES - i
  {
    if i < NUM_PROCESSES && ps[i].state != Free { SameSlot(ps, ps', i + 1); }
  }

  /** Launching programs has nothing to do with the contexts of those that exist. */
  lemma {:induction false} LaunchContext(ps: Table, programs: seq<Program>, i: int, ctx: Context)
    requires Live(ps, i)
    ensures LaunchAll(WithContext(ps, i, ctx), programs) == WithContext(LaunchAll(ps, programs), i, ctx)
    ensures Starts(WithContext(ps, i, ctx), programs) == Starts(ps, programs)
    decreases |programs|
  {
    var ps' := WithContext(ps, i, ctx);
    SameSlot(ps, ps', 0);
    if programs != [] {
      assert Launched(ps', programs[0]) == WithContext(Launched(ps, programs[0]), i, ctx);
      LaunchContext(Launched(ps, programs[0]), programs[1..], i, ctx);
    }
  }

  /** A halt that is entered after a program was started ends at the first interrupt; if that is a timer tick, nothing else happens. */
  function Awake(call: Call, launched: bool): Call
  {
    if call.Hlt? && launched && call.ticks > 0 then call.(programs := []) else call
  }

  /** What each system call of process id does to the table. */
  ghost predicate Done(call: Call, ps: Table, r: Table, id: int)
    requires IsPid(id)
  {
    var ctx := ps[id].ctx;
    match call
    case Exit => ExitDone(ps, r, id)
    case Wait => WaitDone(ps, r, id)
    case Fork(dir) => ForkDone(ps, r, id, dir)
    case Malloc(alloc) =>
      var (heap, eax) := alloc(ctx.dir, ctx.heap, ctx.regs.ebx);
      r == WithContext(ps, id, ctx.(heap := heap, regs := ctx.regs.(eax := eax)))
    case MemFree(free) => r == WithContext(ps, id, ctx.(heap := free(ctx.dir, ctx.heap, ctx.regs.ebx).0))
    case Hlt(_, programs) => r == LaunchAll(ps, programs)
    case Other(eax) => r == WithEax(ps, id, eax)
  }

  /** init and idle live for ever, idle never waits, and a child's priority is not negative. */
  predicate Permitted(call: Call, ps: Table, id: int)
    requires IsPid(id)
  {
    match call
    case Exit => !IsRoot(id)
    case Wait => id != IDLE
    case Fork(_) => ps[id].ctx.regs.ebx >= 0
    case _ => true
  }

  lemma DoneStep(call: Call, ps: Table, r: Table, qs: seq<seq<int>>, past: Past, id: int)
    requires IsPid(id) && Good(ps, qs, past, -1) && ps[id].state == Runnable && Permitted(call, ps, id) && Done(call, ps, r, id)
    ensures Step(ps, r, id)
  {
    assert FamilyAt(ps, past.depth, -1, id) && FamilyAt(ps, past.depth, -1, INIT);
    match call
    case Exit => ExitStep(ps, r, id);
    case Wait => WaitStep(ps, r, id);
    case Hlt(_, programs) => LaunchLive(ps, programs); OnlySelf(ps, r, id);
    case _ => OnlySelf(ps, r, id);
  }

  // ----- the runqueues -----

  /** The choice of `select_new_process`, and the runqueues after it. */
  ghost predicate Selected(qs: seq<seq<int>>, qs': seq<seq<int>>, ps: Table, curr: int, next: int)
  {
    AllPids(qs, Runs(ps)) && next == Chosen(qs, Runs(ps), curr) && qs' == AfterSelect(qs, Runs(ps))
  }

  /** Those of the queue that are still there, in order. */
  function Alive(q: seq<int>, r: Table): seq<int>
  {
    if q == [] then [] else (if Live(r, q[0]) then [q[0]] else []) + Alive(q[1..], r)
  }

  ghost predicate IsNew(ps: Table, r: Table, id: int)
  {
    IsPid(id) && ps[id].state == Free && r[id].state != Free
  }

  /** Queues only lose processes that are gone. */
  ghost predicate Leaves(qs: seq<seq<int>>, qs': seq<seq<int>>, r: Table)
  {
    |qs'| == |qs| && forall q :: 0 <= q < |qs| ==> qs'[q] == Alive(qs[q], r)
  }

  /** Besides, new processes may enter at the back. */
  ghost predicate Moves(qs: seq<seq<int>>, qs': seq<seq<int>>, ps: Table, r: Table)
  {
    |qs'| == |qs| && forall q {:trigger MovesAt(qs, qs', ps, r, q)} :: 0 <= q < |qs| ==> MovesAt(qs, qs', ps, r, q)
  }

  ghost predicate MovesAt(qs: seq<seq<int>>, qs': seq<seq<int>>, ps: Table, r: Table, q: int)
    requires 0 <= q < |qs| == |qs'|
  {
    exists more: seq<int> :: AllNew(ps, r, more) && qs'[q] == Alive(qs[q], r) + more
  }

  ghost predicate AllNew(ps: Table, r: Table, more: seq<int>)
  {
    forall i :: 0 <= i < |more| ==> IsNew(ps, r, more[i])
  }

  /** Queues only grow, at the back, by processes that are new. */
  ghost predicate Arrives(qs: seq<seq<int>>, qs': seq<seq<int>>, ps: Table, r: Table)
  {
    |qs'| == |qs| && forall q {:trigger ArrivesAt(qs, qs', ps, r, q)} :: 0 <= q < |qs| ==> ArrivesAt(qs, qs', ps, r, q)
  }

  ghost predicate ArrivesAt(qs: seq<seq<int>>, qs': seq<seq<int>>, ps: Table, r: Table, q: int)
    requires 0 <= q < |qs| == |qs'|
  {
    exists more: seq<int> :: AllNew(ps, r, more) && qs'[q] == qs[q] + more
  }

  lemma ArrivesNone(qs: seq<seq<int>>, ps: Table, r: Table)
    ensures Arrives(qs, qs, ps, r)
  {
    forall q | 0 <= q < |qs| ensures ArrivesAt(qs, qs, ps, r, q) { assert AllNew(ps, r, []) && qs[q] == qs[q] + []; }
  }

  lemma ArrivesOne(qs: seq<seq<int>>, ps: Table, r: Table, id: int, prio: int)
    requires IsNew(ps, r, id) && 0 <= prio < |qs|
    ensures Arrives(qs, qs[prio := qs[prio] + [id]], ps, r)
  {
    var qs' := qs[prio := qs[prio] + [id]];
    forall q | 0 <= q < |qs| ensures ArrivesAt(qs, qs', ps, r, q) {
      assert AllNew(ps, r, []) && AllNew(ps, r, [id]) && qs[q] == qs[q] + [];
    }
  }

  lemma ArrivesTrans(qs: seq<seq<int>>, qs1: seq<seq<int>>, qs2: seq<seq<int>>, ps: Table, r1: Table, r2: Table)
    requires Arrives(qs, qs1, ps, r1) && Arrives(qs1, qs2, r1, r2)
    requires forall i :: (Live(ps, i) ==> Live(r1, i)) && (Live(r1, i) ==> Live(r2, i))
    ensures Arrives(qs, qs2, ps, r2)
  {
    forall q | 0 <= q < |qs| ensures ArrivesAt(qs, qs2, ps, r2, q) {
      assert ArrivesAt(qs, qs1, ps, r1, q) && ArrivesAt(qs1, qs2, r1, r2, q);
      var m1: seq<int> :| AllNew(ps, r1, m1) && qs1[q] == qs[q] + m1;
      var m2: seq<int> :| AllNew(r1, r2, m2) && qs2[q] == qs1[q] + m2;
      NewTwice(ps, r1, r2, m1, m2);
      assert qs2[q] == qs[q] + (m1 + m2);
    }
  }

  lemma NewTwice(ps: Table, r1: Table, r2: Table, m1: seq<int>, m2: seq<int>)
    requires AllNew(ps, r1, m1) && AllNew(r1, r2, m2)
    requires forall i :: (Live(ps, i) ==> Live(r1, i)) && (Live(r1, i) ==> Live(r2, i))
    ensures AllNew(ps, r2, m1 + m2)
  {
    forall i | 0 <= i < |m1 + m2| ensures IsNew(ps, r2, (m1 + m2)[i]) {
      if i < |m1| { assert IsNew(ps, r1, m1[i]) && Live(r1, m1[i]); } else { assert IsNew(r1, r2, m2[i - |m1|]) && !Live(ps, m2[i - |m1|]); }
    }
  }

  lemma ArrivesMoves(qs: seq<seq<int>>, qs': seq<seq<int>>, ps: Table, r: Table)
    requires Queues(ps, qs) && Arrives(qs, qs', ps, r) && forall i :: Live(ps, i) ==> Live(r, i)
    ensures Moves(qs, qs', ps, r)
  {
    forall q | 0 <= q < |qs| ensures MovesAt(qs, qs', ps, r, q) {
      forall i | 0 <= i < |qs[q]| ensures Live(r, qs[q][i]) { assert QueuedAt(ps, qs, q, qs[q][i]); }
      AliveAll(qs[q], r);
      assert ArrivesAt(qs, qs', ps, r, q);
    }
  }

  lemma {:induction false} AliveAll(q: seq<int>, r: Table)
    requires forall i :: 0 <= i < |q| ==> Live(r, q[i])
    ensures Alive(q, r) == q
  {
    if q != [] { AliveAll(q[1..], r); }
  }

  lemma {:induction false} AliveExcept(q: seq<int>, r: Table, c: int)
    requires !Live(r, c) && forall i :: 0 <= i < |q| && q[i] != c ==> Live(r, q[i])
    ensures Alive(q, r) == Except(q, c)
  {
    if q != [] { AliveExcept(q[1..], r, c); }
  }

  lemma {:induction false} AliveTwice(q: seq<int>, r: Table, r': Table)
    requires forall x :: Live(r', x) ==> Live(r, x)
    ensures Alive(Alive(q, r), r') == Alive(q, r')
  {
    if q != [] {
      AliveTwice(q[1..], r, r');
      var rest := Alive(q[1..], r);
      if Live(r, q[0]) {
        assert Alive(q, r) == [q[0]] + rest && ([q[0]] + rest)[1..] == rest;
      } else {
        assert Alive(q, r) == rest;
      }
    }
  }

  /** Where nobody goes, nothing moves. */
  lemma LeavesNone(ps: Table, qs: seq<seq<int>>)
    requires Queues(ps, qs)
    ensures Leaves(qs, qs, ps)
  {
    forall q | 0 <= q < |qs| ensures qs[q] == Alive(qs[q], ps) {
      forall i | 0 <= i < |qs[q]| ensures Live(ps, qs[q][i]) { assert QueuedAt(ps, qs, q, qs[q][i]); }
      AliveAll(qs[q], ps);
    }
  }

  /** Taking a process out of its queue. */
  lemma LeavesOne(ps: Table, qs: seq<seq<int>>, r: Table, c: int)
    requires Queues(ps, qs) && Live(ps, c) && !Live(r, c) && 0 <= ps[c].prio < |qs| && forall i :: Live(ps, i) && i != c ==> Live(r, i)
    ensures Leaves(qs, qs[ps[c].prio := Except(qs[ps[c].prio], c)], r)
  {
    forall q | 0 <= q < |qs| ensures Alive(qs[q], r) == if q == ps[c].prio then Except(qs[q], c) else qs[q] {
      forall i | 0 <= i < |qs[q]| ensures Live(ps, qs[q][i]) && ps[qs[q][i]].prio == q { assert QueuedAt(ps, qs, q, qs[q][i]); }
      if q == ps[c].prio { AliveExcept(qs[q], r, c); } else { AliveAll(qs[q], r); }
    }
  }

  lemma LeavesTrans(qs: seq<seq<int>>, qs1: seq<seq<int>>, qs2: seq<seq<int>>, r1: Table, r2: Table)
    requires Leaves(qs, qs1, r1) && Leaves(qs1, qs2, r2) && forall x :: Live(r2, x) ==> Live(r1, x)
    ensures Leaves(qs, qs2, r2)
  {
    forall q | 0 <= q < |qs| ensures qs2[q] == Alive(qs[q], r2) { AliveTwice(qs[q], r1, r2); }
  }

  lemma LeavesMoves(qs: seq<seq<int>>, qs': seq<seq<int>>, ps: Table, r: Table)
    requires Leaves(qs, qs', r)
    ensures Moves(qs, qs', ps, r)
  {
    forall q | 0 <= q < |qs| ensures MovesAt(qs, qs', ps, r, q) { assert AllNew(ps, r, []) && qs'[q] == Alive(qs[q], r) + []; }
  }

  /** Nobody comes or goes. */
  lemma StayMoves(qs: seq<seq<int>>, ps: Table, r: Table)
    requires Queues(r, qs)
    ensures Moves(qs, qs, ps, r)
  {
    LeavesNone(r, qs);
    LeavesMoves(qs, qs, ps, r);
  }

  lemma {:induction false} AliveStates(q: seq<int>, r: Table, r': Table)
    requires SameStates(r, r')
    ensures Alive(q, r') == Alive(q, r)
  {
    if q != [] { AliveStates(q[1..], r, r'); }
  }

  /** Moves are a matter of states only. */
  lemma MovesStates(qs: seq<seq<int>>, qs': seq<seq<int>>, ps: Table, r: Table, ps': Table, r': Table)
    requires Moves(qs, qs', ps, r) && SameStates(ps, ps') && SameStates(r, r')
    ensures Moves(qs, qs', ps', r')
  {
    forall q | 0 <= q < |qs| ensures MovesAt(qs, qs', ps', r', q) {
      assert MovesAt(qs, qs', ps, r, q);
      AliveStates(qs[q], r, r');
      var more: seq<int> :| AllNew(ps, r, more) && qs'[q] == Alive(qs[q], r) + more;
      forall i | 0 <= i < |more| ensures IsNew(ps', r', more[i]) { assert IsNew(ps, r, more[i]); }
      assert AllNew(ps', r', more);
    }
  }

  /** A new process enters. */
  lemma EnterMoves(qs: seq<seq<int>>, ps: Table, r: Table, id: int, prio: int)
    requires Queues(ps, qs) && IsNew(ps, r, id) && 0 <= prio < |qs| && forall i :: Live(ps, i) ==> Live(r, i)
    ensures Moves(qs, qs[prio := qs[prio] + [id]], ps, r)
  {
    ArrivesOne(qs, ps, r, id, prio);
    ArrivesMoves(qs, qs[prio := qs[prio] + [id]], ps, r);
  }

  // ----- runs -----

  /**
   * The kernel between two events: processes as they see themselves, runqueues, who runs, the kernel's heap pointers,
   * and whether a program was started since the last halt (`run_executed`).
   */
  datatype Snapshot = Snapshot(ps: Table, qs: seq<seq<int>>, curr: int, kernel: Pointers, launched: bool, past: Past)

  ghost predicate Sound(s: Snapshot)
  {
    IsPid(s.curr) && s.ps[s.curr].state == Runnable && Good(s.ps, s.qs, s.past, -1)
  }

  /** The call ends in the choice of another process: it asked for that, or its caller cannot go on. */
  ghost predicate Yields(s: Snapshot, call: Call, r: Table)
    requires IsPid(s.curr)
  {
    call.Hlt? || r[s.curr].state != Runnable
  }

  /** What an event does; the only actor is the process that runs. */
  ghost predicate Next(s: Snapshot, e: Event, s': Snapshot)
    requires IsPid(s.curr)
  {
    match e
    case Compute(regs) => s' == s.(ps := WithContext(s.ps, s.curr, s.ps[s.curr].ctx.(regs := regs)))
    case Tick(kernel) => s' == s.(qs := s'.qs, curr := s'.curr, kernel := kernel) && Selected(s.qs, s'.qs, s.ps, s.curr, s'.curr)
    case Press(programs, kernel) =>
      && s' == Snapshot(LaunchAll(s.ps, programs), s'.qs, s.curr, kernel, s.launched || Starts(s.ps, programs), s'.past)
      && Logged(s.past, s'.past, s.ps, s'.ps) && Moves(s.qs, s'.qs, s.ps, s'.ps)
    case Syscall(call, kernel) =>
      if !Permitted(call, s.ps, s.curr) then s' == s
      else
        && Done(Awake(call, s.launched), s.ps, s'.ps, s.curr) && Logged(s.past, s'.past, s.ps, s'.ps)
        && s'.kernel == kernel && s'.launched == (s.launched && !call.Hlt?)
        && exists qs :: Called(s, call, s', qs)
  }

  /** qs are the runqueues after the call and before the choice of the next process, if there is one. */
  ghost predicate Called(s: Snapshot, call: Call, s': Snapshot, qs: seq<seq<int>>)
    requires IsPid(s.curr)
  {
    && Queues(s'.ps, qs) && Moves(s.qs, qs, s.ps, s'.ps)
    && if Yields(s, call, s'.ps) then Selected(qs, s'.qs, s'.ps, s.curr, s'.curr) else s'.curr == s.curr && s'.qs == qs
  }

  /** The process itself changes only in its heap pointers and eax, and no other process does. */
  ghost predicate OwnHeap(ps: Table, r: Table, curr: int, heap: Pointers, eax: int)
    requires IsPid(curr)
  {
    var a, b := ps[curr], r[curr];
    && b.state == a.state && b.parent == a.parent && b.prio == a.prio && b.ctx.heap == heap && b.ctx.dir == a.ctx.dir
    && b.ctx.regs.eax == eax && b.ctx.regs.ebx == a.ctx.regs.ebx && b.ctx.regs.ecx == a.ctx.regs.ecx
    && b.ctx.regs.others == a.ctx.regs.others
    && forall i :: IsPid(i) && i != curr ==> r[i] == ps[i]
  }

  /**
   * After the call, with the runqueues qs: a process that halts or cannot go on makes way for the first runnable one of the
   * highest priority; any other goes on.
   */
  ghost predicate Resumes(s: Snapshot, call: Call, s': Snapshot, qs: seq<seq<int>>)
    requires IsPid(s.curr)
  {
    && Queues(s'.ps, qs) && Moves(s.qs, qs, s.ps, s'.ps) && AllPids(qs, Runs(s'.ps))
    && if call.Hlt? || s'.ps[s.curr].state != Runnable then Picked(qs, Runs(s'.ps), s.curr, s'.curr, s'.qs) else s'.curr == s.curr && s'.qs == qs
  }

  /** What each system call does in a run, register by register, and who goes on. */
  lemma CallMeans(s: Snapshot, call: Call, kernel: Pointers, s': Snapshot)
    requires Sound(s) && Next(s, Syscall(call, kernel), s')
    requires (call.Exit? ==> s.curr > 1) && (call.Wait? ==> s.curr != 0) && (call.Fork? ==> s.ps[s.curr].ctx.regs.ebx >= 0)
    ensures s'.kernel == kernel && s'.launched == (s.launched && !call.Hlt?) && exists qs :: Resumes(s, call, s', qs)
    ensures match call
      case Exit => ExitMeans(s.ps, s'.ps, s.curr)
      case Wait => WaitMeans(s.ps, s'.ps, s.curr)
      case Fork(dir) => ForkMeans(s.ps, s'.ps, s.curr, dir)
      case Malloc(alloc) =>
        var ctx := s.ps[s.curr].ctx; var answer := alloc(ctx.dir, ctx.heap, ctx.regs.ebx);
        OwnHeap(s.ps, s'.ps, s.curr, answer.0, answer.1)
      case MemFree(free) =>
        var ctx := s.ps[s.curr].ctx; OwnHeap(s.ps, s'.ps, s.curr, free(ctx.dir, ctx.heap, ctx.regs.ebx).0, ctx.regs.eax)
      case Hlt(ticks, programs) =>
        if s.launched && ticks > 0 then s'.ps == s.ps
        else (forall i :: Live(s.ps, i) ==> s'.ps[i] == s.ps[i]) && Launches(s.ps, s'.ps, programs)
      case Other(eax) => Answered(s.ps, s'.ps, s.curr, eax)
  {
    assert FamilyAt(s.ps, s.past.depth, -1, s.curr) && FamilyAt(s.ps, s.past.depth, -1, INIT);
    WhoGoesOn(s, call, kernel, s');
    match call
    case Exit => ExitIs(s.ps, s'.ps, s.curr);
    case Wait => WaitIs(s.ps, s'.ps, s.curr);
    case Fork(dir) => ForkIs(s.ps, s'.ps, s.curr, dir);
    case Hlt(ticks, programs) =>
      LaunchLive(s.ps, programs);
      LaunchesAll(s.ps, programs);
    case _ =>
  }

  lemma WhoGoesOn(s: Snapshot, call: Call, kernel: Pointers, s': Snapshot)
    requires Sound(s) && Permitted(call, s.ps, s.curr) && Next(s, Syscall(call, kernel), s')
    ensures exists qs :: Resumes(s, call, s', qs)
  {
    var qs :| Called(s, call, s', qs);
    QueuePids(s'.ps, qs);
    ChosenIsPicked(qs, Runs(s'.ps), s.curr);
    assert Resumes(s, call, s', qs);
  }

  /** A timer tick is the same choice. */
  lemma TickMeans(s: Snapshot, kernel: Pointers, s': Snapshot)
    requires Sound(s) && Next(s, Tick(kernel), s')
    ensures s'.ps == s.ps && s'.kernel == kernel && s'.launched == s.launched && AllPids(s.qs, Runs(s.ps)) && Picked(s.qs, Runs(s.ps), s.curr, s'.curr, s'.qs)
  {
    ChosenIsPicked(s.qs, Runs(s.ps), s.curr);
  }

  ghost predicate AnyNew(ps: Table, r: Table)
  {
    exists i :: IsNew(ps, r, i)
  }

  /** `run_executed` is set exactly if some slot that was free is in use afterwards. */
  lemma {:induction false} StartsMeans(ps: Table, programs: seq<Program>)
    ensures Starts(ps, programs) <==> AnyNew(ps, LaunchAll(ps, programs))
    decreases |programs|
  {
    if programs != [] {
      var m, r := Launched(ps, programs[0]), LaunchAll(ps, programs);
      StartsMeans(m, programs[1..]);
      LaunchLive(m, programs[1..]);
      var id := LeastFree(ps, 0);
      assert r == LaunchAll(m, programs[1..]);
      if id < NUM_PROCESSES && programs[0].found {
        assert Live(m, id) && r[id] == m[id];
        assert IsNew(ps, r, id);
      } else {
        forall i ensures IsNew(ps, r, i) <==> IsNew(m, r, i) {
          assert IsPid(i) ==> (m[i].state == Free <==> ps[i].state == Free);
        }
        assert AnyNew(ps, r) <==> AnyNew(m, r);
      }
    }
  }

  /** A key leaves every process as it is, and launches the programs of a run command. */
  lemma KeyMeans(s: Snapshot, programs: seq<Program>, kernel: Pointers, s': Snapshot)
    requires Sound(s) && Next(s, Press(programs, kernel), s')
    ensures Launches(s.ps, s'.ps, programs) && s'.curr == s.curr && forall i :: Live(s.ps, i) ==> s'.ps[i] == s.ps[i]
    ensures s'.kernel == kernel && (s'.launched <==> s.launched || AnyNew(s.ps, s'.ps))
  {
    var r := LaunchAll(s.ps, programs);
    assert s'.ps == r;
    StartsMeans(s.ps, programs);
    LaunchLive(s.ps, programs);
    LaunchesAll(s.ps, programs);
  }

  ghost predicate IsRun(events: seq<Event>, t: seq<Snapshot>)
  {
    && |t| == |events| + 1
    && (forall k {:trigger Sound(t[k])} :: 0 <= k < |t| ==> Sound(t[k]))
    && forall k {:trigger NextOf(events, t, k)} :: 0 <= k < |events| ==> NextOf(events, t, k)
  }

  ghost predicate NextOf(events: seq<Event>, t: seq<Snapshot>, k: int)
    requires |t| == |events| + 1 && 0 <= k < |events|
  {
    IsPid(t[k].curr) && Next(t[k], events[k], t[k + 1])
  }

  lemma RunGrows(events: seq<Event>, t: seq<Snapshot>, e: Event, s: Snapshot)
    requires IsRun(events, t) && Sound(s) && Sound(t[|events|]) && Next(t[|events|], e, s)
    ensures IsRun(events + [e], t + [s])
  {
    var es, u := events + [e], t + [s];
    forall k | 0 <= k < |u| ensures Sound(u[k]) { if k < |t| { assert Sound(t[k]); } }
    forall k | 0 <= k < |es| ensures NextOf(es, u, k) { if k < |events| { assert NextOf(events, t, k); } }
  }

  /** Every event is a step of the process that runs. */
  lemma NextStep(s: Snapshot, e: Event, s': Snapshot)
    requires Sound(s) && Sound(s') && Next(s, e, s')
    ensures Step(s.ps, s'.ps, s.curr)
  {
    if e.Syscall? && Permitted(e.call, s.ps, s.curr) {
      DoneStep(Awake(e.call, s.launched), s.ps, s'.ps, s.qs, s.past, s.curr);
    } else {
      if e.Press? { LaunchLive(s.ps, e.programs); }
      OnlySelf(s.ps, s'.ps, s.curr);
    }
  }

  /** In step k, process i got the exit code of its child c. */
  ghost predicate Delivered(t: seq<Snapshot>, k: int, i: int, c: int)
  {
    0 <= k < |t| - 1 && Woken(t[k].ps, t[k + 1].ps, t[k].curr, i, c)
  }

  /**
   * Context switches are transparent: from the moment a process is interrupted to the moment it runs again,
   * however many others ran in between, its registers, heap pointers and page directory stay as they were.
   * Only a process that waited may find, once, 1 in eax, and pid and exit code of a child that it collected in ebx and ecx.
   */
  lemma {:induction false} Resumed(events: seq<Event>, t: seq<Snapshot>, i: int, a: nat, b: nat)
    requires IsRun(events, t) && a <= b <= |events| && IsPid(i)
    requires forall k :: a <= k < b ==> t[k].curr != i
    ensures t[a].ps[i].state == Runnable ==> t[b].ps[i].state == Runnable && t[b].ps[i].ctx == t[a].ps[i].ctx
    ensures t[a].ps[i].state == Waiting && t[b].ps[i].state != Waiting ==>
              t[b].ps[i].state == Runnable && exists k, c :: a <= k < b && Delivered(t, k, i, c) && var ctx := t[a].ps[i].ctx;
                t[b].ps[i].ctx == Context(Regs(1, c, t[k].ps[c].ctx.regs.ebx, ctx.regs.others), ctx.heap, ctx.dir)
    ensures t[a].ps[i].state == Waiting && t[b].ps[i].state == Waiting ==> t[b].ps[i].ctx == t[a].ps[i].ctx
    decreases b - a
  {
    if a < b {
      Resumed(events, t, i, a, b - 1);
      var s, s' := t[b - 1], t[b];
      assert Sound(s) && Sound(s') && NextOf(events, t, b - 1);
      NextStep(s, events[b - 1], s');
      assert StepAt(s.ps, s'.ps, s.curr, i);
      if t[a].ps[i].state == Waiting && s.ps[i].state == Waiting && s'.ps[i].state != Waiting {
        var c :| Woken(s.ps, s'.ps, s.curr, i, c);
        assert Delivered(t, b - 1, i, c);
      }
    }
  }

  /** Each process is collected at most once, however often its slot is used again. */
  lemma CollectedOnce(events: seq<Event>, t: seq<Snapshot>, j: nat, c: int, k: nat, d: int)
    requires IsRun(events, t) && j <= k < |events| && Gone(t, j, c) && Gone(t, k, d) && t[j].past.serial[c] == t[k].past.serial[d]
    ensures j == k && c == d
  {
    GoneLogged(events, t, j, c);
    GoneLogged(events, t, k, d);
    var x :| |t[j].past.log| <= x < |t[j + 1].past.log| && t[j + 1].past.log[x].serial == t[j].past.serial[c];
    if j < k { LogGrows(events, t, j + 1, k); }
    assert Sound(t[k]) && Alone(t[k].ps, t[k].past, d);
    assert Sound(t[j]) && Alone(t[j].ps, t[j].past, c);
  }

  /** Process c disappears in step k. */
  ghost predicate Gone(t: seq<Snapshot>, k: int, c: int)
  {
    0 <= k < |t| - 1 && Live(t[k].ps, c) && t[k + 1].ps[c].state == Free && |t[k].past.serial| == NUM_PROCESSES
  }

  lemma GoneLogged(events: seq<Event>, t: seq<Snapshot>, k: nat, c: int)
    requires IsRun(events, t) && Gone(t, k, c)
    ensures LoggedAt(t[k].past, t[k + 1].past, t[k].ps, c)
  {
    assert Sound(t[k]) && Sound(t[k + 1]) && NextOf(events, t, k);
  }

  lemma {:induction false} LogGrows(events: seq<Event>, t: seq<Snapshot>, a: nat, b: nat)
    requires IsRun(events, t) && a <= b <= |events|
    ensures |t[a].past.log| <= |t[b].past.log| && t[b].past.log[..|t[a].past.log|] == t[a].past.log
    decreases b - a
  {
    if a < b {
      LogGrows(events, t, a, b - 1);
      assert Sound(t[b - 1]) && NextOf(events, t, b - 1);
    }
  }

  // ----- fairness -----

  /** Event k ends in the choice of a process. */
  ghost predicate Selects(events: seq<Event>, t: seq<Snapshot>, k: int)
    requires |t| == |events| + 1 && 0 <= k < |events|
  {
    && IsPid(t[k].curr)
    && match events[k]
       case Compute(_) => false
       case Press(_, _) => false
       case Tick(_) => true
       case Syscall(call, _) => Permitted(call, t[k].ps, t[k].curr) && Yields(t[k], call, t[k + 1].ps)
  }

  /** How many events from a to b do. */
  ghost function Selections(events: seq<Event>, t: seq<Snapshot>, a: nat, b: nat): nat
    requires |t| == |events| + 1 && a <= b <= |events|
    decreases b - a
  {
    if a == b then 0 else (if Selects(events, t, a) then 1 else 0) + Selections(events, t, a + 1, b)
  }

  /** p is runnable, and nothing of a higher priority is. */
  ghost predicate Eligible(s: Snapshot, p: int, prio: int)
  {
    && IsPid(p) && s.ps[p].state == Runnable && s.ps[p].prio == prio
    && forall x :: IsPid(x) && s.ps[x].prio > prio ==> s.ps[x].state != Runnable
  }

  lemma EligibleQueued(ps: Table, qs: seq<seq<int>>, past: Past, p: int)
    requires Good(ps, qs, past, -1) && Live(ps, p)
    ensures 0 <= ps[p].prio < |qs| && p in qs[ps[p].prio]
  {
    assert FamilyAt(ps, past.depth, -1, p) && QueuedAt(ps, qs, ps[p].prio, p);
  }

  /** The choice takes p, or brings it forward. */
  lemma SelectedIndex(s: Snapshot, qs: seq<seq<int>>, qs': seq<seq<int>>, curr: int, next: int, p: int, prio: int)
    requires Queues(s.ps, qs) && Eligible(s, p, prio) && 0 <= prio < |qs| && p in qs[prio] && Selected(qs, qs', s.ps, curr, next)
    ensures next == p || (|qs'| == |qs| && p in qs'[prio] && Index(qs'[prio], p) < Index(qs[prio], p))
  {
    forall t | prio < t < |qs| ensures !HasRunnable(qs[t], Runs(s.ps)) {
      forall j | 0 <= j < |qs[t]| ensures !Runs(s.ps)[qs[t][j]] { assert QueuedAt(s.ps, qs, t, qs[t][j]); }
    }
    SelectAdvances(qs, Runs(s.ps), curr, p, prio);
  }

  lemma {:induction false} AliveIndex(q: seq<int>, r: Table, p: int)
    requires p in q && Live(r, p)
    ensures p in Alive(q, r) && Index(Alive(q, r), p) <= Index(q, p)
  {
    if q[0] != p {
      AliveIndex(q[1..], r, p);
      var rest := Alive(q[1..], r);
      if Live(r, q[0]) {
        assert Alive(q, r) == [q[0]] + rest && ([q[0]] + rest)[1..] == rest;
      } else {
        assert Alive(q, r) == rest;
      }
    }
  }

  /** Departures and arrivals do not push anybody back. */
  lemma MovesIndex(qs: seq<seq<int>>, qs': seq<seq<int>>, ps: Table, r: Table, prio: int, p: int)
    requires Moves(qs, qs', ps, r) && 0 <= prio < |qs| && p in qs[prio] && Live(r, p)
    ensures p in qs'[prio] && Index(qs'[prio], p) <= Index(qs[prio], p)
  {
    assert MovesAt(qs, qs', ps, r, prio);
    var alive := Alive(qs[prio], r);
    AliveIndex(qs[prio], r, p);
    assert qs'[prio][Index(alive, p)] == p;
  }

  lemma NextIndex(events: seq<Event>, t: seq<Snapshot>, k: nat, p: int, prio: int)
    requires IsRun(events, t) && k < |events| && Eligible(t[k], p, prio) && Eligible(t[k + 1], p, prio)
    ensures 0 <= prio < |t[k].qs| == |t[k + 1].qs| && p in t[k].qs[prio] && p in t[k + 1].qs[prio]
    ensures Selects(events, t, k) ==> t[k + 1].curr == p || Index(t[k + 1].qs[prio], p) < Index(t[k].qs[prio], p)
    ensures !Selects(events, t, k) ==> Index(t[k + 1].qs[prio], p) <= Index(t[k].qs[prio], p)
  {
    var s, s' := t[k], t[k + 1];
    assert Sound(s) && Sound(s') && NextOf(events, t, k);
    EligibleQueued(s.ps, s.qs, s.past, p);
    EligibleQueued(s'.ps, s'.qs, s'.past, p);
    match events[k]
    case Compute(_) =>
    case Press(_, _) => MovesIndex(s.qs, s'.qs, s.ps, s'.ps, prio, p);
    case Tick(_) => SelectedIndex(s, s.qs, s'.qs, s.curr, s'.curr, p, prio);
    case Syscall(call, _) =>
      if Permitted(call, s.ps, s.curr) {
        var qs :| Called(s, call, s', qs);
        MovesIndex(s.qs, qs, s.ps, s'.ps, prio, p);
        if Yields(s, call, s'.ps) { SelectedIndex(s', qs, s'.qs, s.curr, s'.curr, p, prio); }
      }
  }

  /**
   * Round robin is fair: in every run in which p stays runnable with nothing above it runnable, whatever else comes,
   * goes and changes, p at index i of its runqueue gets the processor within i + 1 selections.
   */
  lemma {:induction false} Fair(events: seq<Event>, t: seq<Snapshot>, p: int, prio: int, a: nat, b: nat)
    requires IsRun(events, t) && a <= b <= |events| && 0 <= prio < |t[a].qs| && p in t[a].qs[prio]
    requires forall k {:trigger Eligible(t[k], p, prio)} :: a <= k <= b ==> Eligible(t[k], p, prio)
    requires Selections(events, t, a, b) > Index(t[a].qs[prio], p)
    ensures exists k :: a <= k < b && Selects(events, t, k) && t[k + 1].curr == p && Selections(events, t, a, k) <= Index(t[a].qs[prio], p)
    decreases b - a
  {
    assert Eligible(t[a], p, prio) && Eligible(t[a + 1], p, prio);
    NextIndex(events, t, a, p, prio);
    if Selects(events, t, a) && t[a + 1].curr == p {
      assert Selections(events, t, a, a) == 0;
    } else {
      Fair(events, t, p, prio, a + 1, b);
      var k :| a + 1 <= k < b && Selects(events, t, k) && t[k + 1].curr == p && Selections(events, t, a + 1, k) <= Index(t[a + 1].qs[prio], p);
      assert Selections(events, t, a, k) == (if Selects(events, t, a) then 1 else 0) + Selections(events, t, a + 1, k);
    }
  }
}
