/** The kernel's entries: system calls, the timer and the context switch (src/syscall.c, src/scheduler.c). */
module Kernel {
  import opened Scheduling
  import opened Sequences
  import opened ProcessTable
  import opened ProcessSteps
  import opened KernelRuns

  /** The runqueues with idle and init in them. */
  method FirstQueues() returns (qs: RunQueues)
    ensures qs.Valid() && fresh(qs.repr)
    ensures |qs.Contents()| == MAX_PRIORITY + 1 && qs.Contents()[0] == [IDLE] && qs.Contents()[MAX_PRIORITY] == [INIT]
    ensures forall q :: 0 < q < MAX_PRIORITY ==> qs.Contents()[q] == []
  {
    qs := new RunQueues(MAX_PRIORITY + 1);
    qs.Add(0, IDLE);
    qs.Add(MAX_PRIORITY, INIT);
  }

  class Kernel {
    var procs: Table            // the saved contexts are part of it
    const queues: RunQueues
    var curr: int
    var inKernel: bool
    var shouldCycle: bool
    var runExecuted: bool
    var regs: Regs              // the registers of the interrupted process
    var heap: Pointers          // first_free_block and unallocated_mem
    var dir: int                // the current page directory
    var kernelHeap: Pointers    // those of kernel_context
    ghost var past: Past

    ghost predicate Shape()
      reads this, queues, queues.repr
    {
      queues.Valid() && this !in queues.repr && |queues.queues| == MAX_PRIORITY + 1 && IsPid(curr)
    }

    /** The processes as they see themselves: the running one owns the processor. */
    ghost function Slots(): Table
      reads this
      requires IsPid(curr)
    {
      if inKernel then procs else WithContext(procs, curr, procs[curr].ctx.(regs := regs, heap := heap))
    }

    /** The heap pointers as the kernel sees them. */
    ghost function KernelPointers(): Pointers
      reads this
    {
      if inKernel then heap else kernelHeap
    }

    /** What holds of the processes whatever the processor does. */
    ghost predicate Core()
      reads this, queues, queues.repr
    {
      Shape() && Good(procs, queues.Contents(), past, -1)
    }

    ghost predicate Valid()
      reads this, queues, queues.repr
    {
      && Shape() && Good(Slots(), queues.Contents(), past, -1)
      && if inKernel then dir == KERNEL_DIR
         else procs[curr].state == Runnable && dir == procs[curr].ctx.dir && !shouldCycle
    }

    ghost function Now(): Snapshot
      reads this, queues, queues.repr
      requires Shape()
    {
      Snapshot(Slots(), queues.Contents(), curr, KernelPointers(), runExecuted, past)
    }

    /** `scheduler_install`: idle and init, each its own parent; init runs. */
    constructor (idle: Context, init: Context, kernel: Pointers)
      ensures Valid() && fresh(queues.repr) && curr == INIT && !inKernel
      ensures Slots()[IDLE] == Process(Runnable, IDLE, 0, idle) && Slots()[INIT] == Process(Runnable, INIT, MAX_PRIORITY, init)
      ensures KernelPointers() == kernel && past.log == []
    {
      var empty: Table := seq(NUM_PROCESSES, _ => NO_PROCESS);
      var ps: Table := empty[IDLE := Process(Runnable, IDLE, 0, idle)][INIT := Process(Runnable, INIT, MAX_PRIORITY, init)];
      var qs := FirstQueues();
      procs := ps;
      queues := qs;
      curr := INIT;
      inKernel, shouldCycle, runExecuted := false, false, false;
      regs, heap, dir := init.regs, init.heap, init.dir;
      kernelHeap := kernel;
      past := Past(seq(NUM_PROCESSES, _ => 0), seq(NUM_PROCESSES, i => i), seq(NUM_PROCESSES, _ => 0), NUM_PROCESSES, []);
      new;
      InstallGood(procs, queues.Contents(), past, idle, init);
      assert Slots() == procs;
    }

    // ----- processes -----

    method FindFree() returns (id: int)
      ensures id == LeastFree(procs, 0)
    {
      id := 0;
      while id < NUM_PROCESSES && procs[id].state != Free
        invariant 0 <= id <= NUM_PROCESSES && LeastFree(procs, 0) == LeastFree(procs, id)
      {
        id := id + 1;
      }
    }

    /** A new process takes a free slot and joins its runqueue. */
    method Enter(id: int, proc: Process)
      requires Shape() && Good(procs, queues.Contents(), past, -1) && IsPid(id) && procs[id].state == Free
      requires proc.state == Runnable && Able(procs, proc.parent) && 0 <= proc.prio <= MAX_PRIORITY
      modifies this`procs, this`past, queues.repr
      ensures Shape() && fresh(queues.repr - old(queues.repr)) && Good(procs, queues.Contents(), past, -1)
      ensures procs == old(procs)[id := proc] && Logged(old(past), past, old(procs), procs)
      ensures queues.Contents() == old(queues.Contents())[proc.prio := old(queues.Contents())[proc.prio] + [id]]
    {
      BirthKeeps(procs, queues.Contents(), past, id, proc);
      procs := procs[id := proc];
      past := Joined(past, id, proc.parent);
      queues.Add(proc.prio, id);
    }

    /** The child in the first free slot is the caller's twin, at the back of the runqueue of its priority; or the answer is 0. */
    method SyscallFork(dir: Directory)
      requires Valid() && inKernel && procs[curr].state == Runnable && procs[curr].ctx.regs.ebx >= 0
      modifies this`procs, this`past, queues.repr
      ensures Valid() && fresh(queues.repr - old(queues.repr)) && ForkDone(old(procs), procs, curr, dir)
      ensures ForkMeans(old(procs), procs, curr, dir) && ForkQueues(old(procs), old(queues.Contents()), queues.Contents(), curr)
      ensures Logged(old(past), past, old(procs), procs) && Moves(old(queues.Contents()), queues.Contents(), old(procs), procs)
    {
      ghost var ps, qs := procs, queues.Contents();
      CreateTwin(dir);
      ForkIs(ps, procs, curr, dir);
      ForkQueuesAre(ps, qs, queues.Contents(), curr);
    }

    method CreateTwin(dir: Directory)
      requires Valid() && inKernel && procs[curr].state == Runnable && procs[curr].ctx.regs.ebx >= 0
      modifies this`procs, this`past, queues.repr
      ensures Valid() && fresh(queues.repr - old(queues.repr)) && ForkDone(old(procs), procs, curr, dir)
      ensures var id, prio := LeastFree(old(procs), 0), old(procs)[curr].ctx.regs.ebx;
              if id == NUM_PROCESSES || prio > old(procs)[curr].prio then queues.Contents() == old(queues.Contents())
              else Joins(old(queues.Contents()), queues.Contents(), prio, id)
      ensures Logged(old(past), past, old(procs), procs) && Moves(old(queues.Contents()), queues.Contents(), old(procs), procs)
    {
      var prio := procs[curr].ctx.regs.ebx;
      var id := FindFree();
      assert FamilyAt(procs, past.depth, -1, curr);
      if id == NUM_PROCESSES || prio > procs[curr].prio {
        Refuse();
      } else {
        Spawn(id, dir);
      }
    }

    method Refuse()
      requires Valid() && inKernel && procs[curr].state == Runnable
      modifies this`procs
      ensures Valid() && procs == WithEax(old(procs), curr, 0)
      ensures Logged(past, past, old(procs), procs) && Moves(queues.Contents(), queues.Contents(), old(procs), procs)
    {
      SetEax(0);
      StayMoves(queues.Contents(), old(procs), procs);
    }

    /** The child, in its slot and runqueue, and the parent's results. */
    method Spawn(id: int, dir: Directory)
      requires Valid() && inKernel && procs[curr].state == Runnable && 0 <= procs[curr].ctx.regs.ebx <= MAX_PRIORITY
      requires IsPid(id) && procs[id].state == Free
      modifies this`procs, this`past, queues.repr
      ensures Valid() && fresh(queues.repr - old(queues.repr)) && procs == Forked(old(procs), curr, id, dir)
      ensures Joins(old(queues.Contents()), queues.Contents(), old(procs)[curr].ctx.regs.ebx, id)
      ensures Logged(old(past), past, old(procs), procs) && Moves(old(queues.Contents()), queues.Contents(), old(procs), procs)
    {
      ghost var ps := procs;
      var ctx := procs[curr].ctx;
      var child := Process(Runnable, curr, ctx.regs.ebx, Context(ctx.regs.(eax := 2, ebx := curr), ctx.heap, dir));
      Enter(id, child);
      ContextKeeps(procs, queues.Contents(), past, curr, ctx.(regs := ctx.regs.(eax := 1, ebx := id)));
      procs := WithContext(procs, curr, ctx.(regs := ctx.regs.(eax := 1, ebx := id)));
      assert procs == Forked(ps, curr, id, dir);
      EnterMoves(old(queues.Contents()), ps, procs, id, child.prio);
    }

    method ResolveExitWait(parent: int, child: int)
      requires Shape() && IsPid(parent) && IsPid(child) && 0 <= procs[child].prio <= MAX_PRIORITY
      modifies this`procs, queues.repr
      ensures Shape() && fresh(queues.repr - old(queues.repr)) && procs == Reaped(old(procs), parent, child)
      ensures parent != child ==> CollectedBy(old(procs), procs, parent, child)
      ensures var prio := old(procs)[child].prio;
              queues.Contents() == old(queues.Contents())[prio := Except(old(queues.Contents())[prio], child)]
    {
      procs := WithState(procs, child, Free);
      queues.Remove(procs[child].prio, child);
      // the child's registers are freed by now, but nothing has overwritten ebx
      var code := procs[child].ctx.regs.ebx;
      procs := procs[parent := procs[parent].(state := Runnable, ctx := WaitResult(procs[parent].ctx, child, code))];
      if parent != child { ReapedMeans(old(procs), parent, child); }
    }

    /** Collecting a Zombie, with the record of it. */
    method Reap(parent: int, child: int, ghost x: int)
      requires Shape() && Good(procs, queues.Contents(), past, x)
      requires Able(procs, parent) && IsPid(child) && procs[child].state == Zombie
      requires forall k :: Live(procs, k) ==> procs[k].parent != child
      modifies this`procs, this`past, queues.repr
      ensures Shape() && fresh(queues.repr - old(queues.repr)) && procs == Reaped(old(procs), parent, child)
      ensures Good(procs, queues.Contents(), past, if child == x then -1 else x)
      ensures past == old(past).(log := old(past.log) + [Reaping(old(past).serial[child], parent, old(past).code[child])])
      ensures Leaves(old(queues.Contents()), queues.Contents(), procs)
    {
      ghost var ps := procs;
      ReapedKeeps(procs, queues.Contents(), past, x, parent, child);
      past := past.(log := past.log + [Reaping(past.serial[child], parent, past.code[child])]);
      ResolveExitWait(parent, child);
      LeavesOne(ps, old(queues.Contents()), procs, child);
    }

    /** One turn of the loop of `syscall_exit`. */
    method HandOver(id: int, i: int, ghost b: Table, ghost z: int, ghost a: Past, ghost qs: seq<seq<int>>) returns (ghost z': int)
      requires Shape() && Good(procs, queues.Contents(), past, id) && IsPid(id) && !IsRoot(id) && IsPid(i)
      requires b[id].state == Zombie && b[id].parent != id && b[INIT].parent == INIT
      requires Collects(b, id, i, z) && procs == Handed(b, id, i, z)
      requires |a.serial| == NUM_PROCESSES == |a.code| && past == a.(log := OrphanLog(a, z)) && Leaves(qs, queues.Contents(), procs)
      modifies this`procs, this`past, queues.repr
      ensures Shape() && fresh(queues.repr - old(queues.repr)) && Good(procs, queues.Contents(), past, id)
      ensures Collects(b, id, i + 1, z') && procs == Handed(b, id, i + 1, z') && past == a.(log := OrphanLog(a, z'))
      ensures Leaves(qs, queues.Contents(), procs)
    {
      z' := z;
      ghost var ps, qs1 := procs, queues.Contents();
      assert procs[i] == HandedAt(b, id, i, z, i) && procs[INIT] == HandedAt(b, id, i, z, INIT);
      if procs[i].parent == id {
        if procs[i].state == Zombie && procs[INIT].state == Waiting {
          HandOverZombie(id, i);
          z' := i;
        } else {
          Reparent(procs, queues.Contents(), past, id, i);
          procs := WithParent(procs, i, INIT);
          LeavesNone(procs, qs1);
        }
        LeavesTrans(qs, qs1, queues.Contents(), ps, procs);
      }
      HandedNext(b, id, i, z, z', ps, procs);
    }

    method HandOverZombie(id: int, i: int)
      requires Shape() && Good(procs, queues.Contents(), past, id) && IsPid(id) && !IsRoot(id)
      requires IsPid(i) && i != id && procs[i].parent == id && procs[i].state == Zombie && procs[INIT].state == Waiting
      modifies this`procs, this`past, queues.repr
      ensures Shape() && fresh(queues.repr - old(queues.repr)) && Good(procs, queues.Contents(), past, id)
      ensures procs == WithParent(Reaped(old(procs), INIT, i), i, INIT)
      ensures past == old(past).(log := old(past).log + [Reaping(old(past).serial[i], INIT, old(past).code[i])])
      ensures Leaves(old(queues.Contents()), queues.Contents(), procs)
    {
      OrphanKeeps(procs, queues.Contents(), past, id, i);
      past := past.(log := past.log + [Reaping(past.serial[i], INIT, past.code[i])]);
      procs := WithParent(procs, i, INIT);
      ResolveExitWait(INIT, i);
    }

    /** The children go to init, the caller becomes a Zombie or is collected at once; everybody told finds it in his registers. */
    method SyscallExit()
      requires Valid() && inKernel && procs[curr].state == Runnable && !IsRoot(curr)
      modifies this`procs, this`past, queues.repr
      ensures Valid() && fresh(queues.repr - old(queues.repr)) && ExitDone(old(procs), procs, curr)
      ensures ExitMeans(old(procs), procs, curr)
      ensures Logged(old(past), past, old(procs), procs) && Leaves(old(queues.Contents()), queues.Contents(), procs)
    {
      ghost var ps := procs;
      assert FamilyAt(ps, past.depth, -1, curr) && FamilyAt(ps, past.depth, -1, INIT);
      Terminate();
      ExitIs(ps, procs, curr);
    }

    method Terminate()
      requires Valid() && inKernel && procs[curr].state == Runnable && !IsRoot(curr)
      modifies this`procs, this`past, queues.repr
      ensures Valid() && fresh(queues.repr - old(queues.repr)) && ExitDone(old(procs), procs, curr)
      ensures Logged(old(past), past, old(procs), procs) && Leaves(old(queues.Contents()), queues.Contents(), procs)
    {
      var id := curr;
      ghost var ps := procs;
      assert FamilyAt(ps, past.depth, -1, id) && FamilyAt(ps, past.depth, -1, INIT);
      ExitStarts(procs, queues.Contents(), past, id);
      past := past.(code := past.code[id := procs[id].ctx.regs.ebx]);
      procs := WithState(procs, id, Zombie);
      ghost var b := procs;
      ghost var z := HandOverAll(id);
      ghost var ps1, qs1 := procs, queues.Contents();
      NotifyParent(id, b, z);
      LeavesTrans(old(queues.Contents()), qs1, queues.Contents(), ps1, procs);
      assert procs == Exited(ps, id, z);
      ExitRecord(old(past), past, ps, id, z);
    }

    /** The loop of `syscall_exit`: all children go to init. */
    method HandOverAll(id: int) returns (ghost z: int)
      requires Shape() && Good(procs, queues.Contents(), past, id) && IsPid(id) && !IsRoot(id)
      requires procs[id].state == Zombie && procs[id].parent != id && procs[INIT].parent == INIT
      modifies this`procs, this`past, queues.repr
      ensures Shape() && fresh(queues.repr - old(queues.repr)) && Good(procs, queues.Contents(), past, id)
      ensures Collects(old(procs), id, NUM_PROCESSES, z) && procs == Handed(old(procs), id, NUM_PROCESSES, z)
      ensures |old(past).serial| == NUM_PROCESSES == |old(past).code| && past == old(past).(log := OrphanLog(old(past), z))
      ensures Leaves(old(queues.Contents()), queues.Contents(), procs)
    {
      ghost var b, a, qs := procs, past, queues.Contents();
      z := -1;
      LeavesNone(procs, qs);
      assert Handed(b, id, 0, z) == b;
      var i := 0;
      while i < NUM_PROCESSES
        invariant 0 <= i <= NUM_PROCESSES && Shape() && fresh(queues.repr - old(queues.repr))
        invariant Good(procs, queues.Contents(), past, id) && Collects(b, id, i, z) && procs == Handed(b, id, i, z)
        invariant past == a.(log := OrphanLog(a, z)) && Leaves(qs, queues.Contents(), procs)
      {
        z := HandOver(id, i, b, z, a, qs);
        i := i + 1;
      }
    }

    /** The end of `syscall_exit`. */
    method NotifyParent(id: int, ghost b: Table, ghost z: int)
      requires Shape() && Good(procs, queues.Contents(), past, id) && IsPid(id) && !IsRoot(id)
      requires b[id].state == Zombie && b[id].parent != id
      requires Collects(b, id, NUM_PROCESSES, z) && procs == Handed(b, id, NUM_PROCESSES, z)
      modifies this`procs, this`past, queues.repr
      ensures Shape() && fresh(queues.repr - old(queues.repr)) && Good(procs, queues.Contents(), past, -1)
      ensures var t := old(procs); var p := t[id].parent;
              procs == if IsPid(p) && t[p].state == Waiting then Reaped(t, p, id) else t
      ensures var t := old(procs); var p := t[id].parent; var a := old(past);
              |a.serial| == NUM_PROCESSES == |a.code| && past.log == a.log + if IsPid(p) && t[p].state == Waiting then [Reaping(a.serial[id], p, a.code[id])] else []
      ensures past.serial == old(past).serial && Leaves(old(queues.Contents()), queues.Contents(), procs)
    {
      assert forall j :: IsPid(j) ==> procs[j] == HandedAt(b, id, NUM_PROCESSES, z, j);
      assert FamilyAt(procs, past.depth, id, id);
      var parent := procs[id].parent;
      if procs[parent].state == Waiting {
        Reap(parent, id, id);
      } else {
        ExitEnds(procs, past.depth, id);
        LeavesNone(procs, queues.Contents());
      }
    }

    /** The first Zombie child is collected; without one the caller waits, or learns that no slot names it. */
    method SyscallWait()
      requires Valid() && inKernel && procs[curr].state == Runnable && curr != IDLE
      modifies this`procs, this`past, queues.repr
      ensures Valid() && fresh(queues.repr - old(queues.repr)) && WaitDone(old(procs), procs, curr)
      ensures WaitMeans(old(procs), procs, curr)
      ensures Logged(old(past), past, old(procs), procs) && Leaves(old(queues.Contents()), queues.Contents(), procs)
    {
      ghost var ps := procs;
      Await();
      WaitIs(ps, procs, curr);
    }

    method Await()
      requires Valid() && inKernel && procs[curr].state == Runnable && curr != IDLE
      modifies this`procs, this`past, queues.repr
      ensures Valid() && fresh(queues.repr - old(queues.repr)) && WaitDone(old(procs), procs, curr)
      ensures Logged(old(past), past, old(procs), procs) && Leaves(old(queues.Contents()), queues.Contents(), procs)
    {
      ghost var ps := procs;
      procs := WithState(procs, curr, Waiting);
      var hasChildren, id := ScanChildren(ps);
      if id < NUM_PROCESSES {
        Collect(id, ps);
      } else {
        NoZombie(hasChildren, ps);
      }
    }

    /** The loop of `syscall_wait`: the first Zombie child, NUM_PROCESSES if there is none. */
    method ScanChildren(ghost ps: Table) returns (hasChildren: bool, id: int)
      requires IsPid(curr) && ps[curr].state == Runnable && procs == WithState(ps, curr, Waiting)
      ensures 0 <= id <= NUM_PROCESSES && (id < NUM_PROCESSES ==> ZombieChild(ps, curr, id))
      ensures forall i :: 0 <= i < id ==> !ZombieChild(ps, curr, i)
      ensures id == NUM_PROCESSES ==> (hasChildren <==> Named(ps, curr))
    {
      hasChildren, id := false, 0;
      while id < NUM_PROCESSES
        invariant 0 <= id <= NUM_PROCESSES && forall i :: 0 <= i < id ==> !ZombieChild(ps, curr, i)
        invariant hasChildren <==> exists i :: 0 <= i < id && ps[i].parent == curr
      {
        assert procs[id].parent == ps[id].parent && (id != curr ==> procs[id].state == ps[id].state);
        if procs[id].parent == curr {
          hasChildren := true;
          if procs[id].state == Zombie {
            return;
          }
        }
        id := id + 1;
      }
    }

    /** The end of `syscall_wait`. */
    method NoZombie(hasChildren: bool, ghost ps: Table)
      requires Shape() && Good(ps, queues.Contents(), past, -1) && inKernel && dir == KERNEL_DIR && curr != IDLE
      requires ps[curr].state == Runnable && procs == WithState(ps, curr, Waiting) && forall i :: !ZombieChild(ps, curr, i)
      modifies this`procs
      ensures Valid() && procs == if hasChildren then WithState(ps, curr, Waiting) else WithEax(ps, curr, 0)
      ensures Leaves(queues.Contents(), queues.Contents(), procs)
    {
      if !hasChildren {
        procs := WithState(WithEax(procs, curr, 0), curr, Runnable);
        ContextKeeps(ps, queues.Contents(), past, curr, ps[curr].ctx.(regs := ps[curr].ctx.regs.(eax := 0)));
        assert procs == WithEax(ps, curr, 0);
      } else {
        WaitKeeps(ps, queues.Contents(), past, curr) by {
          forall k | IsPid(k) && ps[k].parent == curr ensures ps[k].state != Zombie { assert !ZombieChild(ps, curr, k); }
        }
      }
      LeavesNone(procs, queues.Contents());
    }

    /** `syscall_wait` found a Zombie. */
    method Collect(id: int, ghost ps: Table)
      requires Shape() && Good(ps, queues.Contents(), past, -1) && inKernel && dir == KERNEL_DIR
      requires ps[curr].state == Runnable && procs == WithState(ps, curr, Waiting)
      requires ZombieChild(ps, curr, id)
      modifies this`procs, this`past, queues.repr
      ensures Valid() && fresh(queues.repr - old(queues.repr)) && procs == Reaped(ps, curr, id)
      ensures Logged(old(past), past, ps, procs) && Leaves(old(queues.Contents()), queues.Contents(), procs)
    {
      ZombieChildless(ps, past.depth, -1, id);
      ReapedKeeps(ps, queues.Contents(), past, -1, curr, id);
      past := past.(log := past.log + [Reaping(past.serial[id], curr, past.code[id])]);
      ResolveExitWait(curr, id);
      assert procs == Reaped(ps, curr, id);
      assert Alone(ps, old(past), id) && past.log[|old(past).log|].serial == old(past).serial[id];
      assert LoggedAt(old(past), past, ps, id);
      LeavesOne(ps, old(queues.Contents()), procs, id);
    }

    // ----- the shell's run command -----

    /** A child of init with priority 1 in the first free slot, and in its runqueue if the program exists. */
    method RunProgram(program: Program)
      requires Core()
      modifies this`procs, this`past, this`runExecuted, queues.repr
      ensures Core() && fresh(queues.repr - old(queues.repr)) && procs == Launched(old(procs), program)
      ensures LaunchMeans(old(procs), procs, program) && LaunchQueues(old(procs), old(queues.Contents()), queues.Contents(), program)
      ensures runExecuted == (old(runExecuted) || (LeastFree(old(procs), 0) < NUM_PROCESSES && program.found))
      ensures Logged(old(past), past, old(procs), procs) && Arrives(old(queues.Contents()), queues.Contents(), old(procs), procs)
    {
      ghost var ps, qs := procs, queues.Contents();
      Launch(program);
      LaunchIs(ps, program);
      LaunchQueuesAre(ps, program, qs, queues.Contents());
    }

    method Launch(program: Program)
      requires Core()
      modifies this`procs, this`past, this`runExecuted, queues.repr
      ensures Core() && fresh(queues.repr - old(queues.repr)) && procs == Launched(old(procs), program)
      ensures if program.found && LeastFree(old(procs), 0) < NUM_PROCESSES
              then Joins(old(queues.Contents()), queues.Contents(), 1, LeastFree(old(procs), 0)) else queues.Contents() == old(queues.Contents())
      ensures runExecuted == (old(runExecuted) || (LeastFree(old(procs), 0) < NUM_PROCESSES && program.found))
      ensures Logged(old(past), past, old(procs), procs) && Arrives(old(queues.Contents()), queues.Contents(), old(procs), procs)
    {
      var pid := FindFree();
      if pid == NUM_PROCESSES {
        ArrivesNone(queues.Contents(), procs, procs);
      } else if program.found {
        assert FamilyAt(procs, past.depth, -1, INIT);
        Enter(pid, Process(Runnable, INIT, 1, program.ctx));
        ArrivesOne(old(queues.Contents()), old(procs), procs, pid, 1);
        runExecuted := true;
      } else {
        Discard(pid, Process(Free, INIT, 1, program.ctx));
      }
    }

    /** The program does not exist: the slot is free again. */
    method Discard(pid: int, proc: Process)
      requires Core() && IsPid(pid) && procs[pid].state == Free == proc.state
      modifies this`procs
      ensures Core() && procs == old(procs)[pid := proc] && queues.Contents() == old(queues.Contents())
      ensures Logged(past, past, old(procs), procs) && Arrives(queues.Contents(), queues.Contents(), old(procs), procs)
    {
      FreeKeeps(procs, queues.Contents(), past, pid, proc);
      procs := procs[pid := proc];
      ArrivesNone(queues.Contents(), old(procs), procs);
    }

    /** `run_handler`: one program after the other. */
    method RunHandler(programs: seq<Program>)
      requires Core()
      modifies this`procs, this`past, this`runExecuted, queues.repr
      ensures Core() && fresh(queues.repr - old(queues.repr)) && procs == LaunchAll(old(procs), programs)
      ensures runExecuted == (old(runExecuted) || Starts(old(procs), programs))
      ensures Logged(old(past), past, old(procs), procs) && Moves(old(queues.Contents()), queues.Contents(), old(procs), procs)
    {
      ghost var ps, qs := procs, queues.Contents();
      ArrivesNone(qs, ps, ps);
      var i := 0;
      while i < |programs|
        invariant 0 <= i <= |programs| && Core() && fresh(queues.repr - old(queues.repr)) && procs == LaunchAll(ps, programs[..i])
        invariant runExecuted == (old(runExecuted) || Starts(ps, programs[..i]))
        invariant Logged(old(past), past, ps, procs) && Arrives(qs, queues.Contents(), ps, procs)
      {
        RunNext(programs, i, ps, qs, old(past));
        i := i + 1;
      }
      assert programs[..i] == programs;
      LaunchLive(ps, programs);
      ArrivesMoves(qs, queues.Contents(), ps, procs);
    }

    /** One turn of that loop. */
    method RunNext(programs: seq<Program>, i: nat, ghost ps: Table, ghost qs: seq<seq<int>>, ghost a: Past)
      requires Core() && i < |programs| && procs == LaunchAll(ps, programs[..i])
      requires Logged(a, past, ps, procs) && Arrives(qs, queues.Contents(), ps, procs)
      modifies this`procs, this`past, this`runExecuted, queues.repr
      ensures Core() && fresh(queues.repr - old(queues.repr)) && procs == LaunchAll(ps, programs[..i + 1])
      ensures runExecuted == (old(runExecuted) || (LeastFree(old(procs), 0) < NUM_PROCESSES && programs[i].found))
      ensures Starts(ps, programs[..i + 1]) <==> Starts(ps, programs[..i]) || (LeastFree(old(procs), 0) < NUM_PROCESSES && programs[i].found)
      ensures Logged(a, past, ps, procs) && Arrives(qs, queues.Contents(), ps, procs)
    {
      LaunchNext(ps, programs, i, procs);
      ghost var r1, qs1, b := procs, queues.Contents(), past;
      RunProgram(programs[i]);
      ArrivesTrans(qs, qs1, queues.Contents(), ps, r1, procs);
      LoggedLater(a, b, past, ps, r1, procs);
    }

    /** The kernel's pointers and directory are in place while the shell deals with the key. */
    method ShellKey(programs: seq<Program>, kernel: Pointers)
      requires Core()
      modifies this`procs, this`past, this`runExecuted, this`heap, this`dir, this`kernelHeap, queues.repr
      ensures Core() && fresh(queues.repr - old(queues.repr)) && procs == LaunchAll(old(procs), programs)
      ensures runExecuted == (old(runExecuted) || Starts(old(procs), programs)) && heap == old(heap) && dir == old(dir) && kernelHeap == kernel
      ensures Logged(old(past), past, old(procs), procs) && Moves(old(queues.Contents()), queues.Contents(), old(procs), procs)
    {
      var tempHeap, tempDir := heap, dir;
      UsePointers(kernelHeap, KERNEL_DIR, kernelHeap);
      RunHandler(programs);
      UsePointers(tempHeap, tempDir, kernel);   // where the kernel's allocations lead
    }

    /** Heap pointers and directory in use, and the kernel's saved pointers. */
    method UsePointers(h: Pointers, d: int, kernel: Pointers)
      requires Core()
      modifies this`heap, this`dir, this`kernelHeap
      ensures Core() && heap == h && dir == d && kernelHeap == kernel && queues.Contents() == old(queues.Contents())
    {
      heap, dir, kernelHeap := h, d, kernel;
    }

    /**
     * `keyboard_shell_handler` in user mode: the kernel's pointers and directory replace the process's while the key is
     * dealt with, and the process goes on.
     */
    method KeyboardHandler(programs: seq<Program>, kernel: Pointers)
      requires Valid() && !inKernel
      modifies this`procs, this`past, this`runExecuted, this`heap, this`dir, this`kernelHeap, queues.repr
      ensures Valid() && !inKernel && fresh(queues.repr - old(queues.repr)) && Next(old(Now()), Press(programs, kernel), Now())
    {
      ghost var ps, qs, ctx := procs, queues.Contents(), Slots()[curr].ctx;
      UserGood(ps, qs, past, curr, ctx);
      ShellKey(programs, kernel);
      KeyDone(ps, qs, old(past), procs, queues.Contents(), past, programs, curr, ctx);
      assert Slots() == WithContext(procs, curr, ctx);
    }

    // ----- heap calls on behalf of a process -----

    /** `SWITCH_AFTER` and `SWITCH_BEFORE` of src/syscall.c around one call into the process's own heap. */
    method CallHeap(call: HeapCall) returns (ret: int)
      requires Valid() && inKernel && procs[curr].state == Runnable
      modifies this`procs, this`heap, this`dir, this`kernelHeap
      ensures Valid() && KernelPointers() == old(KernelPointers())
      ensures var ctx := old(procs)[curr].ctx; var result := call(ctx.dir, ctx.heap, ctx.regs.ebx);
              procs == WithContext(old(procs), curr, ctx.(heap := result.0)) && ret == result.1
    {
      var arg := procs[curr].ctx.regs.ebx;
      EnterHeap();
      var result := call(dir, heap, arg);
      heap, ret := result.0, result.1;
      LeaveHeap();
    }

    /** `SWITCH_AFTER` of src/syscall.c: the process's heap pointers and directory take the place of the kernel's. */
    method EnterHeap()
      requires Valid() && inKernel
      modifies this`heap, this`dir, this`kernelHeap
      ensures Core() && kernelHeap == old(heap) && heap == procs[curr].ctx.heap && dir == procs[curr].ctx.dir
    {
      kernelHeap := heap;
      heap := procs[curr].ctx.heap;
      dir := procs[curr].ctx.dir;
    }

    /** `SWITCH_BEFORE` of src/syscall.c: the process's pointers are saved, the kernel's come back. */
    method LeaveHeap()
      requires Core() && inKernel && procs[curr].state == Runnable
      modifies this`procs, this`heap, this`dir
      ensures Valid() && heap == kernelHeap && procs == WithContext(old(procs), curr, old(procs)[curr].ctx.(heap := old(heap)))
    {
      dir := KERNEL_DIR;
      SetHeap(heap);
      heap := kernelHeap;
    }

    method SetHeap(h: Pointers)
      requires Valid() && inKernel && procs[curr].state == Runnable
      modifies this`procs
      ensures Valid() && procs == WithContext(old(procs), curr, old(procs)[curr].ctx.(heap := h))
    {
      ContextKeeps(procs, queues.Contents(), past, curr, procs[curr].ctx.(heap := h));
      procs := WithContext(procs, curr, procs[curr].ctx.(heap := h));
    }

    method SetEax(eax: int)
      requires Valid() && inKernel && procs[curr].state == Runnable
      modifies this`procs
      ensures Valid() && procs == WithEax(old(procs), curr, eax)
    {
      ContextKeeps(procs, queues.Contents(), past, curr, procs[curr].ctx.(regs := procs[curr].ctx.regs.(eax := eax)));
      procs := WithEax(procs, curr, eax);
    }

    /** `syscall_hlt`: any number of timer interrupts, then another one, which may run the shell's run command. */
    method SyscallHlt(ticks: nat, programs: seq<Program>)
      requires Valid() && inKernel
      modifies this`procs, this`past, this`runExecuted, this`shouldCycle, queues.repr
      ensures Valid() && fresh(queues.repr - old(queues.repr))
      ensures procs == LaunchAll(old(procs), if old(runExecuted) && ticks > 0 then [] else programs) && shouldCycle && !runExecuted
      ensures Logged(old(past), past, old(procs), procs) && Moves(old(queues.Contents()), queues.Contents(), old(procs), procs)
    {
      var awake := SleepThrough(ticks);
      if awake {
        StayMoves(queues.Contents(), procs, procs);
      } else {
        RunHandler(programs);
        Awaken();
      }
    }

    /** No timer interrupt ended the halt, so this one does. */
    method Awaken()
      requires Valid() && inKernel && !shouldCycle
      modifies this`shouldCycle, this`runExecuted
      ensures Valid() && shouldCycle && !runExecuted && queues.Contents() == old(queues.Contents())
    {
      if !shouldCycle || runExecuted {
        shouldCycle := true;
        runExecuted := false;
      }
    }

    /** The turns of the loop of `syscall_hlt` that timer interrupts end: all of them, unless a program was started before. */
    method SleepThrough(ticks: nat) returns (awake: bool)
      requires inKernel
      modifies this`shouldCycle, this`runExecuted
      ensures awake == (old(runExecuted) && ticks > 0) && shouldCycle == awake && runExecuted == (old(runExecuted) && !awake)
    {
      shouldCycle := false;
      awake := false;
      var i := 0;
      while i < ticks && !awake
        invariant 0 <= i <= ticks && awake == (old(runExecuted) && i > 0) && shouldCycle == awake && runExecuted == (old(runExecuted) && !awake)
      {
        KernelTick();
        if !shouldCycle || runExecuted {
          shouldCycle := true;
          runExecuted := false;
          awake := true;
        } else {
          shouldCycle := false;
        }
        i := i + 1;
      }
    }

    // ----- entering and leaving the kernel -----

    method SwitchBefore()
      requires Valid() && !inKernel
      modifies this`inKernel, this`dir, this`procs, this`heap
      ensures Valid() && inKernel && Slots() == old(Slots()) && KernelPointers() == old(KernelPointers())
    {
      inKernel := true;
      dir := KERNEL_DIR;
      procs := WithContext(procs, curr, procs[curr].ctx.(regs := regs, heap := heap));
      heap := kernelHeap;
      assert procs == old(Slots());
    }

    method SwitchAfter()
      requires Valid() && inKernel && procs[curr].state == Runnable && !shouldCycle
      modifies this`inKernel, this`dir, this`regs, this`heap, this`kernelHeap
      ensures Valid() && !inKernel && Slots() == old(Slots()) && KernelPointers() == old(KernelPointers())
    {
      ghost var ps, qs := procs, queues.Contents();
      assert Good(ps, qs, past, -1);
      LoadContext();
      inKernel := false;
      assert Slots() == ps && queues.Contents() == qs;
    }

    /** The saved context of the running process goes to the processor. */
    method LoadContext()
      requires Core()
      modifies this`dir, this`regs, this`heap, this`kernelHeap
      ensures Core() && kernelHeap == old(heap) && heap == procs[curr].ctx.heap && regs == procs[curr].ctx.regs && dir == procs[curr].ctx.dir
      ensures queues.Contents() == old(queues.Contents())
    {
      kernelHeap := heap;
      heap := procs[curr].ctx.heap;
      regs := procs[curr].ctx.regs;
      dir := procs[curr].ctx.dir;
    }

    /** `select_new_process` on the kernel's state. */
    method Select(kernel: Pointers)
      requires Valid() && inKernel
      modifies this`curr, this`heap, queues.repr
      ensures Valid() && fresh(queues.repr - old(queues.repr)) && heap == kernel && procs[curr].state == Runnable
      ensures Selected(old(queues.Contents()), queues.Contents(), procs, old(curr), curr)
    {
      SelectKeeps(procs, queues.Contents(), curr);
      assert FamilyAt(procs, past.depth, -1, IDLE);
      ChosenRuns(procs, queues.Contents(), curr);
      Choose();
      heap := kernel;
    }

    method Choose()
      requires queues.Valid() && AllPids(queues.Contents(), Runs(procs)) && this !in queues.repr
      modifies this`curr, queues.repr
      ensures queues.Valid() && fresh(queues.repr - old(queues.repr))
      ensures queues.Contents() == AfterSelect(old(queues.Contents()), Runs(procs)) && curr == Chosen(old(queues.Contents()), Runs(procs), old(curr))
    {
      curr := queues.SelectNewProcess(Runs(procs), curr);
    }

    /** In the kernel, the timer only asks for a new process later on; otherwise the processor changes hands. */
    method TimerHandler(kernel: Pointers)
      requires Valid()
      modifies this`shouldCycle, this`inKernel, this`procs, this`curr, this`regs, this`heap, this`dir, this`kernelHeap, queues.repr
      ensures Valid() && inKernel == old(inKernel) && fresh(queues.repr - old(queues.repr))
      ensures Slots() == old(Slots())
      ensures if inKernel then shouldCycle && curr == old(curr) && heap == old(heap) && queues.repr == old(queues.repr)
                   && queues.Contents() == old(queues.Contents())
              else KernelPointers() == kernel && Selected(old(queues.Contents()), queues.Contents(), Slots(), old(curr), curr)
    {
      if inKernel {
        KernelTick();
      } else {
        Preempt(kernel);
      }
    }

    method KernelTick()
      requires inKernel
      modifies this`shouldCycle
      ensures shouldCycle
    {
      shouldCycle := true;
    }

    method Preempt(kernel: Pointers)
      requires Valid() && !inKernel
      modifies this`inKernel, this`procs, this`curr, this`regs, this`heap, this`dir, this`kernelHeap, queues.repr
      ensures Valid() && !inKernel && fresh(queues.repr - old(queues.repr))
      ensures Slots() == old(Slots()) && KernelPointers() == kernel
      ensures Selected(old(queues.Contents()), queues.Contents(), Slots(), old(curr), curr)
    {
      SwitchBefore();
      Select(kernel);
      SwitchAfter();
    }

    /** `syscall`: the call named in eax. */
    method Serve(call: Call)
      requires Valid() && inKernel && procs[curr].state == Runnable && Permitted(call, procs, curr)
      modifies this`procs, this`past, this`runExecuted, this`shouldCycle, this`heap, this`dir, this`kernelHeap, queues.repr
      ensures Valid() && fresh(queues.repr - old(queues.repr))
      ensures Done(Awake(call, old(runExecuted)), old(procs), procs, curr) && heap == old(heap) && shouldCycle == (call.Hlt? || old(shouldCycle))
      ensures Logged(old(past), past, old(procs), procs) && Moves(old(queues.Contents()), queues.Contents(), old(procs), procs) && runExecuted == (old(runExecuted) && !call.Hlt?)
    {
      match call {
        case Exit => ServeProcess(call);
        case Wait => ServeProcess(call);
        case Fork(_) => ServeProcess(call);
        case Malloc(_) => ServeOwn(call);
        case MemFree(_) => ServeOwn(call);
        case Hlt(ticks, programs) => SyscallHlt(ticks, programs);
        case Other(_) => ServeOwn(call);
      }
    }

    /** The calls that make and end processes. */
    method ServeProcess(call: Call)
      requires Valid() && inKernel && procs[curr].state == Runnable && Permitted(call, procs, curr) && (call.Exit? || call.Wait? || call.Fork?)
      modifies this`procs, this`past, queues.repr
      ensures Valid() && fresh(queues.repr - old(queues.repr)) && Done(call, old(procs), procs, curr)
      ensures Logged(old(past), past, old(procs), procs) && Moves(old(queues.Contents()), queues.Contents(), old(procs), procs)
    {
      match call {
        case Exit => ServeExit();
        case Wait => ServeWait();
        case Fork(d) => SyscallFork(d);
        case _ =>
      }
    }

    method ServeExit()
      requires Valid() && inKernel && procs[curr].state == Runnable && !IsRoot(curr)
      modifies this`procs, this`past, queues.repr
      ensures Valid() && fresh(queues.repr - old(queues.repr)) && ExitDone(old(procs), procs, curr)
      ensures Logged(old(past), past, old(procs), procs) && Moves(old(queues.Contents()), queues.Contents(), old(procs), procs)
    {
      SyscallExit();
      LeavesMoves(old(queues.Contents()), queues.Contents(), old(procs), procs);
    }

    method ServeWait()
      requires Valid() && inKernel && procs[curr].state == Runnable && curr != IDLE
      modifies this`procs, this`past, queues.repr
      ensures Valid() && fresh(queues.repr - old(queues.repr)) && WaitDone(old(procs), procs, curr)
      ensures Logged(old(past), past, old(procs), procs) && Moves(old(queues.Contents()), queues.Contents(), old(procs), procs)
    {
      SyscallWait();
      LeavesMoves(old(queues.Contents()), queues.Contents(), old(procs), procs);
    }

    /** The calls that concern only their caller. */
    method ServeOwn(call: Call)
      requires Valid() && inKernel && procs[curr].state == Runnable && (call.Malloc? || call.MemFree? || call.Other?)
      modifies this`procs, this`heap, this`dir, this`kernelHeap
      ensures Valid() && Done(call, old(procs), procs, curr) && heap == old(heap)
      ensures Logged(past, past, old(procs), procs) && Moves(queues.Contents(), queues.Contents(), old(procs), procs)
    {
      match call {
        case Malloc(alloc) => var ret := CallHeap(alloc); SetEax(ret);
        case MemFree(free) => var _ := CallHeap(free);
        case Other(eax) => SetEax(eax);
        case _ =>
      }
      StayMoves(queues.Contents(), old(procs), procs);
    }

    /** After the call the same process goes on, unless it cannot or must not; then another one is selected. */
    method Finish(kernel: Pointers)
      requires Valid() && inKernel
      modifies this`inKernel, this`shouldCycle, this`curr, this`regs, this`heap, this`dir, this`kernelHeap, queues.repr
      ensures Valid() && !inKernel && fresh(queues.repr - old(queues.repr)) && Slots() == old(procs) && KernelPointers() == kernel
      ensures if !old(shouldCycle) && old(procs)[old(curr)].state == Runnable then curr == old(curr)
              else Selected(old(queues.Contents()), queues.Contents(), old(procs), old(curr), curr)
      ensures !old(shouldCycle) && old(procs)[old(curr)].state == Runnable ==> queues.Contents() == old(queues.Contents())
    {
      Reselect(kernel);
      SwitchAfter();
    }

    method Reselect(kernel: Pointers)
      requires Valid() && inKernel
      modifies this`curr, this`heap, this`shouldCycle, queues.repr
      ensures Valid() && fresh(queues.repr - old(queues.repr)) && heap == kernel && procs[curr].state == Runnable && !shouldCycle
      ensures if !old(shouldCycle) && procs[old(curr)].state == Runnable then curr == old(curr)
              else Selected(old(queues.Contents()), queues.Contents(), procs, old(curr), curr)
      ensures !old(shouldCycle) && procs[old(curr)].state == Runnable ==> queues.Contents() == old(queues.Contents())
    {
      if shouldCycle || procs[curr].state != Runnable {
        Select(kernel);
        shouldCycle := false;
      } else {
        heap := kernel;
      }
    }

    method SyscallHandler(call: Call, kernel: Pointers)
      requires Valid() && !inKernel && Permitted(call, Slots(), curr)
      modifies this, queues.repr
      ensures Valid() && !inKernel && fresh(queues.repr - old(queues.repr))
      ensures Next(old(Now()), Syscall(call, kernel), Now())
    {
      SwitchBefore();
      Handle(call, kernel);
    }

    /** The part of the handler between the two switches, and the second one. */
    method Handle(call: Call, kernel: Pointers)
      requires Valid() && inKernel && procs[curr].state == Runnable && Permitted(call, procs, curr) && !shouldCycle
      modifies this, queues.repr
      ensures Valid() && !inKernel && fresh(queues.repr - old(queues.repr))
      ensures Next(old(Now()), Syscall(call, kernel), Now())
    {
      ghost var s := Now();
      Serve(call);
      Return(s, call, kernel);
    }

    /** The call is done; back to user mode. */
    method Return(ghost s: Snapshot, ghost call: Call, kernel: Pointers)
      requires Valid() && inKernel && curr == s.curr && Permitted(call, s.ps, curr) && shouldCycle == call.Hlt?
      requires Done(Awake(call, s.launched), s.ps, procs, curr) && Logged(s.past, past, s.ps, procs)
      requires Moves(s.qs, queues.Contents(), s.ps, procs) && runExecuted == (s.launched && !call.Hlt?)
      modifies this`inKernel, this`shouldCycle, this`curr, this`regs, this`heap, this`dir, this`kernelHeap, queues.repr
      ensures Valid() && !inKernel && fresh(queues.repr - old(queues.repr))
      ensures Next(s, Syscall(call, kernel), Now())
    {
      ghost var qs := queues.Contents();
      Finish(kernel);
      assert Called(s, call, Now(), qs);
    }

    // ----- whole runs -----

    /** One event. A system call that is not permitted is passed over. */
    method React(event: Event)
      requires Valid() && !inKernel
      modifies this, queues.repr
      ensures Valid() && !inKernel && fresh(queues.repr - old(queues.repr))
      ensures Next(old(Now()), event, Now())
    {
      match event {
        case Compute(r) => UserCode(r);
        case Tick(kernel) => TimerHandler(kernel);
        case Press(programs, kernel) => KeyboardHandler(programs, kernel);
        case Syscall(call, kernel) =>
          var permitted := IsPermitted(call);
          if permitted { SyscallHandler(call, kernel); }
      }
    }

    method UserCode(r: Regs)
      requires Valid() && !inKernel
      modifies this`regs
      ensures Valid() && Slots() == WithContext(old(Slots()), curr, old(Slots())[curr].ctx.(regs := r))
    {
      ContextKeeps(Slots(), queues.Contents(), past, curr, Slots()[curr].ctx.(regs := r));
      regs := r;
      assert Slots() == WithContext(old(Slots()), curr, old(Slots())[curr].ctx.(regs := r));
    }

    method IsPermitted(call: Call) returns (r: bool)
      requires Valid() && !inKernel
      ensures r == Permitted(call, Slots(), curr)
    {
      r := match call
        case Exit => !IsRoot(curr)
        case Wait => curr != IDLE
        case Fork(_) => regs.ebx >= 0
        case _ => true;
    }

    /** A run goes on by one event. */
    method Advance(ghost events: seq<Event>, event: Event, ghost t: seq<Snapshot>) returns (ghost t': seq<Snapshot>)
      requires Valid() && !inKernel && IsRun(events, t) && t[|events|] == Now()
      modifies this, queues.repr
      ensures Valid() && !inKernel && fresh(queues.repr - old(queues.repr))
      ensures IsRun(events + [event], t') && t' == t + [Now()]
    {
      assert Sound(t[|events|]);
      React(event);
      RunGrows(events, t, event, Now());
      t' := t + [Now()];
    }

    /** Every run keeps every invariant, and in every step of it the process that runs is the only actor. */
    method Run(events: seq<Event>) returns (ghost t: seq<Snapshot>)
      requires Valid() && !inKernel
      modifies this, queues.repr
      ensures Valid() && !inKernel && fresh(queues.repr - old(queues.repr))
      ensures IsRun(events, t) && t[0] == old(Now()) && t[|events|] == Now()
    {
      t := [Now()];
      var i := 0;
      while i < |events|
        invariant 0 <= i <= |events| && Valid() && !inKernel && fresh(queues.repr - old(queues.repr))
        invariant IsRun(events[..i], t) && t[0] == old(Now()) && t[i] == Now()
      {
        t := Advance(events[..i], events[i], t);
        assert events[..i] + [events[i]] == events[..i + 1];
        i := i + 1;
      }
      assert events[..i] == events;
    }
  }

  /** The table after one more turn of the loop of `syscall_exit`. */
  lemma HandedNext(b: Table, id: int, i: int, z: int, z': int, ps: Table, r: Table)
    requires IsPid(i) && Collects(b, id, i, z) && ps == Handed(b, id, i, z) && b[INIT].parent == INIT && id != INIT && -1 <= z' < NUM_PROCESSES
    requires if ps[i].parent != id then z' == z && r == ps
             else if ps[i].state == Zombie && ps[INIT].state == Waiting then z' == i && r == WithParent(Reaped(ps, INIT, i), i, INIT)
             else z' == z && r == WithParent(ps, i, INIT)
    ensures Collects(b, id, i + 1, z') && r == Handed(b, id, i + 1, z')
  {
    assert ps[i] == HandedAt(b, id, i, z, i) && ps[INIT] == HandedAt(b, id, i, z, INIT);
    forall j | IsPid(j) ensures r[j] == HandedAt(b, id, i + 1, z', j) { assert ps[j] == HandedAt(b, id, i, z, j); }
  }

  /** init collects an orphan that was just handed to it. */
  lemma OrphanKeeps(ps: Table, qs: seq<seq<int>>, past: Past, id: int, i: int)
    requires Good(ps, qs, past, id) && IsPid(id) && !IsRoot(id)
    requires IsPid(i) && i != id && ps[i].parent == id && ps[i].state == Zombie && ps[INIT].state == Waiting
    ensures 0 <= ps[i].prio <= MAX_PRIORITY
    ensures Reaped(WithParent(ps, i, INIT), INIT, i) == WithParent(Reaped(ps, INIT, i), i, INIT)
    ensures var r, qs' := WithParent(Reaped(ps, INIT, i), i, INIT), qs[ps[i].prio := Except(qs[ps[i].prio], i)];
            && Leaves(qs, qs', r)
            && Good(r, qs', past.(log := past.log + [Reaping(past.serial[i], INIT, past.code[i])]), id)
  {
    ZombieChildless(ps, past.depth, id, i);
    ReapedKeeps(ps, qs, past, id, INIT, i);
    var r1, qs' := Reaped(ps, INIT, i), qs[ps[i].prio := Except(qs[ps[i].prio], i)];
    FreeParent(r1, qs', past.(log := past.log + [Reaping(past.serial[i], INIT, past.code[i])]), id, i, INIT);
    LeavesOne(ps, qs, WithParent(r1, i, INIT), i);
  }

  /** What the registers of a running process hold is no concern of the process table. */
  lemma UserGood(ps: Table, qs: seq<seq<int>>, past: Past, i: int, ctx: Context)
    requires IsPid(i) && ps[i].state == Runnable && Good(WithContext(ps, i, ctx), qs, past, -1)
    ensures Good(ps, qs, past, -1)
  {
    ContextKeeps(WithContext(ps, i, ctx), qs, past, i, ps[i].ctx);
    assert WithContext(WithContext(ps, i, ctx), i, ps[i].ctx) == ps;
  }

  /** What a key did to the process table it did to the processes as they see themselves. */
  lemma KeyDone(ps: Table, qs: seq<seq<int>>, past: Past, r: Table, qs': seq<seq<int>>, past': Past, programs: seq<Program>, i: int, ctx: Context)
    requires IsPid(i) && ps[i].state == Runnable && r == LaunchAll(ps, programs) && Good(r, qs', past', -1)
    requires Logged(past, past', ps, r) && Moves(qs, qs', ps, r)
    ensures r[i] == ps[i] && var u, w := WithContext(ps, i, ctx), WithContext(r, i, ctx);
            && w == LaunchAll(u, programs) && Starts(u, programs) == Starts(ps, programs) && Good(w, qs', past', -1)
            && Logged(past, past', u, w) && Moves(qs, qs', u, w)
  {
    LaunchLive(ps, programs);
    LaunchContext(ps, programs, i, ctx);
    ContextKeeps(r, qs', past', i, ctx);
    MovesStates(qs, qs', ps, r, WithContext(ps, i, ctx), WithContext(r, i, ctx));
  }

  /** Two records, one after the other. */
  lemma LoggedLater(a: Past, b: Past, c: Past, ps: Table, r1: Table, r2: Table)
    requires Logged(a, b, ps, r1) && Logged(b, c, r1, r2) && forall i :: (Live(ps, i) ==> Live(r1, i)) && (Live(r1, i) ==> Live(r2, i))
    ensures Logged(a, c, ps, r2)
  {
  }

  lemma ExitRecord(a: Past, b: Past, ps: Table, id: int, z: int)
    requires IsPid(id) && History(ps, a) && Collects(WithState(ps, id, Zombie), id, NUM_PROCESSES, z) && b.serial == a.serial
    requires ps[id].state == Runnable && ps[id].parent != id && !IsRoot(id) && ps[INIT].state != Free
    requires var a1 := a.(code := a.code[id := ps[id].ctx.regs.ebx]);
             var t := Handed(WithState(ps, id, Zombie), id, NUM_PROCESSES, z); var p := t[id].parent;
             b.log == OrphanLog(a1, z) + if IsPid(p) && t[p].state == Waiting then [Reaping(a.serial[id], p, a1.code[id])] else []
    ensures Logged(a, b, ps, Exited(ps, id, z))
  {
    forall i | IsPid(i) && ps[i].state == Zombie ensures a.code[i] == ps[i].ctx.regs.ebx { assert Alone(ps, a, i); }
    var t := Handed(WithState(ps, id, Zombie), id, NUM_PROCESSES, z);
    assert t[id].parent == ps[id].parent;
    ExitLogged(a, b, ps, id, z);
  }

  /** What a slot that is not in use holds does not matter. */
  lemma FreeKeeps(ps: Table, qs: seq<seq<int>>, past: Past, id: int, proc: Process)
    requires Good(ps, qs, past, -1) && IsPid(id) && ps[id].state == Free == proc.state
    ensures Good(ps[id := proc], qs, past, -1)
  {
    var r := ps[id := proc];
    forall i | Live(r, i) ensures FamilyAt(r, past.depth, -1, i) && Alone(r, past, i) {
      assert FamilyAt(ps, past.depth, -1, i) && Alone(ps, past, i);
    }
    forall q, i | 0 <= q < |qs| ensures QueuedAt(r, qs, q, i) { assert QueuedAt(ps, qs, q, i); }
  }

  lemma InstallGood(ps: Table, qs: seq<seq<int>>, past: Past, idle: Context, init: Context)
    requires ps[IDLE] == Process(Runnable, IDLE, 0, idle) && ps[INIT] == Process(Runnable, INIT, MAX_PRIORITY, init)
    requires forall i :: 2 <= i < NUM_PROCESSES ==> ps[i] == NO_PROCESS
    requires |qs| == MAX_PRIORITY + 1 && qs[0] == [IDLE] && qs[MAX_PRIORITY] == [INIT] && forall q :: 0 < q < MAX_PRIORITY ==> qs[q] == []
    requires |past.depth| == |past.serial| == |past.code| == NUM_PROCESSES == past.born && past.log == []
    requires forall i :: 0 <= i < NUM_PROCESSES ==> past.serial[i] == i && past.depth[i] == 0
    ensures Good(ps, qs, past, -1)
  {
    forall i | Live(ps, i) ensures FamilyAt(ps, past.depth, -1, i) && Alone(ps, past, i) {}
    forall q, i | 0 <= q < |qs| ensures QueuedAt(ps, qs, q, i) {}
  }
}
