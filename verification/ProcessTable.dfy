/** The process table and what every system call keeps of it (src/syscall.c, src/process.h). */
module ProcessTable {
  import opened Scheduling
  import opened Sequences

  const NUM_PROCESSES := 128
  const IDLE := 0
  const INIT := 1

  datatype State = Free | Waiting | Runnable | Zombie

  /** The registers that system calls read and write, and all the others. */
  datatype Regs = Regs(eax: int, ebx: int, ecx: int, others: seq<int>)

  /** `first_free_block` and `unallocated_mem`. */
  datatype Pointers = Pointers(first: int, unallocated: int)

  const KERNEL_DIR := 0

  /** A page directory that is not the kernel's. */
  type Directory = d: int | d != KERNEL_DIR witness 1

  datatype Context = Context(regs: Regs, heap: Pointers, dir: Directory)

  datatype Process = Process(state: State, parent: int, prio: int, ctx: Context)

  const NO_CONTEXT := Context(Regs(0, 0, 0, []), Pointers(0, 0), 1)

  const NO_PROCESS := Process(Free, 0, 0, NO_CONTEXT)

  type Table = ps: seq<Process> | |ps| == NUM_PROCESSES witness seq(NUM_PROCESSES, _ => NO_PROCESS)

  predicate IsPid(i: int) { 0 <= i < NUM_PROCESSES }

  predicate Live(ps: Table, i: int) { IsPid(i) && ps[i].state != Free }

  /** A process that can still call wait. */
  predicate Able(ps: Table, i: int) { IsPid(i) && (ps[i].state == Runnable || ps[i].state == Waiting) }

  predicate IsRoot(i: int) { i == INIT || i == IDLE }

  // ----- families -----

  /**
   * What holds of a process and its parent; x is a process in the middle of its exit, or -1. The parent is
   * able to wait; a Zombie's parent is not waiting, so no wakeup is lost; `depth` grows from parent to child.
   */
  ghost predicate FamilyAt(ps: Table, depth: seq<int>, x: int, i: int)
    requires Live(ps, i) && |depth| == NUM_PROCESSES
  {
    var p := ps[i].parent;
    && IsPid(p) && 0 <= ps[i].prio <= MAX_PRIORITY
    && (if IsRoot(i) then p == i && Able(ps, i) && depth[i] == 0 else 0 <= depth[p] < depth[i])
    && (p != x ==> Able(ps, p))
    && (ps[i].state == Zombie && i != x && p != x ==> ps[p].state == Runnable)
  }

  ghost predicate Family(ps: Table, depth: seq<int>, x: int)
  {
    && |depth| == NUM_PROCESSES && Live(ps, INIT) && Live(ps, IDLE)
    && forall i {:trigger FamilyAt(ps, depth, x, i)} :: Live(ps, i) ==> FamilyAt(ps, depth, x, i)
  }

  /** The i-th ancestor. */
  ghost function Ancestor(ps: Table, i: int, n: nat): int
    requires IsPid(i)
    decreases n
  {
    if n == 0 || !IsPid(ps[i].parent) then i else Ancestor(ps, ps[i].parent, n - 1)
  }

  /** The parent relation is a forest: from every process, finitely many steps lead to init or idle. */
  lemma {:induction false} Forest(ps: Table, depth: seq<int>, i: int) returns (n: nat)
    requires Family(ps, depth, -1) && Live(ps, i)
    ensures IsRoot(Ancestor(ps, i, n))
    decreases depth[i]
  {
    assert FamilyAt(ps, depth, -1, i);
    if IsRoot(i) {
      n := 0;
    } else {
      var m := Forest(ps, depth, ps[i].parent);
      n := m + 1;
    }
  }

  // ----- runqueues -----

  ghost predicate QueuedAt(ps: Table, qs: seq<seq<int>>, q: int, i: int)
    requires 0 <= q < |qs|
  {
    i in qs[q] <==> Live(ps, i) && ps[i].prio == q
  }

  /** Each live process is exactly once in the queue of its priority, and nowhere else; free slots are in none. */
  ghost predicate Queues(ps: Table, qs: seq<seq<int>>)
  {
    && |qs| == MAX_PRIORITY + 1
    && (forall q :: 0 <= q < |qs| ==> NoRepeat(qs[q]))
    && (forall q, i {:trigger QueuedAt(ps, qs, q, i)} :: 0 <= q < |qs| ==> QueuedAt(ps, qs, q, i))
  }

  // ----- reaping -----

  /** What `wait` returns: the child and its exit code. */
  function WaitResult(ctx: Context, child: int, code: int): Context
  {
    ctx.(regs := ctx.regs.(eax := 1, ebx := child, ecx := code))
  }

  /** `resolve_exit_wait` on the table: the child's slot is free, the parent goes on with pid and exit code. */
  function Reaped(ps: Table, parent: int, child: int): Table
    requires IsPid(parent) && IsPid(child)
  {
    var ps1 := ps[child := ps[child].(state := Free)];
    ps1[parent := ps1[parent].(state := Runnable, ctx := WaitResult(ps1[parent].ctx, child, ps1[child].ctx.regs.ebx))]
  }

  lemma ReapedFamily(ps: Table, depth: seq<int>, x: int, parent: int, child: int)
    requires Family(ps, depth, x) && IsPid(child) && ps[child].state == Zombie && Able(ps, parent)
    requires forall k :: Live(ps, k) ==> ps[k].parent != child
    ensures !IsRoot(child) && Family(Reaped(ps, parent, child), depth, if child == x then -1 else x)
  {
    var r := Reaped(ps, parent, child);
    assert FamilyAt(ps, depth, x, child);
    forall i | Live(r, i) ensures FamilyAt(r, depth, if child == x then -1 else x, i) {
      assert FamilyAt(ps, depth, x, i);
    }
  }

  lemma ReapedQueues(ps: Table, qs: seq<seq<int>>, parent: int, child: int)
    requires Queues(ps, qs) && IsPid(child) && ps[child].state == Zombie && Able(ps, parent) && 0 <= ps[child].prio <= MAX_PRIORITY
    ensures Queues(Reaped(ps, parent, child), qs[ps[child].prio := Except(qs[ps[child].prio], child)])
  {
    var r := Reaped(ps, parent, child);
    var prio := ps[child].prio;
    var qs' := qs[prio := Except(qs[prio], child)];
    ExceptNoRepeat(qs[prio], child);
    ExceptMembers(qs[prio], child);
    forall q, i | 0 <= q < |qs'| ensures QueuedAt(r, qs', q, i) {
      assert QueuedAt(ps, qs, q, i);
    }
  }

  // ----- history -----

  /** A child that was reaped: which of all processes ever created, by whom, with which code. */
  datatype Reaping = Reaping(serial: int, parent: int, code: int)

  /** Each process ever created has its own number; `code` is what a Zombie passed to exit. */
  datatype Past = Past(depth: seq<int>, serial: seq<int>, code: seq<int>, born: int, log: seq<Reaping>)

  ghost predicate Alone(ps: Table, past: Past, i: int)
    requires Live(ps, i) && |past.serial| == NUM_PROCESSES == |past.code|
  {
    && 0 <= past.serial[i] < past.born
    && (forall j :: Live(ps, j) && j != i ==> past.serial[j] != past.serial[i])
    && (forall k :: 0 <= k < |past.log| ==> past.log[k].serial != past.serial[i])
    && (ps[i].state == Zombie ==> ps[i].ctx.regs.ebx == past.code[i])
  }

  /** No process was reaped twice, and none that was reaped is alive. */
  ghost predicate History(ps: Table, past: Past)
  {
    && |past.serial| == NUM_PROCESSES == |past.code|
    && (forall i {:trigger Alone(ps, past, i)} :: Live(ps, i) ==> Alone(ps, past, i))
    && (forall k :: 0 <= k < |past.log| ==> past.log[k].serial < past.born)
    && (forall j, k :: 0 <= j < k < |past.log| ==> past.log[j].serial != past.log[k].serial)
  }

  lemma ReapedHistory(ps: Table, past: Past, parent: int, child: int)
    requires History(ps, past) && IsPid(child) && ps[child].state == Zombie && Able(ps, parent)
    ensures Reaped(ps, parent, child)[parent].ctx.regs.ecx == past.code[child]
    ensures History(Reaped(ps, parent, child), past.(log := past.log + [Reaping(past.serial[child], parent, past.code[child])]))
  {
    var r := Reaped(ps, parent, child);
    var past' := past.(log := past.log + [Reaping(past.serial[child], parent, past.code[child])]);
    assert Alone(ps, past, child);
    forall i | Live(r, i) ensures Alone(r, past', i) { assert Alone(ps, past, i); }
  }

  // ----- creation -----

  /** The past with one more process, in slot `id`. */
  ghost function Joined(past: Past, id: int, parent: int): Past
    requires IsPid(id) && IsPid(parent) && |past.depth| == NUM_PROCESSES == |past.serial|
  {
    past.(depth := past.depth[id := past.depth[parent] + 1], serial := past.serial[id := past.born], born := past.born + 1)
  }

  /** A new process enters a free slot and the back of its runqueue. */
  lemma BirthKeeps(ps: Table, qs: seq<seq<int>>, past: Past, id: int, proc: Process)
    requires Family(ps, past.depth, -1) && Queues(ps, qs) && History(ps, past)
    requires IsPid(id) && ps[id].state == Free && proc.state == Runnable && Able(ps, proc.parent) && 0 <= proc.prio <= MAX_PRIORITY
    ensures var r, past' := ps[id := proc], Joined(past, id, proc.parent);
            Family(r, past'.depth, -1) && Queues(r, qs[proc.prio := qs[proc.prio] + [id]]) && History(r, past')
  {
    var r, past' := ps[id := proc], Joined(past, id, proc.parent);
    assert FamilyAt(ps, past.depth, -1, proc.parent) && Alone(ps, past, proc.parent);
    forall i | Live(r, i) ensures FamilyAt(r, past'.depth, -1, i) {
      if i != id { assert FamilyAt(ps, past.depth, -1, i); }
    }
    BirthQueues(ps, qs, id, proc);
    BirthHistory(ps, past, id, proc);
  }

  lemma BirthQueues(ps: Table, qs: seq<seq<int>>, id: int, proc: Process)
    requires Queues(ps, qs) && IsPid(id) && ps[id].state == Free && proc.state == Runnable && 0 <= proc.prio <= MAX_PRIORITY
    ensures Queues(ps[id := proc], qs[proc.prio := qs[proc.prio] + [id]])
  {
    var r, qs' := ps[id := proc], qs[proc.prio := qs[proc.prio] + [id]];
    forall q, i | 0 <= q < |qs'| ensures QueuedAt(r, qs', q, i) {
      assert QueuedAt(ps, qs, q, i) && QueuedAt(ps, qs, q, id);
    }
    assert QueuedAt(ps, qs, proc.prio, id);
  }

  lemma BirthHistory(ps: Table, past: Past, id: int, proc: Process)
    requires History(ps, past) && IsPid(id) && ps[id].state == Free && proc.state == Runnable && |past.depth| == NUM_PROCESSES
    requires Able(ps, proc.parent)
    ensures History(ps[id := proc], Joined(past, id, proc.parent))
  {
    var r, past' := ps[id := proc], Joined(past, id, proc.parent);
    assert Alone(ps, past, proc.parent);
    forall i | Live(r, i) ensures Alone(r, past', i) {
      if i != id { assert Alone(ps, past, i); }
      forall j | Live(r, j) && j != i ensures past'.serial[j] != past'.serial[i] {
        if j != id { assert Alone(ps, past, j); }
      }
    }
  }

  // ----- exit -----

  function WithState(ps: Table, i: int, s: State): Table
    requires IsPid(i)
  {
    ps[i := ps[i].(state := s)]
  }

  function WithParent(ps: Table, i: int, p: int): Table
    requires IsPid(i)
  {
    ps[i := ps[i].(parent := p)]
  }

  lemma QueuesSame(ps: Table, r: Table, qs: seq<seq<int>>)
    requires Queues(ps, qs) && forall i :: IsPid(i) ==> (Live(ps, i) <==> Live(r, i)) && r[i].prio == ps[i].prio
    ensures Queues(r, qs)
  {
    forall q, i | 0 <= q < |qs| ensures QueuedAt(r, qs, q, i) { assert QueuedAt(ps, qs, q, i); }
  }

  /** The exiting process becomes a Zombie; its children and its parent are still to be told. */
  lemma ExitStarts(ps: Table, qs: seq<seq<int>>, past: Past, id: int)
    requires Family(ps, past.depth, -1) && Queues(ps, qs) && History(ps, past) && IsPid(id) && ps[id].state == Runnable && !IsRoot(id)
    ensures Family(WithState(ps, id, Zombie), past.depth, id) && Queues(WithState(ps, id, Zombie), qs)
    ensures History(WithState(ps, id, Zombie), past.(code := past.code[id := ps[id].ctx.regs.ebx]))
  {
    var r := WithState(ps, id, Zombie);
    forall i | Live(r, i) ensures FamilyAt(r, past.depth, id, i) { assert FamilyAt(ps, past.depth, -1, i); }
    QueuesSame(ps, r, qs);
    var past' := past.(code := past.code[id := ps[id].ctx.regs.ebx]);
    forall i | Live(r, i) ensures Alone(r, past', i) { assert Alone(ps, past, i); }
  }

  /** A child of the exiting process is handed to init, which is not waiting for it. */
  lemma Reparent(ps: Table, qs: seq<seq<int>>, past: Past, x: int, k: int)
    requires Family(ps, past.depth, x) && Queues(ps, qs) && History(ps, past) && IsPid(k) && ps[k].parent == x && !IsRoot(x) && k != x
    requires ps[k].state == Zombie ==> ps[INIT].state != Waiting
    ensures var r := WithParent(ps, k, INIT); Family(r, past.depth, x) && Queues(r, qs) && History(r, past)
  {
    var r := WithParent(ps, k, INIT);
    assert FamilyAt(ps, past.depth, x, INIT);
    forall i | Live(r, i) ensures FamilyAt(r, past.depth, x, i) { assert FamilyAt(ps, past.depth, x, i); }
    QueuesSame(ps, r, qs);
    forall i | Live(r, i) ensures Alone(r, past, i) { assert Alone(ps, past, i); }
  }

  /** No live process has a Zombie as its parent, except the exiting one. */
  lemma ZombieChildless(ps: Table, depth: seq<int>, x: int, z: int)
    requires Family(ps, depth, x) && IsPid(z) && ps[z].state == Zombie && z != x
    ensures forall k :: Live(ps, k) ==> ps[k].parent != z
  {
    forall k | Live(ps, k) ensures ps[k].parent != z { assert FamilyAt(ps, depth, x, k); }
  }

  /** What `resolve_exit_wait` keeps. */
  lemma ReapedKeeps(ps: Table, qs: seq<seq<int>>, past: Past, x: int, parent: int, child: int)
    requires Family(ps, past.depth, x) && Queues(ps, qs) && History(ps, past)
    requires IsPid(child) && ps[child].state == Zombie && Able(ps, parent)
    requires forall k :: Live(ps, k) ==> ps[k].parent != child
    ensures 0 <= ps[child].prio <= MAX_PRIORITY && !IsRoot(child)
    ensures var r := Reaped(ps, parent, child);
            && Family(r, past.depth, if child == x then -1 else x)
            && Queues(r, qs[ps[child].prio := Except(qs[ps[child].prio], child)])
            && History(r, past.(log := past.log + [Reaping(past.serial[child], parent, past.code[child])]))
            && r[parent].ctx.regs.ecx == past.code[child]
  {
    assert FamilyAt(ps, past.depth, x, child);
    ReapedFamily(ps, past.depth, x, parent, child);
    ReapedQueues(ps, qs, parent, child);
    ReapedHistory(ps, past, parent, child);
  }

  /** The parent field of a free slot does not matter. */
  lemma FreeParent(ps: Table, qs: seq<seq<int>>, past: Past, x: int, k: int, p: int)
    requires Family(ps, past.depth, x) && Queues(ps, qs) && History(ps, past) && IsPid(k) && ps[k].state == Free
    ensures var r := WithParent(ps, k, p); Family(r, past.depth, x) && Queues(r, qs) && History(r, past)
  {
    var r := WithParent(ps, k, p);
    forall i | Live(r, i) ensures FamilyAt(r, past.depth, x, i) { assert FamilyAt(ps, past.depth, x, i); }
    QueuesSame(ps, r, qs);
    forall i | Live(r, i) ensures Alone(r, past, i) { assert Alone(ps, past, i); }
  }

  /** Its children gone and its parent not waiting, the exiting process is a Zombie like any other. */
  lemma ExitEnds(ps: Table, depth: seq<int>, id: int)
    requires Family(ps, depth, id) && IsPid(id) && ps[id].state == Zombie
    requires (forall k :: Live(ps, k) ==> ps[k].parent != id) && IsPid(ps[id].parent) && ps[ps[id].parent].state != Waiting
    ensures Family(ps, depth, -1)
  {
    forall i | Live(ps, i) ensures FamilyAt(ps, depth, -1, i) { assert FamilyAt(ps, depth, id, i); }
  }

  // ----- wait -----

  /** A process without Zombie children may wait. */
  lemma WaitKeeps(ps: Table, qs: seq<seq<int>>, past: Past, id: int)
    requires Family(ps, past.depth, -1) && Queues(ps, qs) && History(ps, past) && IsPid(id) && ps[id].state == Runnable
    requires forall k :: IsPid(k) && ps[k].parent == id ==> ps[k].state != Zombie
    ensures var r := WithState(ps, id, Waiting); Family(r, past.depth, -1) && Queues(r, qs) && History(r, past)
  {
    var r := WithState(ps, id, Waiting);
    forall i | Live(r, i) ensures FamilyAt(r, past.depth, -1, i) { assert FamilyAt(ps, past.depth, -1, i); }
    QueuesSame(ps, r, qs);
    forall i | Live(r, i) ensures Alone(r, past, i) { assert Alone(ps, past, i); }
  }

  function WithContext(ps: Table, i: int, ctx: Context): Table
    requires IsPid(i)
  {
    ps[i := ps[i].(ctx := ctx)]
  }

  /** The context of a process that is not a Zombie may change at will. */
  lemma ContextKeeps(ps: Table, qs: seq<seq<int>>, past: Past, id: int, ctx: Context)
    requires Family(ps, past.depth, -1) && Queues(ps, qs) && History(ps, past) && IsPid(id) && ps[id].state != Zombie
    ensures var r := WithContext(ps, id, ctx); Family(r, past.depth, -1) && Queues(r, qs) && History(r, past)
  {
    var r := WithContext(ps, id, ctx);
    forall i | Live(r, i) ensures FamilyAt(r, past.depth, -1, i) { assert FamilyAt(ps, past.depth, -1, i); }
    QueuesSame(ps, r, qs);
    forall i | Live(r, i) ensures Alone(r, past, i) { assert Alone(ps, past, i); }
  }

  // ----- selection -----

  function Runs(ps: Table): Runnables
  {
    seq(NUM_PROCESSES, i requires 0 <= i < NUM_PROCESSES => ps[i].state == Runnable)
  }

  lemma QueuePids(ps: Table, qs: seq<seq<int>>)
    requires Queues(ps, qs)
    ensures AllPids(qs, Runs(ps))
  {
    forall q, j | 0 <= q < |qs| && 0 <= j < |qs[q]| ensures 0 <= qs[q][j] < NUM_PROCESSES {
      assert QueuedAt(ps, qs, q, qs[q][j]);
    }
  }

  /** Turning a queue changes nothing about who is in it. */
  lemma SelectKeeps(ps: Table, qs: seq<seq<int>>, curr: int)
    requires Queues(ps, qs)
    ensures AllPids(qs, Runs(ps)) && Queues(ps, AfterSelect(qs, Runs(ps)))
  {
    QueuePids(ps, qs);
    var run := Runs(ps);
    var t := Top(qs, run, |qs|);
    if t >= 0 {
      var k := First(qs[t], run) + 1;
      RotateSame(qs[t], k);
      var qs' := AfterSelect(qs, run);
      forall q, i | 0 <= q < |qs'| ensures QueuedAt(ps, qs', q, i) { assert QueuedAt(ps, qs, q, i); }
    }
  }

  lemma RotateSame(q: seq<int>, k: int)
    requires 0 <= k <= |q|
    ensures forall x :: x in Rotate(q, k) <==> x in q
    ensures NoRepeat(q) ==> NoRepeat(Rotate(q, k))
  {
    var r := Rotate(q, k);
    assert q == q[..k] + q[k..];
    forall i | 0 <= i < |r| ensures r[i] == q[if i < |q| - k then i + k else i - (|q| - k)] {}
  }

  /** As long as idle is runnable, the process chosen is a runnable one. */
  lemma ChosenRuns(ps: Table, qs: seq<seq<int>>, curr: int)
    requires Queues(ps, qs) && Live(ps, IDLE) && ps[IDLE].state == Runnable && 0 <= ps[IDLE].prio <= MAX_PRIORITY
    ensures AllPids(qs, Runs(ps)) && IsPid(Chosen(qs, Runs(ps), curr)) && ps[Chosen(qs, Runs(ps), curr)].state == Runnable
  {
    QueuePids(ps, qs);
    var run := Runs(ps);
    var q := ps[IDLE].prio;
    assert QueuedAt(ps, qs, q, IDLE);
    var j :| 0 <= j < |qs[q]| && qs[q][j] == IDLE;
    assert HasRunnable(qs[q], run);
    var t := Top(qs, run, |qs|);
    assert QueuedAt(ps, qs, t, qs[t][First(qs[t], run)]);
  }
}
