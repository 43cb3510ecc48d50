/** What one kernel entry may do to the process table. */
module ProcessSteps {
  import opened Scheduling
  import opened ProcessTable

  /** Everything that holds between kernel entries; x is a process in the middle of its exit, or -1. */
  ghost predicate Good(ps: Table, qs: seq<seq<int>>, past: Past, x: int)
  {
    Family(ps, past.depth, x) && Queues(ps, qs) && History(ps, past) && ps[IDLE].state == Runnable
  }

  /** A process that waits has no child to be collected. */
  lemma NoLostWakeup(ps: Table, qs: seq<seq<int>>, past: Past, p: int, c: int)
    requires Good(ps, qs, past, -1) && IsPid(p) && IsPid(c) && ps[p].state == Waiting && ps[c].parent == p
    ensures ps[c].state != Zombie
  {
    if Live(ps, c) { assert FamilyAt(ps, past.depth, -1, c); }
  }

  /** Process i is at place j of queue q. */
  predicate StandsAt(qs: seq<seq<int>>, q: int, j: int, i: int)
  {
    0 <= q < |qs| && 0 <= j < |qs[q]| && qs[q][j] == i
  }

  /** A live process is in one runqueue, the one of its priority, at one place; a free slot is in none. */
  lemma QueuedOnce(ps: Table, qs: seq<seq<int>>, past: Past, i: int)
    requires Good(ps, qs, past, -1)
    ensures Live(ps, i) <==> exists q, j :: StandsAt(qs, q, j, i)
    ensures forall q, j, q', j' :: StandsAt(qs, q, j, i) && StandsAt(qs, q', j', i) ==> q == q' == ps[i].prio && j == j'
  {
    forall q, j | StandsAt(qs, q, j, i) ensures Live(ps, i) && q == ps[i].prio { assert QueuedAt(ps, qs, q, i); }
    if Live(ps, i) {
      assert FamilyAt(ps, past.depth, -1, i) && QueuedAt(ps, qs, ps[i].prio, i);
      assert StandsAt(qs, ps[i].prio, Index(qs[ps[i].prio], i), i);
    }
  }

  // ----- steps -----

  /** p, who waited, is resumed with 1 in eax, c's pid in ebx and its exit code in ecx, and c is gone; `who` is the process running. */
  ghost predicate Woken(ps: Table, r: Table, who: int, p: int, c: int)
  {
    && IsPid(p) && IsPid(c) && Live(ps, c) && r[c].state == Free && r[p].state == Runnable
    && (ps[p].state == Waiting || p == who) && (ps[c].state == Zombie || c == who)
    && (ps[c].parent == p || (p == INIT && ps[c].parent == who))
    && r[p].ctx == Context(Regs(1, c, ps[c].ctx.regs.ebx, ps[p].ctx.regs.others), ps[p].ctx.heap, ps[p].ctx.dir)
  }

  /** What a step of another process may do to process i. */
  ghost predicate StepAt(ps: Table, r: Table, who: int, i: int)
    requires IsPid(i)
  {
    && (ps[i].state == Runnable ==> r[i].state == Runnable && r[i].ctx == ps[i].ctx)
    && (ps[i].state == Waiting ==> (r[i].state == Waiting && r[i].ctx == ps[i].ctx) || exists c :: Woken(ps, r, who, i, c))
    && (ps[i].state == Zombie ==> r[i].state == Free || (r[i].state == Zombie && r[i].ctx == ps[i].ctx))
    && (Live(ps, i) ==> r[i].prio == ps[i].prio && (r[i].parent == ps[i].parent || (r[i].parent == INIT && ps[i].parent == who)))
  }

  /** No process disappears without its parent getting the exit code. */
  ghost predicate GoneAt(ps: Table, r: Table, who: int, c: int)
  {
    Live(ps, c) && r[c].state == Free ==> exists p :: Woken(ps, r, who, p, c)
  }

  ghost predicate Step(ps: Table, r: Table, who: int)
  {
    && (forall i {:trigger StepAt(ps, r, who, i)} :: IsPid(i) && i != who ==> StepAt(ps, r, who, i))
    && (forall c {:trigger GoneAt(ps, r, who, c)} :: GoneAt(ps, r, who, c))
  }

  /** Process c was recorded as collected, with the code it exited with. */
  ghost predicate LoggedAt(a: Past, b: Past, ps: Table, c: int)
    requires IsPid(c) && |a.serial| == NUM_PROCESSES
  {
    exists k :: |a.log| <= k < |b.log| && b.log[k].serial == a.serial[c] && b.log[k].code == ps[c].ctx.regs.ebx
  }

  /** The record only grows, and by every process that disappeared; a process keeps its number. */
  ghost predicate Logged(a: Past, b: Past, ps: Table, r: Table)
  {
    && |a.log| <= |b.log| && b.log[..|a.log|] == a.log && |a.serial| == NUM_PROCESSES == |b.serial|
    && (forall i :: Live(ps, i) ==> b.serial[i] == a.serial[i])
    && forall c {:trigger LoggedAt(a, b, ps, c)} :: Live(ps, c) && r[c].state == Free ==> LoggedAt(a, b, ps, c)
  }

  // ----- what a process finds in its registers -----

  /** The process goes on with 1 in eax, the child's pid in ebx and its exit code in ecx. */
  ghost predicate Told(a: Process, b: Process, child: int, code: int)
  {
    && b.state == Runnable && b.parent == a.parent && b.prio == a.prio && b.ctx.heap == a.ctx.heap && b.ctx.dir == a.ctx.dir
    && b.ctx.regs.eax == 1 && b.ctx.regs.ebx == child && b.ctx.regs.ecx == code && b.ctx.regs.others == a.ctx.regs.others
  }

  /** The call only answers: eax changes, and no other process. */
  ghost predicate Answered(ps: Table, r: Table, curr: int, eax: int)
    requires IsPid(curr)
  {
    var a, b := ps[curr], r[curr];
    && b.state == a.state && b.parent == a.parent && b.prio == a.prio && b.ctx.heap == a.ctx.heap && b.ctx.dir == a.ctx.dir
    && b.ctx.regs.eax == eax && b.ctx.regs.ebx == a.ctx.regs.ebx && b.ctx.regs.ecx == a.ctx.regs.ecx
    && b.ctx.regs.others == a.ctx.regs.others
    && forall i :: IsPid(i) && i != curr ==> r[i] == ps[i]
  }

  /** Process p has collected c, which exited with the code in its ebx. */
  ghost predicate CollectedBy(ps: Table, r: Table, p: int, c: int)
    requires IsPid(p) && IsPid(c)
  {
    && Told(ps[p], r[p], c, ps[c].ctx.regs.ebx) && r[c] == ps[c].(state := Free)
    && forall i :: IsPid(i) && i != p && i != c ==> r[i] == ps[i]
  }

  lemma ReapedMeans(ps: Table, p: int, c: int)
    requires IsPid(p) && IsPid(c) && p != c
    ensures CollectedBy(ps, Reaped(ps, p, c), p, c)
  {
  }

  /** Slot id is free, and none before it is. */
  ghost predicate FirstFree(ps: Table, id: int)
  {
    IsPid(id) && ps[id].state == Free && forall j :: 0 <= j < id ==> ps[j].state != Free
  }

  // ----- fork -----

  /** Process `id` as a copy of process `curr`. */
  function Forked(ps: Table, curr: int, id: int, dir: Directory): Table
    requires IsPid(curr) && IsPid(id)
  {
    var ctx := ps[curr].ctx;
    var child := Context(ctx.regs.(eax := 2, ebx := curr), ctx.heap, dir);
    WithContext(ps[id := Process(Runnable, curr, ctx.regs.ebx, child)], curr, ctx.(regs := ctx.regs.(eax := 1, ebx := id)))
  }

  function WithEax(ps: Table, i: int, eax: int): Table
    requires IsPid(i)
  {
    WithContext(ps, i, ps[i].ctx.(regs := ps[i].ctx.regs.(eax := eax)))
  }

  /** The least free slot from i on, NUM_PROCESSES if there is none. */
  function LeastFree(ps: Table, i: int): (id: int)
    requires 0 <= i <= NUM_PROCESSES
    ensures i <= id <= NUM_PROCESSES && (id < NUM_PROCESSES ==> ps[id].state == Free) && forall j :: i <= j < id ==> ps[j].state != Free
    decreases NUM_PROCESSES - i
  {
    if i == NUM_PROCESSES || ps[i].state == Free then i else LeastFree(ps, i + 1)
  }

  ghost predicate ForkDone(ps: Table, r: Table, curr: int, dir: Directory)
    requires IsPid(curr)
  {
    var id := LeastFree(ps, 0);
    r == if id == NUM_PROCESSES || ps[curr].ctx.regs.ebx > ps[curr].prio then WithEax(ps, curr, 0) else Forked(ps, curr, id, dir)
  }

  /** Child and parent differ in slot, directory and two registers: 1 and the child's pid here, 2 and the parent's there. */
  ghost predicate Twins(ps: Table, r: Table, curr: int, id: int, dir: Directory)
    requires IsPid(curr) && IsPid(id)
  {
    var a, b, c := ps[curr], r[curr], r[id];
    && b.state == a.state && b.parent == a.parent && b.prio == a.prio && b.ctx.heap == a.ctx.heap && b.ctx.dir == a.ctx.dir
    && b.ctx.regs.eax == 1 && b.ctx.regs.ebx == id && b.ctx.regs.ecx == a.ctx.regs.ecx && b.ctx.regs.others == a.ctx.regs.others
    && c.state == Runnable && c.parent == curr && c.prio == a.ctx.regs.ebx && c.ctx.heap == a.ctx.heap && c.ctx.dir == dir
    && c.ctx.regs.eax == 2 && c.ctx.regs.ebx == curr && c.ctx.regs.ecx == a.ctx.regs.ecx && c.ctx.regs.others == a.ctx.regs.others
    && forall i :: IsPid(i) && i != curr && i != id ==> r[i] == ps[i]
  }

  /** `fork` as its caller knows it: 0, if no slot is free or the child would outrank it, or a twin in the first free slot. */
  ghost predicate ForkMeans(ps: Table, r: Table, curr: int, dir: Directory)
    requires IsPid(curr)
  {
    if (forall i :: IsPid(i) ==> ps[i].state != Free) || ps[curr].ctx.regs.ebx > ps[curr].prio then Answered(ps, r, curr, 0)
    else exists id :: FirstFree(ps, id) && Twins(ps, r, curr, id, dir)
  }

  lemma ForkIs(ps: Table, r: Table, curr: int, dir: Directory)
    requires IsPid(curr) && ps[curr].state != Free
    ensures ForkDone(ps, r, curr, dir) <==> ForkMeans(ps, r, curr, dir)
  {
    var id := LeastFree(ps, 0);
    if Answered(ps, r, curr, 0) { assert r == WithEax(ps, curr, 0); }
    if id < NUM_PROCESSES {
      assert FirstFree(ps, id) && forall j :: FirstFree(ps, j) ==> j == id;
      TwinsAre(ps, r, curr, id, dir);
    }
  }

  /** Process id enters one of the runqueues, at the back. */
  ghost predicate Joins(qs: seq<seq<int>>, qs': seq<seq<int>>, prio: int, id: int)
  {
    0 <= prio < |qs| && qs' == qs[prio := qs[prio] + [id]]
  }

  /** The child, if there is one, enters the runqueue of its priority. */
  ghost predicate ForkQueues(ps: Table, qs: seq<seq<int>>, qs': seq<seq<int>>, curr: int)
    requires IsPid(curr)
  {
    if (forall i :: IsPid(i) ==> ps[i].state != Free) || ps[curr].ctx.regs.ebx > ps[curr].prio then qs' == qs
    else exists id :: FirstFree(ps, id) && Joins(qs, qs', ps[curr].ctx.regs.ebx, id)
  }

  lemma ForkQueuesAre(ps: Table, qs: seq<seq<int>>, qs': seq<seq<int>>, curr: int)
    requires IsPid(curr)
    requires var id, prio := LeastFree(ps, 0), ps[curr].ctx.regs.ebx;
             if id == NUM_PROCESSES || prio > ps[curr].prio then qs' == qs else Joins(qs, qs', prio, id)
    ensures ForkQueues(ps, qs, qs', curr)
  {
    var id := LeastFree(ps, 0);
    if id < NUM_PROCESSES { assert FirstFree(ps, id); }
  }

  lemma TwinsAre(ps: Table, r: Table, curr: int, id: int, dir: Directory)
    requires IsPid(curr) && IsPid(id) && curr != id
    ensures Twins(ps, r, curr, id, dir) <==> r == Forked(ps, curr, id, dir)
  {
    if Twins(ps, r, curr, id, dir) { assert r == Forked(ps, curr, id, dir); }
  }

  lemma OnlySelf(ps: Table, r: Table, who: int)
    requires forall i :: IsPid(i) && i != who && Live(ps, i) ==> r[i] == ps[i]
    requires IsPid(who) && r[who].state != Free
    ensures Step(ps, r, who)
  {
    forall i | IsPid(i) && i != who ensures StepAt(ps, r, who, i) {}
    forall c ensures GoneAt(ps, r, who, c) {}
  }

  // ----- wait -----

  /** Any slot that names id as its parent, in use or not. */
  predicate Named(ps: Table, id: int)
  {
    exists i :: 0 <= i < NUM_PROCESSES && ps[i].parent == id
  }

  predicate ZombieChild(ps: Table, id: int, c: int)
  {
    IsPid(c) && ps[c].parent == id && ps[c].state == Zombie
  }

  ghost predicate WaitDone(ps: Table, r: Table, curr: int)
    requires IsPid(curr)
  {
    if exists c :: ZombieChild(ps, curr, c) then
      exists c :: ZombieChild(ps, curr, c) && (forall i :: 0 <= i < c ==> !ZombieChild(ps, curr, i)) && r == Reaped(ps, curr, c)
    else
      r == if Named(ps, curr) then WithState(ps, curr, Waiting) else WithEax(ps, curr, 0)
  }

  /** `wait` as its caller knows it: the first Zombie among the slots that name it, or a wait for one, or 0 if no slot names it. */
  ghost predicate WaitMeans(ps: Table, r: Table, curr: int)
    requires IsPid(curr)
  {
    if exists c :: IsPid(c) && ps[c].parent == curr && ps[c].state == Zombie then
      exists c :: IsPid(c) && ps[c].parent == curr && ps[c].state == Zombie && CollectedBy(ps, r, curr, c)
                  && forall i :: 0 <= i < c ==> !(ps[i].parent == curr && ps[i].state == Zombie)
    else if exists i :: IsPid(i) && ps[i].parent == curr then
      r[curr] == ps[curr].(state := Waiting) && forall i :: IsPid(i) && i != curr ==> r[i] == ps[i]
    else Answered(ps, r, curr, 0)
  }

  lemma WaitIs(ps: Table, r: Table, curr: int)
    requires IsPid(curr) && ps[curr].state == Runnable && WaitDone(ps, r, curr)
    ensures WaitMeans(ps, r, curr)
  {
    if exists c :: ZombieChild(ps, curr, c) {
      var c :| ZombieChild(ps, curr, c) && (forall i :: 0 <= i < c ==> !ZombieChild(ps, curr, i)) && r == Reaped(ps, curr, c);
      ReapedMeans(ps, curr, c);
      forall i | 0 <= i < c ensures !(ps[i].parent == curr && ps[i].state == Zombie) { assert !ZombieChild(ps, curr, i); }
    } else {
      forall c | IsPid(c) ensures !(ps[c].parent == curr && ps[c].state == Zombie) { assert !ZombieChild(ps, curr, c); }
    }
  }

  lemma ReapedStep(ps: Table, curr: int, c: int)
    requires IsPid(curr) && ps[curr].state == Runnable && ZombieChild(ps, curr, c)
    ensures Step(ps, Reaped(ps, curr, c), curr)
  {
    var r := Reaped(ps, curr, c);
    assert Woken(ps, r, curr, curr, c);
    forall i | IsPid(i) && i != curr ensures StepAt(ps, r, curr, i) {}
    forall d ensures GoneAt(ps, r, curr, d) {}
  }

  lemma WaitStep(ps: Table, r: Table, curr: int)
    requires IsPid(curr) && ps[curr].state == Runnable && WaitDone(ps, r, curr)
    ensures Step(ps, r, curr)
  {
    if exists c :: ZombieChild(ps, curr, c) {
      var c :| ZombieChild(ps, curr, c) && r == Reaped(ps, curr, c);
      ReapedStep(ps, curr, c);
    } else {
      OnlySelf(ps, r, curr);
    }
  }

  /** init names itself, so `wait` never tells it that it has no children. */
  lemma InitAlwaysWaits(ps: Table, qs: seq<seq<int>>, past: Past, r: Table)
    requires Good(ps, qs, past, -1) && ps[INIT].state == Runnable && WaitDone(ps, r, INIT)
    requires forall c :: !ZombieChild(ps, INIT, c)
    ensures r[INIT].state == Waiting
  {
    assert FamilyAt(ps, past.depth, -1, INIT);
    assert ps[INIT].parent == INIT;
  }

  /** The slot of a child collected by wait goes on naming its parent, so the next wait blocks even without children. */
  lemma CollectedStillCounts(ps: Table, r: Table, s: Table, curr: int)
    requires IsPid(curr) && ps[curr].state == Runnable && WaitDone(ps, r, curr) && WaitDone(r, s, curr)
    requires (exists c :: ZombieChild(ps, curr, c)) && forall c :: !ZombieChild(r, curr, c)
    ensures s[curr].state == Waiting
  {
    var c :| ZombieChild(ps, curr, c) && r == Reaped(ps, curr, c);
    assert r[c].parent == curr;
  }

  /** `wait` answers "no children" exactly when no slot, free or not, names the caller. */
  lemma WaitReturnsZero(ps: Table, r: Table, curr: int)
    requires IsPid(curr) && ps[curr].state == Runnable && ps[curr].ctx.regs.eax != 0 && WaitDone(ps, r, curr)
    ensures r[curr].state == Runnable && r[curr].ctx.regs.eax == 0 <==> !Named(ps, curr)
  {
    if exists c :: ZombieChild(ps, curr, c) {
      var c :| ZombieChild(ps, curr, c) && r == Reaped(ps, curr, c);
      assert ps[c].parent == curr;
    }
  }

  // ----- exit -----

  /** Slot i after the exiting process handed its first k slots' children to init, who collected z (unless z is -1). */
  function HandedAt(b: Table, id: int, k: int, z: int, i: int): Process
    requires IsPid(i) && -1 <= z < NUM_PROCESSES
  {
    var p := if i < k && b[i].parent == id then b[i].(parent := INIT) else b[i];
    if i == z then p.(state := Free)
    else if i == INIT && z >= 0 then p.(state := Runnable, ctx := WaitResult(p.ctx, z, b[z].ctx.regs.ebx))
    else p
  }

  function Handed(b: Table, id: int, k: int, z: int): Table
    requires -1 <= z < NUM_PROCESSES
  {
    seq(NUM_PROCESSES, i requires 0 <= i < NUM_PROCESSES => HandedAt(b, id, k, z, i))
  }

  /** z is the first Zombie child among the first k slots if init waits, and -1 otherwise. */
  predicate Collects(b: Table, id: int, k: int, z: int)
  {
    && -1 <= z < NUM_PROCESSES && z < k
    && (z >= 0 ==> ZombieChild(b, id, z) && z != INIT && b[INIT].state == Waiting)
    && forall i :: 0 <= i < (if z < 0 then k else z) && b[INIT].state == Waiting ==> !ZombieChild(b, id, i)
  }

  /** The table after `exit`: children handed to init, then the parent told if it waits. */
  function Exited(ps: Table, id: int, z: int): Table
    requires IsPid(id) && -1 <= z < NUM_PROCESSES
  {
    var t := Handed(WithState(ps, id, Zombie), id, NUM_PROCESSES, z);
    var p := t[id].parent;
    if IsPid(p) && t[p].state == Waiting then Reaped(t, p, id) else t
  }

  ghost predicate ExitDone(ps: Table, r: Table, id: int)
    requires IsPid(id)
  {
    exists z :: Collects(WithState(ps, id, Zombie), id, NUM_PROCESSES, z) && r == Exited(ps, id, z)
  }

  /** Slot i after the exit of process id, whose Zombie child z init collects (unless z is -1) and whose parent is told or not. */
  ghost predicate ExitSlot(ps: Table, r: Table, id: int, z: int, told: bool, i: int)
    requires IsPid(i) && IsPid(id) && -1 <= z < NUM_PROCESSES
  {
    if i == id then r[i] == ps[i].(state := if told then Free else Zombie)
    else
      var a := if ps[i].parent == id then ps[i].(parent := INIT) else ps[i];
      if i == z then r[i] == a.(state := Free)
      else if z >= 0 && i == INIT then Told(a, r[i], z, ps[z].ctx.regs.ebx)
      else if told && i == ps[id].parent then Told(a, r[i], id, ps[id].ctx.regs.ebx)
      else r[i] == a
  }

  /**
   * `exit` as everybody knows it: the children go to init, who, if it waits, collects the first Zombie among them; then
   * a parent that still waits collects the caller, who is a Zombie otherwise.
   */
  ghost predicate ExitMeans(ps: Table, r: Table, id: int)
    requires IsPid(id)
  {
    exists z {:trigger Orphan(ps, id, z)} :: Orphan(ps, id, z) &&
      var told := IsPid(ps[id].parent) && ps[ps[id].parent].state == Waiting && !(ps[id].parent == INIT && z >= 0);
      forall i {:trigger ExitSlot(ps, r, id, z, told, i)} :: IsPid(i) ==> ExitSlot(ps, r, id, z, told, i)
  }

  /** z is the first Zombie child of process id, if init waits and there is one; otherwise -1. */
  ghost predicate Orphan(ps: Table, id: int, z: int)
  {
    if z == -1 then ps[INIT].state == Waiting ==> forall i :: IsPid(i) && ps[i].parent == id ==> ps[i].state != Zombie
    else
      && IsPid(z) && ps[INIT].state == Waiting && ps[z].parent == id && ps[z].state == Zombie
      && forall i :: 0 <= i < z && ps[i].parent == id ==> ps[i].state != Zombie
  }

  lemma ExitSlotIs(ps: Table, id: int, z: int, told: bool, i: int)
    requires IsPid(id) && ps[id].state == Runnable && !IsRoot(id) && ps[id].parent != id && ps[INIT].parent == INIT
    requires Collects(WithState(ps, id, Zombie), id, NUM_PROCESSES, z) && IsPid(i)
    requires told == (IsPid(ps[id].parent) && ps[ps[id].parent].state == Waiting && !(ps[id].parent == INIT && z >= 0))
    ensures ExitSlot(ps, Exited(ps, id, z), id, z, told, i)
  {
    var b := WithState(ps, id, Zombie);
    var t, p := Handed(b, id, NUM_PROCESSES, z), ps[id].parent;
    assert t[i] == HandedAt(b, id, NUM_PROCESSES, z, i) && t[id] == HandedAt(b, id, NUM_PROCESSES, z, id);
    if IsPid(p) { assert t[p] == HandedAt(b, id, NUM_PROCESSES, z, p); }
  }

  lemma ExitIs(ps: Table, r: Table, id: int)
    requires IsPid(id) && ps[id].state == Runnable && !IsRoot(id) && ps[id].parent != id && ps[INIT].parent == INIT && ExitDone(ps, r, id)
    ensures ExitMeans(ps, r, id)
  {
    var b := WithState(ps, id, Zombie);
    var z :| Collects(b, id, NUM_PROCESSES, z) && r == Exited(ps, id, z);
    forall i | IsPid(i) && i != id ensures b[i] == ps[i] {}
    forall i | IsPid(i) && b[INIT].state == Waiting && (z < 0 || i < z) ensures !(ps[i].parent == id && ps[i].state == Zombie) {
      assert !ZombieChild(b, id, i);
    }
    assert Orphan(ps, id, z);
    var told := IsPid(ps[id].parent) && ps[ps[id].parent].state == Waiting && !(ps[id].parent == INIT && z >= 0);
    forall i | IsPid(i) ensures ExitSlot(ps, r, id, z, told, i) { ExitSlotIs(ps, id, z, told, i); }
  }

  /** An exit takes away no process but the caller and the orphan that init collects. */
  lemma ExitLogged(a: Past, b: Past, ps: Table, id: int, z: int)
    requires IsPid(id) && |a.serial| == NUM_PROCESSES == |a.code| && Collects(WithState(ps, id, Zombie), id, NUM_PROCESSES, z)
    requires b.serial == a.serial
    requires ps[id].state == Runnable && ps[id].parent != id && !IsRoot(id) && ps[INIT].state != Free
    requires forall i :: IsPid(i) && ps[i].state == Zombie ==> a.code[i] == ps[i].ctx.regs.ebx
    requires var t := Handed(WithState(ps, id, Zombie), id, NUM_PROCESSES, z);
             b.log == ExitLog(a, ps, id, z, IsPid(t[id].parent) && t[t[id].parent].state == Waiting)
    ensures Logged(a, b, ps, Exited(ps, id, z))
  {
    var b1 := WithState(ps, id, Zombie);
    var t := Handed(b1, id, NUM_PROCESSES, z);
    var r := Exited(ps, id, z);
    forall c | Live(ps, c) && r[c].state == Free ensures LoggedAt(a, b, ps, c) {
      assert t[c] == HandedAt(b1, id, NUM_PROCESSES, z, c);
      assert c == z || c == id;
      var k := if c == z then |a.log| else |b.log| - 1;
      assert b.log[k].serial == a.serial[c] && b.log[k].code == ps[c].ctx.regs.ebx;
    }
  }

  /** The record after an exit: the orphan z, if there is one, then the caller, if its parent waits. */
  ghost function ExitLog(a: Past, ps: Table, id: int, z: int, told: bool): seq<Reaping>
    requires IsPid(id) && -1 <= z < NUM_PROCESSES && |a.serial| == NUM_PROCESSES == |a.code|
  {
    OrphanLog(a, z) + if told then [Reaping(a.serial[id], ps[id].parent, ps[id].ctx.regs.ebx)] else []
  }

  ghost function OrphanLog(a: Past, z: int): seq<Reaping>
    requires -1 <= z < NUM_PROCESSES && |a.serial| == NUM_PROCESSES == |a.code|
  {
    a.log + if z >= 0 then [Reaping(a.serial[z], INIT, a.code[z])] else []
  }

  lemma ExitStepAt(ps: Table, id: int, z: int, i: int)
    requires IsPid(id) && ps[id].state == Runnable && !IsRoot(id) && ps[id].parent != id && ps[INIT].parent == INIT
    requires Collects(WithState(ps, id, Zombie), id, NUM_PROCESSES, z) && IsPid(i) && i != id
    ensures StepAt(ps, Exited(ps, id, z), id, i)
  {
    var b := WithState(ps, id, Zombie);
    var t, r := Handed(b, id, NUM_PROCESSES, z), Exited(ps, id, z);
    assert t[i] == HandedAt(b, id, NUM_PROCESSES, z, i) && t[id] == HandedAt(b, id, NUM_PROCESSES, z, id);
    if z >= 0 && i == INIT { assert Woken(ps, r, id, INIT, z); }
    if t[id].parent == i && t[i].state == Waiting { assert Woken(ps, r, id, i, id); }
  }

  lemma ExitGoneAt(ps: Table, id: int, z: int, c: int)
    requires IsPid(id) && ps[id].state == Runnable && !IsRoot(id) && ps[id].parent != id && ps[INIT].state != Free
    requires Collects(WithState(ps, id, Zombie), id, NUM_PROCESSES, z)
    ensures GoneAt(ps, Exited(ps, id, z), id, c)
  {
    var b := WithState(ps, id, Zombie);
    var t, r := Handed(b, id, NUM_PROCESSES, z), Exited(ps, id, z);
    assert t[id] == HandedAt(b, id, NUM_PROCESSES, z, id);
    if Live(ps, c) && r[c].state == Free {
      assert t[c] == HandedAt(b, id, NUM_PROCESSES, z, c);
      if c == z { assert Woken(ps, r, id, INIT, z); } else { assert Woken(ps, r, id, t[id].parent, id); }
    }
  }

  lemma ExitStep(ps: Table, r: Table, id: int)
    requires IsPid(id) && ps[id].state == Runnable && !IsRoot(id) && ps[id].parent != id && ExitDone(ps, r, id)
    requires ps[INIT].parent == INIT && ps[INIT].state != Free
    ensures Step(ps, r, id)
  {
    var z :| Collects(WithState(ps, id, Zombie), id, NUM_PROCESSES, z) && r == Exited(ps, id, z);
    forall i | IsPid(i) && i != id ensures StepAt(ps, r, id, i) { ExitStepAt(ps, id, z, i); }
    forall c ensures GoneAt(ps, r, id, c) { ExitGoneAt(ps, id, z, c); }
  }
}
