/** Choosing the next process (select_new_process in src/scheduler.c). */
module Scheduling {
  import opened Queue
  import opened Sequences

  const MAX_PRIORITY := 15

  /** Which processes are Runnable, by pid. */
  type Runnables = seq<bool>

  predicate Pids(q: seq<int>, run: Runnables)
  {
    forall i :: 0 <= i < |q| ==> 0 <= q[i] < |run|
  }

  /** The position of the first runnable process, |q| if there is none. */
  function First(q: seq<int>, run: Runnables): (k: nat)
    requires Pids(q, run)
    ensures k <= |q| && (k < |q| ==> run[q[k]]) && forall i :: 0 <= i < k ==> !run[q[i]]
  {
    if q == [] || run[q[0]] then 0 else 1 + First(q[1..], run)
  }

  /** The queue with its first k elements moved to the back. */
  function Rotate(q: seq<int>, k: int): seq<int>
    requires 0 <= k <= |q|
  {
    q[k..] + q[..k]
  }

  /** What one round of the search leaves of a queue: the chosen process, and all before it, go to the back. */
  function AfterSearch(q: seq<int>, run: Runnables): seq<int>
    requires Pids(q, run)
  {
    var k := First(q, run);
    if k < |q| then Rotate(q, k + 1) else q
  }

  /** Two queues that share nothing. */
  ghost predicate Separate(q: Queue, t: Queue)
    reads q, q.repr, t, t.repr
  {
    q.Valid() && t.Valid() && q.repr !! t.repr
  }

  /** `enqueue(to, dequeue(from))` */
  method Shift(from: Queue, to: Queue) returns (pid: int)
    requires Separate(from, to) && from.Contents() != []
    modifies from.repr, to.repr
    ensures Separate(from, to) && from.Contents() == old(from.Contents())[1..] && to.Contents() == old(to.Contents()) + [pid]
    ensures pid == old(from.Contents())[0]
    ensures from.repr == old(from.repr) && fresh(to.repr - old(to.repr))
  {
    pid := from.Dequeue();
    to.Enqueue(pid);
  }

  lemma OneMore(all: seq<int>, k: int)
    requires 0 <= k < |all|
    ensures all[k..] != [] && all[k..][0] == all[k] && all[k..][1..] == all[k + 1..] && all[..k] + [all[k]] == all[..k + 1]
  {
  }

  /** The search after k steps: `rest` is left, `moved` was taken out, and its last element is `pid` once one was found. */
  ghost predicate Drained(all: seq<int>, run: Runnables, k: int, found: bool, pid: int, rest: seq<int>, moved: seq<int>)
    requires Pids(all, run)
  {
    && 0 <= k <= |all| && rest == all[k..] && moved == all[..k]
    && if found then k == First(all, run) + 1 && pid == all[First(all, run)] else k <= First(all, run)
  }

  lemma DrainStep(all: seq<int>, run: Runnables, k: int, pid: int, rest: seq<int>, moved: seq<int>)
    requires Pids(all, run) && Drained(all, run, k, false, 0, rest, moved) && rest != [] && pid == rest[0]
    ensures 0 <= pid < |run| && Drained(all, run, k + 1, run[pid], if run[pid] then pid else 0, rest[1..], moved + [pid])
  {
    OneMore(all, k);
  }

  /** The first inner loop: everything up to the first runnable process moves to `temp`. */
  method Drain(q: Queue, temp: Queue, run: Runnables) returns (found: bool, pid: int)
    requires Separate(q, temp) && temp.Contents() == [] && Pids(q.Contents(), run)
    modifies q.repr, temp.repr
    ensures Separate(q, temp)
    ensures fresh(q.repr - old(q.repr)) && fresh(temp.repr - old(temp.repr))
    ensures var all := old(q.Contents());
            Drained(all, run, First(all, run) + if found then 1 else 0, found, pid, q.Contents(), temp.Contents())
    ensures !found ==> temp.Contents() == old(q.Contents())
  {
    ghost var all := q.Contents();
    ghost var k := 0;
    found, pid := false, 0;
    var empty := q.IsEmpty();
    while !empty && !found
      invariant Separate(q, temp) && fresh(q.repr - old(q.repr)) && fresh(temp.repr - old(temp.repr))
      invariant Drained(all, run, k, found, pid, q.Contents(), temp.Contents())
      invariant (empty <==> k == |all|) && (!found ==> pid == 0)
      decreases |all| - k
    {
      ghost var rest, moved := q.Contents(), temp.Contents();
      var p := Shift(q, temp);
      DrainStep(all, run, k, p, rest, moved);
      if run[p] {
        found := true;
        pid := p;
      }
      k := k + 1;
      empty := q.IsEmpty();
    }
  }

  /** After k steps, `front` has the first k elements of `rest` behind it. */
  ghost predicate Restored(all: seq<int>, rest: seq<int>, k: int, front: seq<int>, back: seq<int>)
  {
    0 <= k <= |rest| && back == rest[k..] && front == all + rest[..k]
  }

  lemma RestoreStep(all: seq<int>, rest: seq<int>, k: int, front: seq<int>, back: seq<int>)
    requires Restored(all, rest, k, front, back) && back != []
    ensures Restored(all, rest, k + 1, front + [back[0]], back[1..])
  {
    OneMore(rest, k);
    assert all + rest[..k + 1] == all + rest[..k] + [rest[k]];
  }

  /** The second inner loop: what was taken out goes to the back. */
  method Restore(q: Queue, temp: Queue)
    requires Separate(q, temp)
    modifies q.repr, temp.repr
    ensures Separate(q, temp) && q.Contents() == old(q.Contents()) + old(temp.Contents()) && temp.Contents() == []
    ensures fresh(q.repr - old(q.repr)) && fresh(temp.repr - old(temp.repr))
  {
    ghost var all, rest := q.Contents(), temp.Contents();
    ghost var k := 0;
    var empty := temp.IsEmpty();
    while !empty
      invariant Separate(q, temp) && Restored(all, rest, k, q.Contents(), temp.Contents())
      invariant fresh(q.repr - old(q.repr)) && fresh(temp.repr - old(temp.repr))
      invariant empty <==> k == |rest|
      decreases |rest| - k
    {
      RestoreStep(all, rest, k, q.Contents(), temp.Contents());
      var pid := Shift(temp, q);
      k := k + 1;
      empty := temp.IsEmpty();
    }
  }

  /** One search: which process was found, and what it leaves of the queue. */
  ghost predicate Turned(all: seq<int>, run: Runnables, found: bool, pid: int, after: seq<int>)
    requires Pids(all, run)
  {
    && after == AfterSearch(all, run) && (found <==> First(all, run) < |all|)
    && (found ==> pid == all[First(all, run)])
  }

  lemma SearchRotates(all: seq<int>, run: Runnables, found: bool, pid: int, rest: seq<int>, moved: seq<int>)
    requires Pids(all, run) && Drained(all, run, First(all, run) + if found then 1 else 0, found, pid, rest, moved)
    requires !found ==> moved == all
    ensures Turned(all, run, found, pid, rest + moved)
  {
  }

  /** Both inner loops, with an empty queue for what is taken out. */
  method Turn(q: Queue, temp: Queue, run: Runnables) returns (found: bool, pid: int)
    requires Separate(q, temp) && temp.Contents() == [] && Pids(q.Contents(), run)
    modifies q.repr, temp.repr
    ensures q.Valid() && fresh(q.repr - old(q.repr)) && Turned(old(q.Contents()), run, found, pid, q.Contents())
  {
    ghost var all := q.Contents();
    found, pid := Drain(q, temp, run);
    SearchRotates(all, run, found, pid, q.Contents(), temp.Contents());
    Restore(q, temp);
  }

  /** Both inner loops of `select_new_process` on one runqueue, on the linked lists themselves. */
  method SearchQueue(q: Queue, run: Runnables) returns (found: bool, pid: int)
    requires q.Valid() && Pids(q.Contents(), run)
    modifies q.repr
    ensures q.Valid() && fresh(q.repr - old(q.repr)) && Turned(old(q.Contents()), run, found, pid, q.Contents())
  {
    var temp := new Queue();
    found, pid := Turn(q, temp, run);
  }

  // ----- all priorities -----

  predicate AllPids(qs: seq<seq<int>>, run: Runnables)
  {
    forall i :: 0 <= i < |qs| ==> Pids(qs[i], run)
  }

  predicate HasRunnable(q: seq<int>, run: Runnables)
    requires Pids(q, run)
  {
    First(q, run) < |q|
  }

  /** The highest of the first n priorities with a runnable process, -1 if there is none. */
  function Top(qs: seq<seq<int>>, run: Runnables, n: int): (t: int)
    requires 0 <= n <= |qs| && AllPids(qs, run)
    ensures -1 <= t < n && (0 <= t ==> HasRunnable(qs[t], run)) && forall i :: t < i < n ==> !HasRunnable(qs[i], run)
  {
    if n == 0 then -1 else if HasRunnable(qs[n - 1], run) then n - 1 else Top(qs, run, n - 1)
  }

  /** The runqueues after one selection: only the queue of the chosen process turned. */
  function AfterSelect(qs: seq<seq<int>>, run: Runnables): seq<seq<int>>
    requires AllPids(qs, run)
  {
    var t := Top(qs, run, |qs|);
    if t < 0 then qs else qs[t := AfterSearch(qs[t], run)]
  }

  /** The chosen process. */
  function Chosen(qs: seq<seq<int>>, run: Runnables, curr: int): int
    requires AllPids(qs, run)
  {
    var t := Top(qs, run, |qs|);
    if t < 0 then curr else qs[t][First(qs[t], run)]
  }

  lemma TopIs(qs: seq<seq<int>>, run: Runnables, t: int)
    requires AllPids(qs, run) && -1 <= t < |qs| && (0 <= t ==> HasRunnable(qs[t], run))
    requires forall i :: t < i < |qs| ==> !HasRunnable(qs[i], run)
    ensures Top(qs, run, |qs|) == t
  {
    if t >= 0 { assert HasRunnable(qs[t], run); }
  }

  /**
   * The process at place i of queue t is runnable, none before it in its queue or in a queue of higher priority is; it and
   * those before it go to the back of their queue.
   */
  ghost predicate PickedAt(qs: seq<seq<int>>, run: Runnables, pid: int, qs': seq<seq<int>>, t: int, i: int)
    requires AllPids(qs, run)
  {
    && 0 <= t < |qs| && 0 <= i < |qs[t]| && qs[t][i] == pid && run[pid]
    && (forall j :: 0 <= j < i ==> !run[qs[t][j]])
    && (forall u, j :: t < u < |qs| && 0 <= j < |qs[u]| ==> !run[qs[u][j]])
    && qs' == qs[t := qs[t][i + 1..] + qs[t][..i + 1]]
  }

  /** `select_new_process` without the search: that process, or the current one if none is runnable. */
  ghost predicate Picked(qs: seq<seq<int>>, run: Runnables, curr: int, pid: int, qs': seq<seq<int>>)
    requires AllPids(qs, run)
  {
    if forall u, j :: 0 <= u < |qs| && 0 <= j < |qs[u]| ==> !run[qs[u][j]] then pid == curr && qs' == qs
    else exists t, i :: PickedAt(qs, run, pid, qs', t, i)
  }

  lemma NoneRunnable(q: seq<int>, run: Runnables)
    requires Pids(q, run)
    ensures HasRunnable(q, run) <==> exists j :: 0 <= j < |q| && run[q[j]]
  {
    if HasRunnable(q, run) { assert run[q[First(q, run)]]; }
  }

  lemma ChosenIsPicked(qs: seq<seq<int>>, run: Runnables, curr: int)
    requires AllPids(qs, run)
    ensures Picked(qs, run, curr, Chosen(qs, run, curr), AfterSelect(qs, run))
  {
    var t := Top(qs, run, |qs|);
    forall u | 0 <= u < |qs| ensures HasRunnable(qs[u], run) <==> exists j :: 0 <= j < |qs[u]| && run[qs[u][j]] { NoneRunnable(qs[u], run); }
    if t >= 0 {
      var i := First(qs[t], run);
      assert HasRunnable(qs[t], run) && run[qs[t][i]];
      assert PickedAt(qs, run, qs[t][i], AfterSelect(qs, run), t, i);
    }
  }

  /** All priorities above prio hold no runnable process, except that prio + 1 may just have been found to. */
  ghost predicate Searched(qs: seq<seq<int>>, view: seq<seq<int>>, run: Runnables, curr: int, prio: int, found: bool, pid: int)
    requires AllPids(qs, run)
  {
    && -1 <= prio < |qs|
    && (forall i :: prio + (if found then 1 else 0) < i < |qs| ==> !HasRunnable(qs[i], run))
    && if found then
         var t := prio + 1;
         t < |qs| && HasRunnable(qs[t], run) && pid == qs[t][First(qs[t], run)] && view == qs[t := AfterSearch(qs[t], run)]
       else pid == curr && view == qs
  }

  lemma SearchStep(qs: seq<seq<int>>, run: Runnables, curr: int, prio: int, found: bool, pid: int)
    requires AllPids(qs, run) && 0 <= prio && Searched(qs, qs, run, curr, prio, false, curr)
    requires found == HasRunnable(qs[prio], run) && pid == if found then qs[prio][First(qs[prio], run)] else curr
    ensures Searched(qs, qs[prio := AfterSearch(qs[prio], run)], run, curr, prio - 1, found, pid)
  {
  }

  lemma SearchDone(qs: seq<seq<int>>, view: seq<seq<int>>, run: Runnables, curr: int, prio: int, found: bool, pid: int)
    requires AllPids(qs, run) && Searched(qs, view, run, curr, prio, found, pid) && (prio == -1 || found)
    ensures view == AfterSelect(qs, run) && pid == Chosen(qs, run, curr)
  {
    TopIs(qs, run, if found then prio + 1 else -1);
  }

  /** One process goes to the other queue, unless it is the child. */
  method Pass(q: Queue, temp: Queue, child: int)
    requires Separate(q, temp) && q.Contents() != []
    modifies q.repr, temp.repr
    ensures Separate(q, temp) && q.repr == old(q.repr) && fresh(temp.repr - old(temp.repr))
    ensures q.Contents() == old(q.Contents())[1..]
    ensures temp.Contents() == old(temp.Contents()) + if old(q.Contents())[0] == child then [] else [old(q.Contents())[0]]
  {
    var pid := q.Dequeue();
    if pid != child {
      temp.Enqueue(pid);
    }
  }

  method FilterQueue(q: Queue, child: int) returns (temp: Queue)
    requires q.Valid()
    modifies q.repr
    ensures fresh(temp.repr) && temp.Valid() && temp.Contents() == Except(old(q.Contents()), child)
  {
    ghost var all := q.Contents();
    ghost var k := 0;
    temp := new Queue();
    var empty := q.IsEmpty();
    while !empty
      invariant Separate(q, temp) && fresh(temp.repr) && q.repr == old(q.repr)
      invariant 0 <= k <= |all| && q.Contents() == all[k..] && temp.Contents() == Except(all[..k], child)
      invariant empty <==> k == |all|
      decreases |all| - k
    {
      ExceptStep(all, k, child);
      Pass(q, temp, child);
      k := k + 1;
      empty := q.IsEmpty();
    }
    assert all[..k] == all;
  }

  lemma ExceptStep(all: seq<int>, k: int, x: int)
    requires 0 <= k < |all|
    ensures Except(all[..k + 1], x) == Except(all[..k], x) + if all[k] == x then [] else [all[k]]
  {
    assert all[..k] + [all[k]] == all[..k + 1];
    ExceptBack(all[..k], all[k], x);
  }

  /** One linked queue per priority, sharing no node. */
  class RunQueues {
    var queues: seq<Queue>        // by priority
    ghost var repr: set<object>

    ghost predicate Valid()
      reads this, repr
    {
      && this in repr
      && (forall i :: 0 <= i < |queues| ==> queues[i] in repr && queues[i].repr <= repr && this !in queues[i].repr && queues[i].Valid())
      && (forall i, j :: 0 <= i < j < |queues| ==> queues[i].repr !! queues[j].repr)
    }

    /** The pids in each queue, by priority. */
    ghost function Contents(): seq<seq<int>>
      requires Valid()
      reads this, repr
    {
      seq(|queues|, i requires 0 <= i < |queues| && Valid() reads this, repr => queues[i].Contents())
    }

    constructor (n: nat)
      ensures Valid() && fresh(repr) && |queues| == n && Contents() == seq(n, _ => [])
    {
      var qs: seq<Queue> := [];
      ghost var r: set<object> := {};
      while |qs| < n
        invariant |qs| <= n && fresh(r)
        invariant forall i :: 0 <= i < |qs| ==> qs[i] in r && qs[i].repr <= r && qs[i].Valid() && qs[i].Contents() == []
        invariant forall i, j :: 0 <= i < j < |qs| ==> qs[i].repr !! qs[j].repr
      {
        var q := new Queue();
        qs := qs + [q];
        r := r + q.repr;
      }
      queues := qs;
      repr := r + {this};
    }

    /** A process enters the runqueue of its priority. */
    method Add(prio: int, pid: int)
      requires Valid() && 0 <= prio < |queues|
      modifies repr
      ensures Valid() && fresh(repr - old(repr)) && queues == old(queues)
      ensures Contents() == old(Contents())[prio := old(Contents())[prio] + [pid]]
    {
      assert Contents()[prio] == queues[prio].Contents();
      queues[prio].Enqueue(pid);
      repr := repr + queues[prio].repr;
    }

    /** The loop of `resolve_exit_wait`: a new queue without one process replaces the old one. */
    method Remove(prio: int, child: int)
      requires Valid() && 0 <= prio < |queues|
      modifies repr
      ensures Valid() && fresh(repr - old(repr)) && |queues| == |old(queues)|
      ensures Contents() == old(Contents())[prio := Except(old(Contents())[prio], child)]
    {
      assert Contents()[prio] == queues[prio].Contents();
      var temp := FilterQueue(queues[prio], child);
      queues := queues[prio := temp];
      repr := repr + temp.repr;
    }

    /** The search in one of the runqueues leaves the others alone. */
    method SearchAt(prio: int, run: Runnables) returns (found: bool, pid: int)
      requires Valid() && 0 <= prio < |queues| && AllPids(Contents(), run)
      modifies repr
      ensures Valid() && fresh(repr - old(repr))
      ensures Contents() == old(Contents())[prio := AfterSearch(old(Contents())[prio], run)]
      ensures found <==> HasRunnable(old(Contents())[prio], run)
      ensures found ==> pid == old(Contents())[prio][First(old(Contents())[prio], run)]
    {
      ghost var was := Contents();
      assert was[prio] == queues[prio].Contents();
      found, pid := SearchQueue(queues[prio], run);
      assert forall i :: 0 <= i < |queues| && i != prio ==> queues[i].Contents() == was[i];
      repr := repr + queues[prio].repr;
    }

    /** `select_new_process`: the first runnable process of the highest priority that has one; only its queue turns. */
    method SelectNewProcess(run: Runnables, curr: int) returns (pid: int)
      requires Valid() && AllPids(Contents(), run)
      modifies repr
      ensures Valid() && fresh(repr - old(repr))
      ensures Contents() == AfterSelect(old(Contents()), run) && pid == Chosen(old(Contents()), run, curr)
      ensures Picked(old(Contents()), run, curr, pid, Contents())
    {
      ghost var qs := Contents();
      pid := curr;
      var found := false;
      var prio := |queues| - 1;
      while prio >= 0 && !found
        invariant Valid() && fresh(repr - old(repr)) && Searched(qs, Contents(), run, curr, prio, found, pid)
      {
        var f, p := SearchAt(prio, run);
        if f {
          found := true;
          pid := p;
        }
        SearchStep(qs, run, curr, prio, found, pid);
        prio := prio - 1;
      }
      SearchDone(qs, Contents(), run, curr, prio, found, pid);
      ChosenIsPicked(qs, run, curr);
    }
  }

  // ----- fairness -----

  /** The place of p in a queue. */
  function Index(q: seq<int>, p: int): (i: nat)
    requires p in q
    ensures i < |q| && q[i] == p && forall j :: 0 <= j < i ==> q[j] != p
  {
    if q[0] == p then 0 else 1 + Index(q[1..], p)
  }

  /** If p is runnable and nothing above it is, one selection chooses p or brings p forward. */
  lemma SelectAdvances(qs: seq<seq<int>>, run: Runnables, curr: int, p: int, prio: int)
    requires AllPids(qs, run) && 0 <= prio < |qs| && NoRepeat(qs[prio]) && p in qs[prio] && run[p]
    requires forall t :: prio < t < |qs| ==> !HasRunnable(qs[t], run)
    ensures var next := AfterSelect(qs, run)[prio];
            Chosen(qs, run, curr) != p ==> p in next && Index(next, p) < Index(qs[prio], p)
  {
    var q := qs[prio];
    var k, at := First(q, run), Index(q, p);
    assert k <= at;
    assert HasRunnable(q, run);
    TopIs(qs, run, prio);
    if k < at {
      var next := Rotate(q, k + 1);
      assert next[at - k - 1] == q[at];
      assert Index(next, p) <= at - k - 1;
    }
  }
}
