/** Whole runs of address spaces: created, forked, grown, written and torn down in any order. */
module MemoryRuns {
  import opened Memory
  import opened PageDir
  import opened Paging
  import opened AddressSpaces

  datatype Event =
    | Create(dir: int, heap: int, image: Page)
    | Fork(parent: int, child: int)
    | Grow(dir: int, pages: int, end: int)
    | Store(dir: int, va: int, b: Byte)
    | Destroy(dir: int)
  {
    /** The event may change page p of process d: a store to it, or the end of the process. */
    predicate Concerns(d: int, p: int)
    {
      (Store? && dir == d && va / PAGE == p) || (Destroy? && dir == d)
    }
  }

  /** A frame in use by the kernel, the base pages included, or by one process. */
  ghost predicate Accounted(dirs: map<int, Dir>, f: int)
  {
    f == 0 || (exists p :: KernelMaps(dirs, p, f)) || (exists d, p :: ProcessMaps(dirs, d, p, f))
  }

  /** Nothing is lost: the bitmap marks exactly the frames that are accounted for. */
  ghost predicate Conserved(m: Machine)
    reads m, m.vm, m.vm.frames.bits
  {
    forall f :: 0 <= f < 32 * m.vm.frames.bits.Length ==> (B.Has(m.vm.frames.bits[..], f) <==> Accounted(m.vm.dirs, f))
  }

  lemma ValidConserves(m: Machine)
    requires m.Valid()
    ensures Conserved(m)
  {
    forall f | 0 <= f < 32 * m.vm.frames.bits.Length ensures B.Has(m.vm.frames.bits[..], f) <==> Accounted(m.vm.dirs, f) {
      FramesAccounted(m.vm.dirs, m.vm.owner, f);
    }
  }

  /** Page p of process d, if it is mapped, is in the same frame and has the same contents. */
  ghost predicate Sees(dirs0: map<int, Dir>, ram0: seq<Page>, dirs: map<int, Dir>, ram: seq<Page>, d: int, p: int)
    requires d in dirs0 && IsPage(p)
  {
    Present(dirs0[d], p) ==>
      && d in dirs && Lookup(dirs[d], p) == Lookup(dirs0[d], p)
      && var f := Frame(dirs0[d], p); 0 < f < |ram| && f < |ram0| && ram[f] == ram0[f]
  }

  /** Frames that were in use kept their contents. */
  lemma SeesKept(m: Machine, dirs0: map<int, Dir>, owner0: map<int, Owner>, ram0: seq<Page>, d: int, p: int)
    requires Consistent(dirs0, owner0, {}) && IsProcess(d) && d in dirs0 && d in m.vm.dirs && IsPage(p)
    requires Present(dirs0[d], p) ==> Lookup(m.vm.dirs[d], p) == Lookup(dirs0[d], p)
    requires |m.ram| == |ram0| && forall f :: f in owner0 ==> 0 <= f < |ram0| && m.ram[f] == ram0[f]
    ensures Sees(dirs0, ram0, m.vm.dirs, m.ram, d, p)
  {
    if Present(dirs0[d], p) {
      assert PageOk(dirs0, owner0, d, p) && OwnerOk(dirs0, {}, Frame(dirs0[d], p), owner0[Frame(dirs0[d], p)]);
    }
  }

  /** Every page but those the event concerns is seen as before, by the process that caused it and by all others. */
  ghost predicate Isolated(dirs0: map<int, Dir>, ram0: seq<Page>, dirs: map<int, Dir>, ram: seq<Page>, e: Event)
  {
    forall d, p {:trigger Sees(dirs0, ram0, dirs, ram, d, p)} ::
      d in dirs0 && IsProcess(d) && IsPage(p) && !e.Concerns(d, p) ==> Sees(dirs0, ram0, dirs, ram, d, p)
  }

  /** What an event does to the memory it concerns; `free` are the free frames before. */
  ghost predicate Happened(dirs0: map<int, Dir>, ram0: seq<Page>, free: set<int>, dirs: map<int, Dir>, ram: seq<Page>, e: Event)
    requires KERNEL in dirs0 && BASE in dirs0
  {
    match e
    case Create(d, heap, image) => Created(dirs0, dirs, ram, d, heap, image)
    case Fork(d, c) => OthersSame(dirs0, dirs) && dirs.Keys == dirs0.Keys + {c} && d in dirs && c in dirs && BASE in dirs && IsCopy(dirs[BASE], dirs[d], dirs[c], ram)
    case Grow(d, n, end) =>
      && d in dirs0 && d in dirs && dirs == dirs0[d := dirs[d]]
      && if Unmapped(dirs0[d], end / PAGE, n) && n <= |free| then Grown(dirs0[d], dirs[d], end / PAGE, n) else SamePresent(dirs0[d], dirs[d])
    case Store(d, va, b) => dirs == dirs0 && d in dirs && 0 <= va < TOP && Stored(ram0, ram, Frame(dirs[d], va / PAGE), va % PAGE, b)
    case Destroy(d) => dirs == dirs0 - {d}
  }

  /** A directory with the base pages and the user's first pages, the heap page among them holding `image`. */
  ghost predicate Created(dirs0: map<int, Dir>, dirs: map<int, Dir>, ram: seq<Page>, d: int, heap: int, image: Page)
    requires KERNEL in dirs0 && BASE in dirs0
  {
    && OthersSame(dirs0, dirs) && dirs.Keys == dirs0.Keys + {d} && d in dirs && 0 <= heap < TOP
    && (forall p :: IsPage(p) ==> if Machine.UserPage(p, heap) then UserEntry(Lookup(dirs[d], p)) else Lookup(dirs[d], p) == Lookup(dirs0[BASE], p))
    && 0 <= Frame(dirs[d], heap / PAGE) < |ram| && ram[Frame(dirs[d], heap / PAGE)] == image
  }

  /** Byte i of frame f is b now, and no other byte differs. */
  ghost predicate Stored(ram0: seq<Page>, ram: seq<Page>, f: int, i: int, b: Byte)
  {
    && |ram| == |ram0| && 0 <= f < |ram| && 0 <= i < PAGE && ram[f][i] == b
    && forall g, j :: 0 <= g < |ram| && 0 <= j < PAGE && !(g == f && j == i) ==> ram[g][j] == ram0[g][j]
  }

  method DoCreate(m: Machine, e: Event) returns (ok: bool)
    requires m.Valid() && e.Create? && e.dir !in m.vm.dirs && IsProcess(e.dir) && 0 <= e.heap < TOP && e.heap % PAGE == 0
    modifies m`ram, m.vm`dirs, m.vm`owner, m.vm`temps, m.vm.frames.bits
    ensures ok <==> Affordable(old(m.vm.dirs), old(m.vm.Free()), e)
    ensures ok ==> m.Valid() && Created(old(m.vm.dirs), m.vm.dirs, m.ram, e.dir, e.heap, e.image)
    ensures ok ==> Isolated(old(m.vm.dirs), old(m.ram), m.vm.dirs, m.ram, e)
  {
    ghost var dirs0, owner0, ram0 := m.vm.dirs, m.vm.owner, m.ram;
    ok := m.NewPageDir(e.dir, e.heap, e.image);
    if ok {
      ghost var f := Frame(m.vm.dirs[e.dir], e.heap / PAGE);
      forall d, p | d in dirs0 && IsProcess(d) && IsPage(p) ensures Sees(dirs0, ram0, m.vm.dirs, m.ram, d, p) {
        if Present(dirs0[d], p) {
          m.FrameInRam(d, p);
          FrameElsewhere(m.vm.dirs, m.vm.owner, e.dir, e.heap / PAGE, d, p);
        }
      }
    }
  }

  method DoFork(m: Machine, e: Event) returns (ok: bool)
    requires m.Valid() && e.Fork? && e.parent in m.vm.dirs && IsProcess(e.parent) && e.child !in m.vm.dirs && IsProcess(e.child)
    modifies m`ram, m.vm`dirs, m.vm`temps, m.vm`pending, m.vm`owner, m.vm.frames.bits
    ensures ok ==> m.Valid() && m.vm.dirs.Keys == old(m.vm.dirs.Keys) + {e.child}
    ensures ok <==> Affordable(old(m.vm.dirs), old(m.vm.Free()), e)
    ensures ok ==> OthersSame(old(m.vm.dirs), m.vm.dirs) && Isolated(old(m.vm.dirs), old(m.ram), m.vm.dirs, m.ram, e)
    ensures ok ==> IsCopy(m.vm.dirs[BASE], m.vm.dirs[e.parent], m.vm.dirs[e.child], m.ram)
  {
    ghost var dirs0, owner0, ram0 := m.vm.dirs, m.vm.owner, m.ram;
    ghost var k, lost;
    ok, k, lost := m.ForkPageDir(e.parent, e.child);
    if ok {
      forall d, p | d in dirs0 && IsProcess(d) && IsPage(p) ensures Sees(dirs0, ram0, m.vm.dirs, m.ram, d, p) {
        SeesKept(m, dirs0, owner0, ram0, d, p);
      }
    }
  }

  method DoGrow(m: Machine, e: Event) returns (ok: bool)
    requires m.Valid() && e.Grow? && e.dir in m.vm.dirs && IsProcess(e.dir) && 0 < e.pages && 0 <= e.end < TOP && e.end % PAGE == 0
    requires Present(m.vm.dirs[e.dir], PAGES - 1)
    modifies m.vm`dirs, m.vm`owner, m.vm.frames.bits
    ensures m.Valid() && m.vm.dirs.Keys == old(m.vm.dirs.Keys) && Isolated(old(m.vm.dirs), old(m.ram), m.vm.dirs, m.ram, e)
    ensures forall c :: c in m.vm.dirs && c != e.dir ==> m.vm.dirs[c] == old(m.vm.dirs)[c]
    ensures ok <==> Unmapped(old(m.vm.dirs)[e.dir], e.end / PAGE, e.pages) && e.pages <= |old(m.vm.Free())|
    ensures if ok then Grown(old(m.vm.dirs)[e.dir], m.vm.dirs[e.dir], e.end / PAGE, e.pages) else SamePresent(old(m.vm.dirs)[e.dir], m.vm.dirs[e.dir])
  {
    ghost var dirs0, owner0, ram0 := m.vm.dirs, m.vm.owner, m.ram;
    assert InRange(dirs0[e.dir], |m.ram|);
    ok := m.vm.ExtendHeap(e.dir, e.pages, e.end);
    forall d, p | d in dirs0 && IsProcess(d) && IsPage(p) ensures Sees(dirs0, ram0, m.vm.dirs, m.ram, d, p) {
      SeesKept(m, dirs0, owner0, ram0, d, p);
    }
    GrownInRange(m, e.dir);
    ghost var grower := e.dir;
    forall d | d in m.vm.dirs && IsProcess(d) ensures InRange(m.vm.dirs[d], |m.ram|) {
      if d != grower { assert InRange(dirs0[d], |m.ram|); }
    }
  }

  lemma OnlyOne(before: map<int, Dir>, after: map<int, Dir>, d: int)
    requires after.Keys == before.Keys && d in before && forall c :: c in after && c != d ==> after[c] == before[c]
    ensures after == before[d := after[d]]
  {
    var r := before[d := after[d]];
    assert r.Keys == after.Keys;
    assert forall c :: c in after ==> after[c] == r[c];
  }

  method DoStore(m: Machine, e: Event)
    requires m.Valid() && e.Store? && 0 <= e.va < TOP && Own(m.vm.dirs, e.dir, e.va / PAGE)
    modifies m`ram
    ensures m.Valid() && Isolated(m.vm.dirs, old(m.ram), m.vm.dirs, m.ram, e)
    ensures Stored(old(m.ram), m.ram, Frame(m.vm.dirs[e.dir], e.va / PAGE), e.va % PAGE, e.b)
  {
    ghost var dirs, ram0 := m.vm.dirs, m.ram;
    m.UserStore(e.dir, e.va, e.b);
    forall d, p | d in dirs && IsProcess(d) && IsPage(p) && !e.Concerns(d, p) ensures Sees(dirs, ram0, dirs, m.ram, d, p) {}
  }

  method DoDestroy(m: Machine, e: Event)
    requires m.Valid() && e.Destroy? && e.dir in m.vm.dirs && IsProcess(e.dir)
    requires forall p :: !ForeignStale(m.vm.dirs, m.vm.owner, e.dir, p)
    modifies m.vm`dirs, m.vm`owner, m.vm.frames.bits
    ensures m.Valid() && m.vm.dirs == old(m.vm.dirs) - {e.dir} && Isolated(old(m.vm.dirs), m.ram, m.vm.dirs, m.ram, e)
  {
    ghost var dirs0, owner0 := m.vm.dirs, m.vm.owner;
    m.FreePageDir(e.dir);
    forall d, p | d in dirs0 && IsProcess(d) && IsPage(p) && d != e.dir ensures Sees(dirs0, m.ram, m.vm.dirs, m.ram, d, p) {
      SeesKept(m, dirs0, owner0, m.ram, d, p);
    }
  }

  /** Page p of process d is its own and shows frame f. */
  predicate Shows(dirs: map<int, Dir>, d: int, p: int, f: int)
    requires d in dirs && BASE in dirs
  {
    IsPage(p) && !Present(dirs[BASE], p) && Present(dirs[d], p) && Frame(dirs[d], p) == f
  }

  /** Page p of process d names, without being mapped, a frame in use that no page of d shows. */
  predicate Stale(dirs: map<int, Dir>, frames: seq<bv32>, d: int, p: int)
    requires d in dirs && BASE in dirs
  {
    && IsPage(p) && !Present(dirs[BASE], p) && !Present(dirs[d], p)
    && var f := Frame(dirs[d], p);
    && 0 < f < 32 * |frames| && B.Has(frames, f)
    && !exists q :: 0 <= q < PAGES && Shows(dirs, d, q, f)
  }

  /** What a look at the directories and the bitmap tells is what teardown depends on. */
  lemma StaleIsForeign(m: Machine, d: int, p: int)
    requires m.Valid() && d in m.vm.dirs && IsProcess(d)
    ensures Stale(m.vm.dirs, m.vm.frames.bits[..], d, p) <==> ForeignStale(m.vm.dirs, m.vm.owner, d, p)
  {
    if IsPage(p) && Frame(m.vm.dirs[d], p) in m.vm.owner {
      var f := Frame(m.vm.dirs[d], p);
      assert OwnerOk(m.vm.dirs, {}, f, m.vm.owner[f]);
      if m.vm.owner[f].Process? && m.vm.owner[f].dir == d {
        assert Shows(m.vm.dirs, d, m.vm.owner[f].page, f);
      }
      if q :| 0 <= q < PAGES && Shows(m.vm.dirs, d, q, f) { assert PageOk(m.vm.dirs, m.vm.owner, d, q); }
    }
  }

  /** The event can be carried out: the process exists, or does not yet; the page is its own; no stale address does harm. */
  predicate Allowed(dirs: map<int, Dir>, frames: seq<bv32>, e: Event)
    requires BASE in dirs
  {
    match e
    case Create(d, heap, _) => d !in dirs && IsProcess(d) && 0 <= heap < TOP && heap % PAGE == 0
    case Fork(d, c) => d in dirs && IsProcess(d) && c !in dirs && IsProcess(c)
    case Grow(d, n, end) =>
      d in dirs && IsProcess(d) && 0 < n && 0 <= end < TOP && end % PAGE == 0 && Present(dirs[d], PAGES - 1)
    case Store(d, va, _) =>
      d in dirs && IsProcess(d) && 0 <= va < TOP && !Present(dirs[BASE], va / PAGE) && Present(dirs[d], va / PAGE)
    case Destroy(d) => d in dirs && IsProcess(d) && forall p :: 0 <= p < PAGES ==> !Stale(dirs, frames, d, p)
  }

  /** Which events a run carries out: those that make sense, and no teardown that would free somebody else's frame. */
  lemma AllowedMeans(m: Machine, e: Event)
    requires m.Valid()
    ensures Allowed(m.vm.dirs, m.vm.frames.bits[..], e) <==>
      match e
      case Create(d, heap, _) => d !in m.vm.dirs && d != 0 && d != 1 && 0 <= heap < 0x1_0000_0000 && heap % 0x1000 == 0
      case Fork(d, c) => d in m.vm.dirs && d != 0 && d != 1 && c !in m.vm.dirs && c != 0 && c != 1
      case Grow(d, n, end) =>
        d in m.vm.dirs && d != 0 && d != 1 && n > 0 && 0 <= end < 0x1_0000_0000 && end % 0x1000 == 0 && Present(m.vm.dirs[d], 0xF_FFFF)
      case Store(d, va, _) => 0 <= va < 0x1_0000_0000 && Own(m.vm.dirs, d, va / 0x1000)
      case Destroy(d) => d in m.vm.dirs && d != 0 && d != 1 && !exists p :: ForeignStale(m.vm.dirs, m.vm.owner, d, p)
  {
    if e.Destroy? && e.dir in m.vm.dirs && IsProcess(e.dir) {
      forall p ensures Stale(m.vm.dirs, m.vm.frames.bits[..], e.dir, p) <==> ForeignStale(m.vm.dirs, m.vm.owner, e.dir, p) { StaleIsForeign(m, e.dir, p); }
    }
  }

  /** There are the frames and windows that the event needs. */
  ghost predicate Affordable(dirs: map<int, Dir>, free: set<int>, e: Event)
    requires KERNEL in dirs && BASE in dirs
  {
    match e
    case Create(_, heap, _) => Machine.UserPagesFree(dirs[BASE], heap) && 18 <= |free| && !AllMapped(dirs[KERNEL])
    case Fork(d, _) => d in dirs && CanFork(dirs, d, free)
    case _ => true
  }

  /** One event that is allowed; `ok` is false if a creation or a fork failed. */
  method Act(m: Machine, e: Event) returns (ok: bool)
    requires m.Valid() && Allowed(m.vm.dirs, m.vm.frames.bits[..], e)
    modifies m`ram, m.vm`dirs, m.vm`temps, m.vm`pending, m.vm`owner, m.vm.frames.bits
    ensures ok ==> m.Valid() && Isolated(old(m.vm.dirs), old(m.ram), m.vm.dirs, m.ram, e)
    ensures ok ==> Happened(old(m.vm.dirs), old(m.ram), old(m.vm.Free()), m.vm.dirs, m.ram, e)
    ensures ok <==> Affordable(old(m.vm.dirs), old(m.vm.Free()), e)
  {
    ok := true;
    match e {
      case Create(_, _, _) => ok := DoCreate(m, e);
      case Fork(_, _) => ok := DoFork(m, e);
      case Grow(d, _, _) =>
        ghost var before := m.vm.dirs;
        var grown := DoGrow(m, e);
        OnlyOne(before, m.vm.dirs, d);
      case Store(_, _, _) => DoStore(m, e);
      case Destroy(d) =>
        forall p ensures !ForeignStale(m.vm.dirs, m.vm.owner, d, p) { StaleIsForeign(m, d, p); }
        DoDestroy(m, e);
    }
  }

  /** The memory between two events. */
  datatype Snapshot = Snapshot(dirs: map<int, Dir>, frames: seq<bv32>, free: set<int>, ram: seq<Page>)
  {
    ghost predicate HasBase() { KERNEL in dirs && BASE in dirs }
  }

  ghost function Now(m: Machine): Snapshot
    reads m, m.vm, m.vm.frames, m.vm.frames.bits
  {
    Snapshot(m.vm.dirs, m.vm.frames.bits[..], m.vm.Free(), m.ram)
  }

  /** An event that is allowed had what it needs and did what it is for, and nothing else; any other is passed over. */
  ghost predicate Next(s: Snapshot, e: Event, s': Snapshot)
  {
    && s.HasBase()
    && if Allowed(s.dirs, s.frames, e)
       then Affordable(s.dirs, s.free, e) && Happened(s.dirs, s.ram, s.free, s'.dirs, s'.ram, e) && Isolated(s.dirs, s.ram, s'.dirs, s'.ram, e)
       else s' == s
  }

  /** The states that events lead to, one by one. */
  ghost predicate IsRun(events: seq<Event>, t: seq<Snapshot>)
  {
    |t| == |events| + 1 && forall k {:trigger NextOf(events, t, k)} :: 0 <= k < |events| ==> NextOf(events, t, k)
  }

  ghost predicate NextOf(events: seq<Event>, t: seq<Snapshot>, k: int)
    requires |t| == |events| + 1 && 0 <= k < |events|
  {
    Next(t[k], events[k], t[k + 1])
  }

  lemma RunGrows(events: seq<Event>, t: seq<Snapshot>, e: Event, s: Snapshot)
    requires IsRun(events, t) && Next(t[|events|], e, s)
    ensures IsRun(events + [e], t + [s])
  {
    forall k | 0 <= k < |events + [e]| ensures NextOf(events + [e], t + [s], k) {
      if k < |events| { assert NextOf(events, t, k); }
    }
  }

  /** One event of a run. */
  method Advance(m: Machine, events: seq<Event>, k: nat, ghost t: seq<Snapshot>, ghost dirs0: map<int, Dir>, ghost ram0: seq<Page>)
    returns (ok: bool, ghost t': seq<Snapshot>)
    requires m.Valid() && k < |events| && IsRun(events[..k], t) && t[k] == Now(m) && Undisturbed(dirs0, ram0, m.vm.dirs, m.ram, events[..k])
    modifies m`ram, m.vm`dirs, m.vm`temps, m.vm`pending, m.vm`owner, m.vm.frames.bits
    ensures ok ==> m.Valid() && t <= t' && IsRun(events[..k + 1], t') && t'[k + 1] == Now(m)
    ensures ok ==> Undisturbed(dirs0, ram0, m.vm.dirs, m.ram, events[..k + 1])
    ensures !ok ==> t' == t && Allowed(t[k].dirs, t[k].frames, events[k]) && !Affordable(t[k].dirs, t[k].free, events[k])
  {
    ghost var s := Now(m);
    t' := t;
    ok := true;
    if Allowed(m.vm.dirs, m.vm.frames.bits[..], events[k]) {
      ok := Act(m, events[k]);
      if !ok { return; }
      UndisturbedNext(dirs0, ram0, s.dirs, s.ram, m.vm.dirs, m.ram, events, k);
    } else {
      UndisturbedSkip(dirs0, ram0, m.vm.dirs, m.ram, events, k);
    }
    t' := t + [Now(m)];
    RunGrows(events[..k], t, events[k], Now(m));
    assert events[..k] + [events[k]] == events[..k + 1];
  }

  /**
   * Over every run, unless a creation or fork fails for want of frames or windows: each event does what it is for; the
   * frame bitmap marks exactly the frames in use, so nothing is lost or shared; and a page of a process that is neither
   * stored to by it nor destroyed with it keeps its contents.
   */
  method Run(m: Machine, events: seq<Event>) returns (ok: bool, ghost t: seq<Snapshot>)
    requires m.Valid()
    modifies m`ram, m.vm`dirs, m.vm`temps, m.vm`pending, m.vm`owner, m.vm.frames.bits
    ensures 1 <= |t| <= |events| + 1 && IsRun(events[..|t| - 1], t) && t[0] == old(Now(m))
    ensures ok ==> |t| == |events| + 1 && t[|events|] == Now(m) && m.Valid() && Conserved(m)
    ensures Undisturbed(old(m.vm.dirs), old(m.ram), t[|t| - 1].dirs, t[|t| - 1].ram, events[..|t| - 1])
    ensures !ok ==> |t| <= |events| && t[|t| - 1].HasBase() && !Affordable(t[|t| - 1].dirs, t[|t| - 1].free, events[|t| - 1])
  {
    ghost var dirs0, owner0, ram0 := m.vm.dirs, m.vm.owner, m.ram;
    forall d, p | d in dirs0 && IsProcess(d) && IsPage(p) ensures Sees(dirs0, ram0, dirs0, ram0, d, p) { SeesKept(m, dirs0, owner0, ram0, d, p); }
    t := [Now(m)];
    var k := 0;
    while k < |events|
      invariant 0 <= k <= |events| && m.Valid() && IsRun(events[..k], t) && t[0] == old(Now(m)) && t[k] == Now(m)
      invariant Undisturbed(dirs0, ram0, m.vm.dirs, m.ram, events[..k])
    {
      ok, t := Advance(m, events, k, t, dirs0, ram0);
      if !ok { return; }
      k := k + 1;
    }
    ok := true;
    assert events[..k] == events;
    ValidConserves(m);
  }

  ghost predicate Concerned(events: seq<Event>, d: int, p: int)
  {
    exists k :: 0 <= k < |events| && events[k].Concerns(d, p)
  }

  /** Every page that no event concerns is seen as before. */
  ghost predicate Undisturbed(dirs0: map<int, Dir>, ram0: seq<Page>, dirs: map<int, Dir>, ram: seq<Page>, events: seq<Event>)
  {
    forall d, p {:trigger Sees(dirs0, ram0, dirs, ram, d, p)} ::
      d in dirs0 && IsProcess(d) && IsPage(p) && !Concerned(events, d, p) ==> Sees(dirs0, ram0, dirs, ram, d, p)
  }

  lemma LessConcerned(events: seq<Event>, k: int, d: int, p: int)
    requires 0 <= k < |events| && !Concerned(events[..k + 1], d, p)
    ensures !Concerned(events[..k], d, p) && !events[k].Concerns(d, p)
  {
    assert !events[..k + 1][k].Concerns(d, p);
    forall j | 0 <= j < k ensures !events[..k][j].Concerns(d, p) { assert !events[..k + 1][j].Concerns(d, p); }
  }

  lemma UndisturbedNext(dirs0: map<int, Dir>, ram0: seq<Page>, dirs1: map<int, Dir>, ram1: seq<Page>,
                        dirs: map<int, Dir>, ram: seq<Page>, events: seq<Event>, k: int)
    requires 0 <= k < |events| && Undisturbed(dirs0, ram0, dirs1, ram1, events[..k]) && Isolated(dirs1, ram1, dirs, ram, events[k])
    ensures Undisturbed(dirs0, ram0, dirs, ram, events[..k + 1])
  {
    forall d, p | d in dirs0 && IsProcess(d) && IsPage(p) && !Concerned(events[..k + 1], d, p) ensures Sees(dirs0, ram0, dirs, ram, d, p) {
      LessConcerned(events, k, d, p);
      assert Sees(dirs0, ram0, dirs1, ram1, d, p);
      if Present(dirs0[d], p) { assert Sees(dirs1, ram1, dirs, ram, d, p); }
    }
  }

  lemma UndisturbedSkip(dirs0: map<int, Dir>, ram0: seq<Page>, dirs: map<int, Dir>, ram: seq<Page>, events: seq<Event>, k: int)
    requires 0 <= k < |events| && Undisturbed(dirs0, ram0, dirs, ram, events[..k])
    ensures Undisturbed(dirs0, ram0, dirs, ram, events[..k + 1])
  {
    forall d, p | d in dirs0 && IsProcess(d) && IsPage(p) && !Concerned(events[..k + 1], d, p) ensures Sees(dirs0, ram0, dirs, ram, d, p) {
      LessConcerned(events, k, d, p);
    }
  }

  /** After a growth or its rollback, every entry names a frame that exists. */
  lemma GrownInRange(m: Machine, d: int)
    requires m.Shape() && d in m.vm.dirs && IsProcess(d)
    requires forall p :: IsPage(p) && !Present(m.vm.dirs[d], p) ==> 0 <= Frame(m.vm.dirs[d], p) < |m.ram|
    ensures InRange(m.vm.dirs[d], |m.ram|)
  {
    forall p | IsPage(p) ensures 0 <= Frame(m.vm.dirs[d], p) < |m.ram| {
      if Present(m.vm.dirs[d], p) { m.FrameInRam(d, p); }
    }
  }
}
