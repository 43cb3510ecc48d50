/** Process address spaces: creation, fork by copying, teardown (src/paging.c). */
module AddressSpaces {
  import opened Memory
  import opened PageDir
  import opened Paging
  import B = Bitset

  type Page = p: seq<Byte> | |p| == PAGE witness seq(PAGE, _ => 0)

  /** Entries that are not present hold no stale address. */
  ghost predicate ZeroAbsent(d: Dir)
  {
    forall p :: IsPage(p) && !Present(d, p) ==> Frame(d, p) == 0
  }

  /** Every entry, present or not, names a frame that exists. */
  ghost predicate InRange(d: Dir, limit: int)
  {
    forall p :: IsPage(p) ==> 0 <= Frame(d, p) < limit
  }

  // ----- fork -----

  /** What fork has done to page p: linked if it is a base page, copied to a frame of its own otherwise. */
  ghost predicate Forked(base: Dir, parent: Dir, child: Dir, taken: map<int, int>, ram0: seq<Page>, ram: seq<Page>, p: int)
    requires IsPage(p)
  {
    if !Present(parent, p) || Present(base, p) then Lookup(child, p) == Lookup(parent, p)
    else
      var f, g := Frame(child, p), Frame(parent, p);
      && Lookup(child, p) == Lookup(parent, p).(address := f)
      && f in taken && taken[f] == p
      && 0 <= f < |ram| && 0 <= g < |ram0| && ram[f] == ram0[g]
  }

  /** Frame f was taken for page taken[f], which is done. */
  ghost predicate TakenFor(base: Dir, parent: Dir, child: Dir, taken: map<int, int>, k: int, f: int)
    requires f in taken
  {
    var p := taken[f];
    && IsPage(p) && p < k && 0 < f && Frame(child, p) == f && Present(parent, p) && !Present(base, p)
  }

  /** The first k pages are done; the rest of the tables below `copied` is still the parent's. */
  ghost predicate Progress(base: Dir, parent: Dir, child: Dir, taken: map<int, int>, ram0: seq<Page>, ram: seq<Page>, k: int, copied: int)
  {
    && |ram| == |ram0|
    && (forall p {:trigger Forked(base, parent, child, taken, ram0, ram, p)} ::
          IsPage(p) && p < k ==> Forked(base, parent, child, taken, ram0, ram, p))
    && (forall p :: IsPage(p) && k <= p ==> Lookup(child, p) == if p < copied then Lookup(parent, p) else ZERO)
    && (forall f {:trigger TakenFor(base, parent, child, taken, k, f)} :: f in taken ==> TakenFor(base, parent, child, taken, k, f))
    && (forall g :: 0 <= g < |ram| && g !in taken ==> ram[g] == ram0[g])
  }

  lemma ProgressSkip(base: Dir, parent: Dir, child: Dir, taken: map<int, int>, ram0: seq<Page>, ram: seq<Page>, k: int, copied: int)
    requires Progress(base, parent, child, taken, ram0, ram, k, copied) && IsPage(k) && k < copied
    requires !Present(parent, k) || Present(base, k)
    ensures Progress(base, parent, child, taken, ram0, ram, k + 1, copied)
  {
    forall p | IsPage(p) && p < k + 1 ensures Forked(base, parent, child, taken, ram0, ram, p) {
      if p < k { assert Forked(base, parent, child, taken, ram0, ram, p); }
    }
    forall f | f in taken ensures TakenFor(base, parent, child, taken, k + 1, f) {
      assert TakenFor(base, parent, child, taken, k, f);
    }
  }

  lemma ProgressCopy(base: Dir, parent: Dir, child: Dir, taken: map<int, int>, ram0: seq<Page>, ram: seq<Page>, k: int, copied: int, f: int)
    requires Progress(base, parent, child, taken, ram0, ram, k, copied) && IsPage(k) && k < copied
    requires Present(parent, k) && !Present(base, k)
    requires f !in taken && 0 < f < |ram| && 0 <= Frame(parent, k) < |ram| && Frame(parent, k) !in taken
    ensures var child' := Update(child, k, Lookup(child, k).(address := f));
            Progress(base, parent, child', taken[f := k], ram0, ram[f := ram[Frame(parent, k)]], k + 1, copied)
  {
    var child' := Update(child, k, Lookup(child, k).(address := f));
    var taken' := taken[f := k];
    var ram' := ram[f := ram[Frame(parent, k)]];
    forall p | IsPage(p) && p < k + 1 ensures Forked(base, parent, child', taken', ram0, ram', p) {
      if p < k { assert Forked(base, parent, child, taken, ram0, ram, p); }
    }
    forall g | g in taken' ensures TakenFor(base, parent, child', taken', k + 1, g) {
      if g != f { assert TakenFor(base, parent, child, taken, k, g); }
    }
  }

  /** The finished child joins the other directories. */
  lemma ForkConsistent(dirs: map<int, Dir>, owner: map<int, Owner>, d: int, c: int, child: Dir, taken: map<int, int>, ram0: seq<Page>, ram: seq<Page>)
    requires Consistent(dirs, owner, {}) && d in dirs && IsProcess(d) && c !in dirs && IsProcess(c)
    requires Progress(dirs[BASE], dirs[d], child, taken, ram0, ram, PAGES, PAGES)
    requires forall f :: f in taken ==> f !in owner
    ensures Consistent(dirs[c := child], owner + map f | f in taken :: Process(c, taken[f]), {})
  {
    var dirs' := dirs[c := child];
    var owner' := owner + map f | f in taken :: Process(c, taken[f]);
    forall f | f in owner' ensures OwnerOk(dirs', {}, f, owner'[f]) {
      if f in taken {
        assert TakenFor(dirs[BASE], dirs[d], child, taken, PAGES, f);
        assert Forked(dirs[BASE], dirs[d], child, taken, ram0, ram, taken[f]);
      } else {
        assert OwnerOk(dirs, {}, f, owner[f]);
      }
    }
    forall e, p | e in dirs' && IsPage(p) ensures PageOk(dirs', owner', e, p) {
      if e == c {
        assert Forked(dirs[BASE], dirs[d], child, taken, ram0, ram, p) && PageOk(dirs, owner, d, p);
      } else {
        assert PageOk(dirs, owner, e, p);
      }
    }
  }

  function SetByte(page: Page, i: int, b: Byte): Page
    requires 0 <= i < PAGE
  {
    page[i := b]
  }

  /** Directories differ only in kernel pages that are not present. */
  ghost predicate SameButWindows(dirs: map<int, Dir>, dirs': map<int, Dir>)
  {
    && KERNEL in dirs && dirs'.Keys == dirs.Keys
    && (forall d :: d in dirs && d != KERNEL ==> dirs'[d] == dirs[d])
    && SamePresent(dirs[KERNEL], dirs'[KERNEL])
  }

  /** The directories there were before are the same, up to kernel windows. */
  ghost predicate OthersSame(dirs: map<int, Dir>, dirs': map<int, Dir>)
  {
    && KERNEL in dirs && KERNEL in dirs' && SamePresent(dirs[KERNEL], dirs'[KERNEL])
    && forall d :: d in dirs && d != KERNEL ==> d in dirs' && dirs'[d] == dirs[d]
  }

  lemma WindowsTrans(a: map<int, Dir>, b: map<int, Dir>, c: map<int, Dir>)
    requires SameButWindows(a, b) && SameButWindows(b, c)
    ensures SameButWindows(a, c)
  {
  }

  /** Whatever the other windows did, closing this one leaves what there was before it was opened. */
  lemma WindowClosed(before: map<int, Dir>, between: map<int, Dir>, closing: map<int, Dir>, p: int, e: Entry, e': Entry)
    requires KERNEL in before && IsPage(p) && !Present(before[KERNEL], p) && between == before[KERNEL := Update(before[KERNEL], p, e)]
    requires SameButWindows(between, closing) && !e'.present
    ensures SameButWindows(before, closing[KERNEL := Update(closing[KERNEL], p, e')])
  {
  }

  // ----- windows and frames enough -----

  /** Two kernel pages are free for windows. */
  ghost predicate TwoWindows(d: Dir)
  {
    exists p, q {:trigger BothFree(d, p, q)} :: BothFree(d, p, q)
  }

  ghost predicate BothFree(d: Dir, p: int, q: int)
  {
    1 <= p < q < PAGES && !Present(d, p) && !Present(d, q)
  }

  /** With one window open, another can be opened exactly if there were two. */
  lemma SecondWindow(d: Dir, p: int, e: Entry, d': Dir)
    requires 1 <= p < PAGES && !Present(d, p) && e.present && d' == Update(d, p, e)
    ensures AllMapped(d') <==> !TwoWindows(d)
  {
    if !AllMapped(d') {
      var q :| 1 <= q < PAGES && !Present(d', q);
      assert BothFree(d, if q < p then q else p, if q < p then p else q);
    }
    if a, b :| BothFree(d, a, b) { assert !Present(d', if a == p then b else a); }
  }

  /** Without any, the first window cannot be opened. */
  lemma NoWindow(d: Dir)
    requires AllMapped(d)
    ensures !TwoWindows(d)
  {
  }

  lemma SameWindows(d: Dir, r: Dir)
    requires SamePresent(d, r)
    ensures TwoWindows(r) == TwoWindows(d)
  {
    if a, b :| BothFree(d, a, b) { assert BothFree(r, a, b); }
    if a, b :| BothFree(r, a, b) { assert BothFree(d, a, b); }
  }

  /** The parent's own pages below k. */
  ghost function PrivateBelow(base: Dir, parent: Dir, k: int): set<int>
  {
    set p | 0 <= p < k && IsPage(p) && !Present(base, p) && Present(parent, p)
  }

  ghost predicate Undone(m: map<int, int>, n: map<int, int>, f: int)
  {
    f in m ==> m[f] in n && n[m[f]] == f
  }

  /** Map n undoes map m. */
  ghost predicate Undoes(m: map<int, int>, n: map<int, int>)
  {
    forall f {:trigger Undone(m, n, f)} :: Undone(m, n, f)
  }

  lemma OneLess(m: map<int, int>, f: int)
    requires f in m
    ensures |m - {f}| == |m| - 1
  {
    assert m.Keys == (m - {f}).Keys + {f};
  }

  lemma UndoesLess(m: map<int, int>, n: map<int, int>, f: int)
    requires Undoes(m, n) && Undoes(n, m) && f in m
    ensures m[f] in n && Undoes(m - {f}, n - {m[f]}) && Undoes(n - {m[f]}, m - {f})
  {
    var m', n' := m - {f}, n - {m[f]};
    assert Undone(m, n, f);
    forall g ensures Undone(m', n', g) { assert Undone(m, n, g); }
    forall p ensures Undone(n', m', p) { assert Undone(n, m, p); }
  }

  lemma UndoesNothing(m: map<int, int>, n: map<int, int>)
    requires Undoes(n, m) && m.Keys == {}
    ensures n.Keys == {}
  {
    forall p ensures p !in n.Keys { assert Undone(n, m, p); }
  }

  /** Maps that undo one another have the same size. */
  lemma {:induction false} SameSize(m: map<int, int>, n: map<int, int>)
    requires Undoes(m, n) && Undoes(n, m)
    ensures |m| == |n|
  {
    if m.Keys == {} {
      UndoesNothing(m, n);
    } else {
      var f := Member(m.Keys);
      UndoesLess(m, n, f);
      OneLess(m, f);
      OneLess(n, m[f]);
      SameSize(m - {f}, n - {m[f]});
    }
  }

  lemma Member(s: set<int>) returns (f: int)
    requires s != {}
    ensures f in s
  {
    assert (forall g :: g !in s) ==> s <= {};
    f :| f in s;
  }

  /** One frame was taken for each of them. */
  lemma TakenCount(base: Dir, parent: Dir, child: Dir, taken: map<int, int>, ram0: seq<Page>, ram: seq<Page>, k: int, copied: int)
    requires Progress(base, parent, child, taken, ram0, ram, k, copied)
    ensures |taken| == |PrivateBelow(base, parent, k)|
  {
    var private := PrivateBelow(base, parent, k);
    var inverse := map p | p in private :: Frame(child, p);
    forall f ensures Undone(taken, inverse, f) {
      if f in taken { assert TakenFor(base, parent, child, taken, k, f); }
    }
    forall p ensures Undone(inverse, taken, p) {
      if p in inverse { assert Forked(base, parent, child, taken, ram0, ram, p); }
    }
    SameSize(taken, inverse);
    assert inverse.Keys == private;
  }

  ghost function OwnPages(dirs: map<int, Dir>, d: int): set<int>
    requires d in dirs && BASE in dirs
  {
    PrivateBelow(dirs[BASE], dirs[d], PAGES)
  }

  /** A fork has what it needs: a frame for every page of the parent's own, and two kernel pages for windows. */
  ghost predicate CanFork(dirs: map<int, Dir>, d: int, free: set<int>)
    requires d in dirs && BASE in dirs && KERNEL in dirs
  {
    OwnPages(dirs, d) == {} || (|OwnPages(dirs, d)| <= |free| && TwoWindows(dirs[KERNEL]))
  }

  lemma Smaller(a: set<int>, b: set<int>)
    requires a <= b
    ensures |a| <= |b|
  {
    assert b == a + (b - a);
  }

  /** A fork that came to its end had what it needed. */
  lemma ForkedCould(dirs: map<int, Dir>, d: int, free: set<int>, taken: map<int, int>)
    requires d in dirs && BASE in dirs && KERNEL in dirs && |taken| == |OwnPages(dirs, d)| && taken.Keys <= free
    requires taken.Keys != {} ==> TwoWindows(dirs[KERNEL])
    ensures CanFork(dirs, d, free)
  {
    Smaller(taken.Keys, free);
    if taken.Keys == {} { assert |OwnPages(dirs, d)| == 0; }
  }

  /** One that stopped at page k had not; a frame is lost when there was one, but no window to fill it through. */
  lemma StuckCouldNot(dirs: map<int, Dir>, d: int, free: set<int>, taken: map<int, int>, k: int, lost: set<int>)
    requires d in dirs && BASE in dirs && KERNEL in dirs && Own(dirs, d, k) && |taken| == |PrivateBelow(dirs[BASE], dirs[d], k)|
    requires taken.Keys != {} ==> TwoWindows(dirs[KERNEL])
    requires if lost == {} then free <= taken.Keys else !TwoWindows(dirs[KERNEL]) && lost <= free
    ensures !CanFork(dirs, d, free) && (lost != {} <==> free != {} && !TwoWindows(dirs[KERNEL]))
  {
    var below := PrivateBelow(dirs[BASE], dirs[d], k);
    assert k in OwnPages(dirs, d);
    Smaller(below + {k}, OwnPages(dirs, d));
    assert |below + {k}| == |below| + 1;
    if lost == {} {
      Smaller(free, taken.Keys);
      if free != {} {
        var f :| f in free;
        assert f in taken.Keys;
      }
    }
  }

  lemma FreeApart(limit: int, owner: map<int, Owner>, pending: set<int>)
    ensures FreeFrames(limit, owner, pending) == FreeFrames(limit, owner, {}) - pending
  {
  }

  class Machine {
    const vm: Vm
    var ram: seq<Page>            // the contents of each frame

    ghost predicate Shape()
      reads this, vm, vm.frames.bits
    {
      vm.Valid() && |ram| == 32 * vm.frames.bits.Length
    }

    ghost predicate Valid()
      reads this, vm, vm.frames.bits
    {
      && Shape() && vm.temps == {} && vm.pending == {} && ZeroAbsent(vm.dirs[BASE])
      && forall d {:trigger InRange(vm.dirs[d], |ram|)} :: d in vm.dirs && IsProcess(d) ==> InRange(vm.dirs[d], |ram|)
    }

    constructor (vm: Vm, ram: seq<Page>)
      requires vm.Valid() && vm.temps == {} && vm.pending == {} && |ram| == 32 * vm.frames.bits.Length
      requires ZeroAbsent(vm.dirs[BASE]) && forall d {:trigger InRange(vm.dirs[d], |ram|)} :: d in vm.dirs && IsProcess(d) ==> InRange(vm.dirs[d], |ram|)
      ensures Valid() && this.vm == vm && this.ram == ram
    {
      this.vm, this.ram := vm, ram;
    }

    /** Every mapped page has contents. */
    lemma FrameInRam(d: int, p: int)
      requires Shape() && d in vm.dirs && IsPage(p) && Present(vm.dirs[d], p) && !(d == KERNEL && p in vm.temps)
      ensures 0 < Frame(vm.dirs[d], p) < |ram| && Frame(vm.dirs[d], p) in vm.owner
    {
      assert PageOk(vm.dirs, vm.owner, d, p);
      assert OwnerOk(vm.dirs, vm.temps, Frame(vm.dirs[d], p), vm.owner[Frame(vm.dirs[d], p)]);
    }

    /** `mem_copy` of one page, through two kernel windows. */
    method MemCopy(dest: int, src: int)
      requires 0 <= dest < TOP && 0 <= src < TOP && dest % PAGE == 0 && src % PAGE == 0 && KERNEL in vm.dirs
      requires PAGE <= PhysicalAddress(vm.dirs[KERNEL], dest) < PAGE * |ram|
      requires PAGE <= PhysicalAddress(vm.dirs[KERNEL], src) < PAGE * |ram|
      modifies this`ram
      ensures var to, from := PhysicalAddress(vm.dirs[KERNEL], dest) / PAGE, PhysicalAddress(vm.dirs[KERNEL], src) / PAGE;
              ram == old(ram)[to := old(ram)[from]]
    {
      var to, from := PhysicalAddress(vm.dirs[KERNEL], dest) / PAGE, PhysicalAddress(vm.dirs[KERNEL], src) / PAGE;
      var i := 0;
      while i < PAGE
        invariant 0 <= i <= PAGE && |ram| == |old(ram)|
        invariant forall g :: 0 <= g < |ram| && g != to ==> ram[g] == old(ram)[g]
        invariant forall j :: 0 <= j < PAGE ==> ram[to][j] == if j < i then old(ram)[from][j] else old(ram)[to][j]
      {
        ram := ram[to := SetByte(ram[to], i, ram[from][i])];
        i := i + 1;
      }
      assert ram[to] == old(ram)[from];
    }

    /** The page behind the open window `dest` receives the contents of frame g, seen through a second window. */
    method CopyFrom(dest: int, g: int) returns (ok: bool)
      requires Shape() && 0 < g < |ram| && g in vm.owner && 0 < dest < TOP && dest % PAGE == 0
      requires vm.temps == {dest / PAGE} && Frame(vm.dirs[KERNEL], dest / PAGE) < |ram|
      modifies this`ram, vm`dirs, vm`temps, vm.frames.bits
      ensures Shape() && vm.temps == old(vm.temps) && SameButWindows(old(vm.dirs), vm.dirs)
      ensures ram == if ok then old(ram)[old(Frame(vm.dirs[KERNEL], dest / PAGE)) := old(ram)[g]] else old(ram)
      ensures ok <==> !old(AllMapped(vm.dirs[KERNEL]))
    {
      var src := vm.OpenWindow(g * PAGE);
      if src == 0 {
        return false;
      }
      PhysicalAddressMeans(vm.dirs[KERNEL], dest);
      PhysicalAddressMeans(vm.dirs[KERNEL], src);
      MemCopy(dest, src);
      vm.CloseWindow(src);
      ok := true;
    }

    /** Frame f receives the contents of frame g, by way of two windows that are closed again. */
    method CopyThroughWindows(f: int, g: int) returns (ok: bool)
      requires Shape() && vm.temps == {} && 0 < g < |ram| && g in vm.owner && 0 < f < |ram| && f in vm.pending
      modifies this`ram, vm`dirs, vm`temps, vm.frames.bits
      ensures Shape() && vm.temps == {} && SameButWindows(old(vm.dirs), vm.dirs)
      ensures ram == if ok then old(ram)[f := old(ram)[g]] else old(ram)
      ensures ok <==> old(TwoWindows(vm.dirs[KERNEL]))
    {
      ghost var kernel := vm.dirs[KERNEL];
      var dest := vm.OpenWindow(f * PAGE);
      if dest == 0 {
        NoWindow(kernel);
        return false;
      }
      SecondWindow(kernel, dest / PAGE, Lookup(vm.dirs[KERNEL], dest / PAGE), vm.dirs[KERNEL]);
      ghost var between := vm.dirs;
      ok := CopyFrom(dest, g);
      WindowClosed(old(vm.dirs), between, vm.dirs, dest / PAGE, Lookup(between[KERNEL], dest / PAGE), Lookup(vm.dirs[KERNEL], dest / PAGE).(present := false));
      vm.CloseWindow(dest);
    }

    /**
     * One iteration of the copying loop of `fork_page_dir`: the least free frame gets the contents of frame g.
     * If a window cannot be opened, the frame stays marked, and is `lost`.
     */
    method CopyPage(g: int) returns (f: int, ghost lost: set<int>)
      requires Shape() && vm.temps == {} && 0 < g < |ram| && g in vm.owner
      modifies this`ram, vm`dirs, vm`temps, vm`pending, vm.frames.bits
      ensures Shape() && vm.temps == {} && SameButWindows(old(vm.dirs), vm.dirs)
      ensures f != B.NONE ==> B.LeastMissing(old(vm.frames.bits[..]), 0, f) && ram == old(ram)[f := old(ram)[g]]
      ensures f != B.NONE ==> 0 < f < |ram| && f !in old(vm.pending) && f !in vm.owner && vm.pending == old(vm.pending) + {f}
      ensures f == B.NONE <==> old(vm.Free()) == {} || !old(TwoWindows(vm.dirs[KERNEL]))
      ensures f == B.NONE ==> ram == old(ram) && vm.pending == old(vm.pending) + lost && |lost| <= 1
      ensures f == B.NONE ==> lost <= old(vm.Free()) && (lost == {} <==> old(vm.Free()) == {})
    {
      f := vm.TakeFrame();
      lost := {};
      if f == B.NONE {
        return;
      }
      var ok := CopyThroughWindows(f, g);
      if !ok {
        return B.NONE, {f};
      }
    }

    /** What the loops of `fork_page_dir` leave behind when they stop at page k. */
    ghost predicate Stuck(d: int, child: Dir, taken: map<int, int>, ram0: seq<Page>, k: int, hi: int, lost: set<int>)
      reads this, vm, vm.frames
    {
      && d in vm.dirs && BASE in vm.dirs && IsPage(k) && k < hi && Own(vm.dirs, d, k)
      && vm.pending == taken.Keys + lost && |lost| <= 1 && (forall x :: x in lost ==> x !in taken)
      && KERNEL in vm.dirs && (taken.Keys != {} ==> TwoWindows(vm.dirs[KERNEL]))
      && (if lost == {} then vm.Free() == {} else !TwoWindows(vm.dirs[KERNEL]))
      && Progress(vm.dirs[BASE], vm.dirs[d], child, taken, ram0, ram, k, hi)
    }

    /** The inner loop of `fork_page_dir`: one table of the child, so far a copy of the parent's, gets its own frames. */
    method ForkTable(ghost dirs0: map<int, Dir>, d: int, lo: int, hi: int, child0: Dir, ghost taken0: map<int, int>, ghost ram0: seq<Page>)
      returns (ok: bool, child: Dir, ghost taken: map<int, int>, ghost k: int, ghost lost: set<int>)
      requires 0 <= lo && hi == lo + ENTRIES <= PAGES && Forking(dirs0, d, child0, taken0, ram0, lo, hi)
      modifies this`ram, vm`dirs, vm`temps, vm`pending, vm.frames.bits
      ensures ok ==> Forking(dirs0, d, child, taken, ram0, hi, hi)
      ensures !ok ==> lo <= k && Failing(dirs0, d, child, taken, ram0, k, hi, lost)
    {
      child, taken, lost := child0, taken0, {};
      ok, k := true, lo;
      var page := lo;
      while page != hi
        invariant lo <= page <= hi && ok && Forking(dirs0, d, child, taken, ram0, page, hi)
        decreases hi - page
      {
        k := page;
        ok, child, taken, lost := ForkNext(dirs0, d, page, hi, child, taken, ram0);
        if !ok { return; }
        page := page + 1;
      }
    }

    ghost predicate Failing(dirs0: map<int, Dir>, d: int, child: Dir, taken: map<int, int>, ram0: seq<Page>, k: int, hi: int, lost: set<int>)
      reads this, vm, vm.frames, vm.frames.bits
    {
      Shape() && vm.temps == {} && SameButWindows(dirs0, vm.dirs) && Stuck(d, child, taken, ram0, k, hi, lost)
    }

    /** The loops of `fork_page_dir` have dealt with the pages below k, the tables below hi being copied. */
    ghost predicate Forking(dirs0: map<int, Dir>, d: int, child: Dir, taken: map<int, int>, ram0: seq<Page>, k: int, hi: int)
      reads this, vm, vm.frames.bits
    {
      && Shape() && vm.temps == {} && vm.pending == taken.Keys && SameButWindows(dirs0, vm.dirs)
      && d in dirs0 && IsProcess(d) && BASE in dirs0 && Progress(dirs0[BASE], dirs0[d], child, taken, ram0, ram, k, hi)
      && (taken.Keys != {} ==> TwoWindows(dirs0[KERNEL]))
    }

    method ForkNext(ghost dirs0: map<int, Dir>, d: int, page: int, ghost hi: int, child0: Dir, ghost taken0: map<int, int>, ghost ram0: seq<Page>)
      returns (ok: bool, child: Dir, ghost taken: map<int, int>, ghost lost: set<int>)
      requires Forking(dirs0, d, child0, taken0, ram0, page, hi) && 0 <= page < hi <= PAGES
      modifies this`ram, vm`dirs, vm`temps, vm`pending, vm.frames.bits
      ensures ok ==> Forking(dirs0, d, child, taken, ram0, page + 1, hi)
      ensures !ok ==> Failing(dirs0, d, child, taken, ram0, page, hi, lost)
    {
      ghost var before := vm.dirs;
      SameWindows(dirs0[KERNEL], vm.dirs[KERNEL]);
      ok, child, taken, lost := ForkEntry(d, page, hi, child0, taken0, ram0);
      WindowsTrans(dirs0, before, vm.dirs);
      SameWindows(dirs0[KERNEL], vm.dirs[KERNEL]);
    }

    /** One entry of the child: a page of its own is copied to a frame of its own. */
    method ForkEntry(d: int, page: int, ghost hi: int, child0: Dir, ghost taken0: map<int, int>, ghost ram0: seq<Page>)
      returns (ok: bool, child: Dir, ghost taken: map<int, int>, ghost lost: set<int>)
      requires Shape() && vm.temps == {} && d in vm.dirs && IsProcess(d) && vm.pending == taken0.Keys
      requires 0 <= page < hi <= PAGES && (taken0.Keys != {} ==> TwoWindows(vm.dirs[KERNEL]))
      requires Progress(vm.dirs[BASE], vm.dirs[d], child0, taken0, ram0, ram, page, hi)
      modifies this`ram, vm`dirs, vm`temps, vm`pending, vm.frames.bits
      ensures Shape() && vm.temps == {} && SameButWindows(old(vm.dirs), vm.dirs)
      ensures ok ==> vm.pending == taken.Keys && Progress(vm.dirs[BASE], vm.dirs[d], child, taken, ram0, ram, page + 1, hi)
      ensures ok ==> taken.Keys != {} ==> TwoWindows(vm.dirs[KERNEL])
      ensures !ok ==> Stuck(d, child, taken, ram0, page, hi, lost)
    {
      ok, child, taken, lost := true, child0, taken0, {};
      var parent, base := vm.dirs[d], vm.dirs[BASE];
      var va := PAGE * page;
      if Present(parent, page) { FrameInRam(d, page); }
      if Present(base, page) { FrameInRam(BASE, page); }
      PhysicalAddressMeans(base, va);
      PhysicalAddressMeans(parent, va);
      if Present(parent, page) && PhysicalAddress(base, va) == 0 {
        ok, child, taken, lost := CopyEntry(d, page, hi, child, taken, ram0);
      } else {
        ProgressSkip(base, parent, child, taken, ram0, ram, page, hi);
      }
    }

    method CopyEntry(d: int, page: int, ghost hi: int, child0: Dir, ghost taken0: map<int, int>, ghost ram0: seq<Page>)
      returns (ok: bool, child: Dir, ghost taken: map<int, int>, ghost lost: set<int>)
      requires Shape() && vm.temps == {} && d in vm.dirs && Own(vm.dirs, d, page) && vm.pending == taken0.Keys
      requires page < hi <= PAGES && (taken0.Keys != {} ==> TwoWindows(vm.dirs[KERNEL]))
      requires Progress(vm.dirs[BASE], vm.dirs[d], child0, taken0, ram0, ram, page, hi)
      modifies this`ram, vm`dirs, vm`temps, vm`pending, vm.frames.bits
      ensures Shape() && vm.temps == {} && SameButWindows(old(vm.dirs), vm.dirs)
      ensures ok ==> vm.pending == taken.Keys && Progress(vm.dirs[BASE], vm.dirs[d], child, taken, ram0, ram, page + 1, hi)
      ensures ok ==> taken.Keys != {} ==> TwoWindows(vm.dirs[KERNEL])
      ensures !ok ==> Stuck(d, child, taken, ram0, page, hi, lost)
    {
      ok, child, taken := true, child0, taken0;
      ghost var ram1 := ram;
      FrameInRam(d, page);
      PhysicalAddressMeans(vm.dirs[d], PAGE * page);
      ghost var kernel := vm.dirs[KERNEL];
      var f;
      f, lost := CopyPage(PhysicalAddress(vm.dirs[d], PAGE * page) / PAGE);
      SameWindows(kernel, vm.dirs[KERNEL]);
      if f == B.NONE {
        return false, child, taken, lost;
      }
      ProgressCopy(vm.dirs[BASE], vm.dirs[d], child, taken, ram0, ram1, page, hi, f);
      child := Update(child, page, Lookup(child, page).(address := f));
      taken := taken[f := page];
    }

    /** The loops of `fork_page_dir`: a directory that is not in use yet, for frames `taken` for it. */
    method ForkTables(d: int) returns (ok: bool, child: Dir, ghost taken: map<int, int>, ghost k: int, ghost hi: int, ghost lost: set<int>)
      requires Valid() && d in vm.dirs && IsProcess(d)
      modifies this`ram, vm`dirs, vm`temps, vm`pending, vm.frames.bits
      ensures Shape() && vm.temps == {} && SameButWindows(old(vm.dirs), vm.dirs)
      ensures ok ==> vm.pending == taken.Keys && Progress(vm.dirs[BASE], vm.dirs[d], child, taken, old(ram), ram, PAGES, PAGES)
      ensures ok ==> taken.Keys != {} ==> TwoWindows(vm.dirs[KERNEL])
      ensures !ok ==> hi == TableEnd(k) && Stuck(d, child, taken, old(ram), k, hi, lost)
    {
      child := seq(ENTRIES, _ => Absent);
      taken, lost, k, hi := map[], {}, 0, 0;
      ghost var dirs0 := vm.dirs;
      var t := 0;
      ok := true;
      while t < ENTRIES
        invariant 0 <= t <= ENTRIES && ok && Forking(dirs0, d, child, taken, old(ram), ENTRIES * t, ENTRIES * t)
      {
        ok, child, taken, k, lost := ForkNextTable(dirs0, d, t, child, taken, old(ram));
        if !ok {
          hi := ENTRIES * (t + 1);
          return;
        }
        t := t + 1;
      }
      SameWindows(dirs0[KERNEL], vm.dirs[KERNEL]);
    }

    /** One table: copied, then gone through; or passed over, if the parent has none. */
    method ForkNextTable(ghost dirs0: map<int, Dir>, d: int, t: int, child0: Dir, ghost taken0: map<int, int>, ghost ram0: seq<Page>)
      returns (ok: bool, child: Dir, ghost taken: map<int, int>, ghost k: int, ghost lost: set<int>)
      requires 0 <= t < ENTRIES && Forking(dirs0, d, child0, taken0, ram0, ENTRIES * t, ENTRIES * t)
      modifies this`ram, vm`dirs, vm`temps, vm`pending, vm.frames.bits
      ensures ok ==> Forking(dirs0, d, child, taken, ram0, ENTRIES * (t + 1), ENTRIES * (t + 1))
      ensures !ok ==> ENTRIES * (t + 1) == TableEnd(k) && Failing(dirs0, d, child, taken, ram0, k, ENTRIES * (t + 1), lost)
    {
      child, taken, k, lost := child0, taken0, 0, {};
      if vm.dirs[d][t].Table? {
        ProgressTable(vm.dirs[BASE], vm.dirs[d], child, taken, ram0, ram, t);
        child := child[t := vm.dirs[d][t]];
        ok, child, taken, k, lost := ForkTable(dirs0, d, ENTRIES * t, ENTRIES * (t + 1), child, taken, ram0);
        if !ok { TableEndIs(k, t); }
      } else {
        ok := true;
        ProgressAbsent(vm.dirs[BASE], vm.dirs[d], child, taken, ram0, ram, t);
      }
    }

    /** They come to their end exactly if there is what a fork needs. */
    method TryFork(d: int) returns (ok: bool, child: Dir, ghost taken: map<int, int>, ghost k: int, ghost hi: int, ghost lost: set<int>)
      requires Valid() && d in vm.dirs && IsProcess(d)
      modifies this`ram, vm`dirs, vm`temps, vm`pending, vm.frames.bits
      ensures Shape() && vm.temps == {} && SameButWindows(old(vm.dirs), vm.dirs)
      ensures ok ==> vm.pending == taken.Keys && Progress(vm.dirs[BASE], vm.dirs[d], child, taken, old(ram), ram, PAGES, PAGES)
      ensures !ok ==> hi == TableEnd(k) && Stuck(d, child, taken, old(ram), k, hi, lost) && lost <= old(vm.Free())
      ensures ok <==> CanFork(old(vm.dirs), d, old(vm.Free()))
      ensures !ok ==> (lost != {} <==> old(vm.Free()) != {} && !TwoWindows(old(vm.dirs)[KERNEL]))
    {
      ghost var dirs0, free := vm.dirs, vm.Free();
      ok, child, taken, k, hi, lost := ForkTables(d);
      SameWindows(dirs0[KERNEL], vm.dirs[KERNEL]);
      StillFree(free);
      if ok {
        TakenCount(vm.dirs[BASE], vm.dirs[d], child, taken, old(ram), ram, PAGES, PAGES);
        ForkedCould(dirs0, d, free, taken);
      } else {
        TakenCount(vm.dirs[BASE], vm.dirs[d], child, taken, old(ram), ram, k, hi);
        StuckCouldNot(dirs0, d, free, taken, k, lost);
      }
    }

    lemma StillFree(free: set<int>)
      requires Shape() && free == FreeFrames(32 * vm.frames.bits.Length, vm.owner, {})
      ensures vm.pending <= free && vm.Free() == free - vm.pending
    {
      FreeApart(32 * vm.frames.bits.Length, vm.owner, vm.pending);
      forall f | f in vm.pending ensures f in free {}
    }

    /**
     * `fork_page_dir`: the child maps exactly the parent's pages, shares the base pages and owns a copy of
     * every other one. A fork that fails at page k releases the parent's frames from that page to the end of its
     * table, and the stale ones before: they are marked free although the parent goes on using them.
     */
    method ForkPageDir(d: int, c: int) returns (ok: bool, ghost k: int, ghost lost: set<int>)
      requires Valid() && d in vm.dirs && IsProcess(d) && c !in vm.dirs && IsProcess(c)
      modifies this`ram, vm`dirs, vm`temps, vm`pending, vm`owner, vm.frames.bits
      ensures ok ==> Valid() && vm.dirs.Keys == old(vm.dirs.Keys) + {c} && OthersSame(old(vm.dirs), vm.dirs)
      ensures ok ==> IsCopy(vm.dirs[BASE], vm.dirs[d], vm.dirs[c], ram) && Extends(old(vm.owner), vm.owner, c)
      ensures |ram| == |old(ram)| && forall f :: 0 <= f < |ram| && f in old(vm.owner) ==> ram[f] == old(ram)[f]
      ensures !ok ==> vm.owner == old(vm.owner) && SameButWindows(old(vm.dirs), vm.dirs)
      ensures ok <==> CanFork(old(vm.dirs), d, old(vm.Free()))
      ensures !ok ==> Own(old(vm.dirs), d, k) && |lost| <= 1 && lost <= old(vm.Free())
      ensures !ok ==> (lost != {} <==> old(vm.Free()) != {} && !TwoWindows(old(vm.dirs)[KERNEL]))
      ensures !ok ==> forall f :: 0 <= f < |ram| ==>
                (B.Has(vm.frames.bits[..], f) <==> (f in old(vm.owner) || f in lost) && !Robbed(old(vm.dirs)[BASE], old(vm.dirs)[d], k, f))
    {
      var child;
      ghost var taken, hi;
      ok, child, taken, k, hi, lost := TryFork(d);
      if ok {
        Complete(d, c, child, taken, old(ram));
      } else {
        Abandon(d, child, taken, old(ram), k, hi, lost);
      }
    }

    /** The finished child joins the other directories. */
    method Complete(d: int, c: int, child: Dir, ghost taken: map<int, int>, ghost ram0: seq<Page>)
      requires Shape() && vm.temps == {} && vm.pending == taken.Keys && ZeroAbsent(vm.dirs[BASE])
      requires forall e {:trigger InRange(vm.dirs[e], |ram|)} :: e in vm.dirs && IsProcess(e) ==> InRange(vm.dirs[e], |ram|)
      requires d in vm.dirs && IsProcess(d) && c !in vm.dirs && IsProcess(c)
      requires Progress(vm.dirs[BASE], vm.dirs[d], child, taken, ram0, ram, PAGES, PAGES)
      modifies vm`dirs, vm`owner, vm`pending
      ensures Valid() && vm.dirs == old(vm.dirs)[c := child] && Extends(old(vm.owner), vm.owner, c)
      ensures IsCopy(vm.dirs[BASE], vm.dirs[d], vm.dirs[c], ram)
    {
      ForkConsistent(vm.dirs, vm.owner, d, c, child, taken, ram0, ram);
      CopyComplete(vm.dirs, vm.owner, d, child, taken, ram0, ram);
      CopyInRange(vm.dirs[BASE], vm.dirs[d], child, ram);
      vm.Adopt(c, child, map f | f in taken :: Process(c, taken[f]));
    }

    /** `free_page_dir` on a fork that stopped at page k. */
    method Abandon(d: int, child: Dir, ghost taken: map<int, int>, ghost ram0: seq<Page>, ghost k: int, ghost hi: int, ghost lost: set<int>)
      requires Shape() && d in vm.dirs && InRange(vm.dirs[d], |ram|) && hi == TableEnd(k) && Stuck(d, child, taken, ram0, k, hi, lost)
      modifies vm.frames.bits
      ensures forall f :: 0 <= f < |ram| ==>
                (B.Has(vm.frames.bits[..], f) <==> (f in vm.owner || f in lost) && !Robbed(vm.dirs[BASE], vm.dirs[d], k, f))
    {
      StuckInRange(d, child, taken, ram0, k, hi, lost);
      RobbedExact(vm.dirs[BASE], vm.dirs[d], child, taken, ram0, ram, k);
      ghost var base, parent := vm.dirs[BASE], vm.dirs[d];
      ReleaseFrames(child);
      forall f | 0 <= f < |ram|
        ensures B.Has(vm.frames.bits[..], f) <==> (f in vm.owner || f in lost) && !Robbed(base, parent, k, f)
      {
        assert Released(base, child, PAGES, f) <==> f in taken || Robbed(base, parent, k, f);
      }
    }

    lemma StuckInRange(d: int, child: Dir, taken: map<int, int>, ram0: seq<Page>, k: int, hi: int, lost: set<int>)
      requires Shape() && Stuck(d, child, taken, ram0, k, hi, lost) && InRange(vm.dirs[d], |ram|)
      ensures InRange(child, |ram|)
    {
      forall p | IsPage(p) ensures 0 <= Frame(child, p) < |ram| {
        if p < k { assert Forked(vm.dirs[BASE], vm.dirs[d], child, taken, ram0, ram, p); }
      }
    }

    // ----- teardown -----

    /** `free_page`: the frame of the entry, if it names one, is marked free. */
    method FreePage(e: Entry)
      requires 0 <= e.address < 32 * vm.frames.bits.Length
      modifies vm.frames.bits
      ensures forall f :: 0 <= f < 32 * vm.frames.bits.Length ==>
                (B.Has(vm.frames.bits[..], f) <==> old(B.Has(vm.frames.bits[..], f)) && !(f == e.address && f != 0))
    {
      if e.address != 0 {
        vm.frames.SetBit(e.address, false);
      }
    }

    /** The base directory's pages have an address, so `get_physical_address` finds them. */
    lemma BaseNonzero(p: int)
      requires Shape() && IsPage(p)
      ensures PhysicalAddress(vm.dirs[BASE], PAGE * p) == 0 <==> !Present(vm.dirs[BASE], p)
    {
      if Present(vm.dirs[BASE], p) { FrameInRam(BASE, p); }
      PhysicalAddressMeans(vm.dirs[BASE], PAGE * p);
    }

    /** The loops of `free_page_dir` over a directory that is thrown away: present or not, every entry outside the base is freed. */
    method ReleaseFrames(d: Dir)
      requires Shape() && InRange(d, |ram|)
      modifies vm.frames.bits
      ensures forall f :: 0 <= f < |ram| ==>
                (B.Has(vm.frames.bits[..], f) <==> old(B.Has(vm.frames.bits[..], f)) && !Released(vm.dirs[BASE], d, PAGES, f))
    {
      ghost var base := vm.dirs[BASE];
      forall p | IsPage(p) ensures PhysicalAddress(base, PAGE * p) == 0 <==> !Present(base, p) { BaseNonzero(p); }
      var t := 0;
      while t < ENTRIES
        invariant 0 <= t <= ENTRIES
        invariant forall f :: 0 <= f < |ram| ==>
                    (B.Has(vm.frames.bits[..], f) <==> old(B.Has(vm.frames.bits[..], f)) && !Released(base, d, ENTRIES * t, f))
      {
        if d[t].Table? {
          ReleaseTable(d, t);
          forall f ensures Released(base, d, ENTRIES * (t + 1), f) <==> Released(base, d, ENTRIES * t, f) || ReleasedIn(base, d, ENTRIES * t, ENTRIES * (t + 1), f) {
            ReleasedSplit(base, d, ENTRIES * t, ENTRIES * (t + 1), f);
          }
        } else {
          forall f | 0 <= f < |ram| ensures Released(base, d, ENTRIES * t, f) <==> Released(base, d, ENTRIES * (t + 1), f) {
            ReleasedAbsent(base, d, t, f);
          }
        }
        t := t + 1;
      }
    }

    method ReleaseTable(d: Dir, t: int)
      requires 0 <= t < ENTRIES && d[t].Table? && InRange(d, |ram|) && |ram| == 32 * vm.frames.bits.Length && BASE in vm.dirs
      requires forall p :: IsPage(p) ==> (PhysicalAddress(vm.dirs[BASE], PAGE * p) == 0 <==> !Present(vm.dirs[BASE], p))
      modifies vm.frames.bits
      ensures forall f :: 0 <= f < |ram| ==>
                (B.Has(vm.frames.bits[..], f) <==> old(B.Has(vm.frames.bits[..], f)) && !ReleasedIn(vm.dirs[BASE], d, ENTRIES * t, ENTRIES * (t + 1), f))
    {
      var i := 0;
      while i < ENTRIES
        invariant 0 <= i <= ENTRIES
        invariant forall f :: 0 <= f < |ram| ==>
                    (B.Has(vm.frames.bits[..], f) <==> old(B.Has(vm.frames.bits[..], f)) && !ReleasedIn(vm.dirs[BASE], d, ENTRIES * t, ENTRIES * t + i, f))
      {
        var page := ENTRIES * t + i;
        if PhysicalAddress(vm.dirs[BASE], PAGE * page) == 0 {
          FreePage(Lookup(d, page));
        }
        forall f ensures ReleasedIn(vm.dirs[BASE], d, ENTRIES * t, page + 1, f) <==>
                           ReleasedIn(vm.dirs[BASE], d, ENTRIES * t, page, f) || Names(vm.dirs[BASE], d, page, f) {
          ReleasedNext(vm.dirs[BASE], d, ENTRIES * t, page, f);
        }
        i := i + 1;
      }
    }

    /**
     * `free_page_dir`: the directory is gone. Its own frames, those of no base page, are free again, and nothing else
     * is lost exactly when no entry of it names, without being mapped, a frame that belongs to somebody else.
     */
    method FreePageDir(d: int)
      requires Valid() && d in vm.dirs && IsProcess(d)
      modifies vm`dirs, vm`owner, vm.frames.bits
      ensures vm.dirs == old(vm.dirs) - {d} && Without(old(vm.owner), vm.owner, d) && Consistent(vm.dirs, vm.owner, {})
      ensures forall f :: 0 <= f < |ram| ==>
                (B.Has(vm.frames.bits[..], f) <==> f in old(vm.owner) && !Released(old(vm.dirs)[BASE], old(vm.dirs)[d], PAGES, f))
      ensures Valid() <==> !exists p :: ForeignStale(old(vm.dirs), old(vm.owner), d, p)
    {
      ReleaseFrames(vm.dirs[d]);
      RemoveKeeps(vm.dirs, vm.owner, d);
      TeardownExact(vm.dirs, vm.owner, d);
      vm.owner := map f | f in vm.owner && !(vm.owner[f].Process? && vm.owner[f].dir == d) :: vm.owner[f];
      vm.dirs := vm.dirs - {d};
    }

    // ----- creation -----

    /** One page for a directory under construction. */
    method AddPage(c: int, va: int) returns (ok: bool)
      requires Shape() && vm.temps == {} && vm.pending == {} && c in vm.dirs && IsProcess(c) && 0 <= va < TOP
      modifies vm`dirs, vm`owner, vm.frames.bits
      ensures Shape() && vm.dirs.Keys == old(vm.dirs.Keys) && forall e :: e in vm.dirs && e != c ==> vm.dirs[e] == old(vm.dirs)[e]
      ensures ok <==> !Present(old(vm.dirs)[c], va / PAGE) && 1 <= |old(vm.Free())|
      ensures ok ==> Extends(old(vm.owner), vm.owner, c) && !Present(vm.dirs[BASE], va / PAGE) && |vm.Free()| == |old(vm.Free())| - 1
      ensures ok ==> forall p :: IsPage(p) ==> if p == va / PAGE then UserEntry(Lookup(vm.dirs[c], p)) else Lookup(vm.dirs[c], p) == Lookup(old(vm.dirs)[c], p)
    {
      ghost var f;
      ok, f := vm.RequestVirtualSpace(c, va, false, true);
    }

    /** The pages every process starts with besides the base pages: code, one page of stack, one page of heap. */
    static predicate UserPage(p: int, heap: int)
    {
      USER_CODE / PAGE <= p < PAGES || p == USER_STACK / PAGE || p == heap / PAGE
    }

    /** They are all different, and directory d maps none of them. */
    static ghost predicate UserPagesFree(d: Dir, heap: int)
    {
      && heap / PAGE < USER_CODE / PAGE && heap / PAGE != USER_STACK / PAGE
      && forall p :: IsPage(p) && UserPage(p, heap) ==> !Present(d, p)
    }

    /** The first loop of `new_page_dir`. */
    method AddCode(c: int) returns (ok: bool)
      requires Shape() && vm.temps == {} && vm.pending == {} && c in vm.dirs && IsProcess(c)
      modifies vm`dirs, vm`owner, vm.frames.bits
      ensures Shape() && vm.dirs.Keys == old(vm.dirs.Keys) && forall e :: e in vm.dirs && e != c ==> vm.dirs[e] == old(vm.dirs)[e]
      ensures ok <==> Unmapped(old(vm.dirs)[c], USER_CODE / PAGE, 16) && 16 <= |old(vm.Free())|
      ensures ok ==> Extends(old(vm.owner), vm.owner, c) && |vm.Free()| == |old(vm.Free())| - 16
      ensures ok ==> forall p :: IsPage(p) ==>
                if USER_CODE / PAGE <= p then UserEntry(Lookup(vm.dirs[c], p)) && !Present(vm.dirs[BASE], p)
                else Lookup(vm.dirs[c], p) == Lookup(old(vm.dirs)[c], p)
    {
      var va := USER_CODE;
      ghost var n := 0;
      while va < TOP
        invariant 0 <= n <= 16 && va == USER_CODE + PAGE * n && |vm.Free()| == |old(vm.Free())| - n
        invariant Shape() && vm.dirs.Keys == old(vm.dirs.Keys) && forall e :: e in vm.dirs && e != c ==> vm.dirs[e] == old(vm.dirs)[e]
        invariant Extends(old(vm.owner), vm.owner, c)
        invariant forall p :: IsPage(p) ==>
                    if USER_CODE / PAGE <= p < va / PAGE then UserEntry(Lookup(vm.dirs[c], p)) && !Present(vm.dirs[BASE], p) && !Present(old(vm.dirs)[c], p)
                    else Lookup(vm.dirs[c], p) == Lookup(old(vm.dirs)[c], p)
      {
        assert Lookup(vm.dirs[c], va / PAGE) == Lookup(old(vm.dirs)[c], va / PAGE);
        ghost var page := va / PAGE;
        assert Present(old(vm.dirs)[c], page) ==> !Unmapped(old(vm.dirs)[c], USER_CODE / PAGE, 16);
        ok := AddPage(c, va);
        if !ok { return; }
        va, n := va + PAGE, n + 1;
      }
      ok := true;
    }

    /** The rest of the mappings of `new_page_dir`. */
    method AddUserPages(c: int, heap: int) returns (ok: bool)
      requires Shape() && vm.temps == {} && vm.pending == {} && c in vm.dirs && IsProcess(c) && 0 <= heap < TOP
      modifies vm`dirs, vm`owner, vm.frames.bits
      ensures Shape() && vm.dirs.Keys == old(vm.dirs.Keys) && forall e :: e in vm.dirs && e != c ==> vm.dirs[e] == old(vm.dirs)[e]
      ensures ok <==> UserPagesFree(old(vm.dirs)[c], heap) && 18 <= |old(vm.Free())|
      ensures ok ==> Extends(old(vm.owner), vm.owner, c)
      ensures ok ==> forall p :: IsPage(p) ==>
                if UserPage(p, heap) then UserEntry(Lookup(vm.dirs[c], p)) && !Present(vm.dirs[BASE], p)
                else Lookup(vm.dirs[c], p) == Lookup(old(vm.dirs)[c], p)
    {
      ok := AddCode(c);
      if !ok { return; }
      assert UserPage(USER_STACK / PAGE, heap) && UserPage(heap / PAGE, heap);
      assert Lookup(vm.dirs[c], USER_STACK / PAGE) == Lookup(old(vm.dirs)[c], USER_STACK / PAGE);
      ok := AddPage(c, USER_STACK);
      if !ok { return; }
      ok := AddPage(c, heap);
    }

    /** `new_page_dir`: base pages, code, stack and heap, every private page in a frame of its own. */
    method NewPageDir(c: int, heap: int, image: Page) returns (ok: bool)
      requires Valid() && c !in vm.dirs && IsProcess(c) && 0 <= heap < TOP && heap % PAGE == 0
      modifies this`ram, vm`dirs, vm`owner, vm`temps, vm.frames.bits
      ensures ok <==> UserPagesFree(old(vm.dirs)[BASE], heap) && 18 <= |old(vm.Free())| && !AllMapped(old(vm.dirs)[KERNEL])
      ensures ok ==> Valid() && vm.dirs.Keys == old(vm.dirs.Keys) + {c} && OthersSame(old(vm.dirs), vm.dirs)
      ensures ok ==> Extends(old(vm.owner), vm.owner, c) && ZeroAbsent(vm.dirs[c])
      ensures ok ==> forall p :: IsPage(p) ==>
                if UserPage(p, heap) then UserEntry(Lookup(vm.dirs[c], p)) else Lookup(vm.dirs[c], p) == Lookup(vm.dirs[BASE], p)
      ensures ok ==> Own(vm.dirs, c, heap / PAGE)
      ensures ok ==> 0 < Frame(vm.dirs[c], heap / PAGE) < |ram| && ram == old(ram)[Frame(vm.dirs[c], heap / PAGE) := image]
    {
      CloneKeeps(vm.dirs, vm.owner, c);
      vm.dirs := vm.dirs[c := vm.dirs[BASE]];
      ok := AddUserPages(c, heap);
      if !ok { return; }
      FrameInRam(c, heap / PAGE);
      NewInRange(c);
      ok := FillPage(Frame(vm.dirs[c], heap / PAGE), image);
    }

    /** A directory without stale addresses names frames that exist. */
    lemma NewInRange(c: int)
      requires Shape() && c in vm.dirs && IsProcess(c) && ZeroAbsent(vm.dirs[c])
      ensures InRange(vm.dirs[c], |ram|)
    {
      forall p | IsPage(p) ensures 0 <= Frame(vm.dirs[c], p) < |ram| {
        if Present(vm.dirs[c], p) { FrameInRam(c, p); }
      }
      assert 0 in vm.owner;
    }

    /** `malloc_new_state` writes the first block header of the new heap, through a window on its frame. */
    method FillPage(f: int, image: Page) returns (ok: bool)
      requires Shape() && vm.temps == {} && 0 < f < |ram| && f in vm.owner
      modifies this`ram, vm`dirs, vm`temps, vm.frames.bits
      ensures Shape() && vm.temps == {} && SameButWindows(old(vm.dirs), vm.dirs)
      ensures ram == if ok then old(ram)[f := image] else old(ram)
      ensures ok <==> !AllMapped(old(vm.dirs)[KERNEL])
    {
      var va := vm.OpenWindow(f * PAGE);
      if va == 0 {
        return false;
      }
      PhysicalAddressMeans(vm.dirs[KERNEL], va);
      ram := ram[PhysicalAddress(vm.dirs[KERNEL], va) / PAGE := image];
      vm.CloseWindow(va);
      ok := true;
    }

    // ----- use -----

    /** A store by process d to one of its own pages changes that page and no other page of anybody. */
    method UserStore(d: int, va: int, b: Byte)
      requires Valid() && 0 <= va < TOP && Own(vm.dirs, d, va / PAGE)
      modifies this`ram
      ensures Valid() && |ram| == |old(ram)|
      ensures 0 < Frame(vm.dirs[d], va / PAGE) < |ram|
              && ram[Frame(vm.dirs[d], va / PAGE)] == SetByte(old(ram)[Frame(vm.dirs[d], va / PAGE)], va % PAGE, b)
      ensures forall g :: 0 <= g < |ram| && g != Frame(vm.dirs[d], va / PAGE) ==> ram[g] == old(ram)[g]
      ensures forall c, p :: c in vm.dirs && IsPage(p) && Present(vm.dirs[c], p) && !(c == d && p == va / PAGE) ==>
                0 < Frame(vm.dirs[c], p) < |ram| && ram[Frame(vm.dirs[c], p)] == old(ram)[Frame(vm.dirs[c], p)]
    {
      FrameInRam(d, va / PAGE);
      PhysicalAddressMeans(vm.dirs[d], va);
      var f := PhysicalAddress(vm.dirs[d], va) / PAGE;
      ram := ram[f := SetByte(ram[f], va % PAGE, b)];
      forall c, p | c in vm.dirs && IsPage(p) && Present(vm.dirs[c], p) && !(c == d && p == va / PAGE)
        ensures 0 < Frame(vm.dirs[c], p) < |ram| && Frame(vm.dirs[c], p) != f
      {
        FrameInRam(c, p);
        FrameElsewhere(vm.dirs, vm.owner, d, va / PAGE, c, p);
      }
    }
  }

  const USER_STACK := 0xFFFE_FFFC   // START_OF_USER_STACK

  /** A private page shares its frame with no page of any directory. */
  lemma FrameElsewhere(dirs: map<int, Dir>, owner: map<int, Owner>, d: int, p: int, c: int, q: int)
    requires Consistent(dirs, owner, {}) && Own(dirs, d, p) && c in dirs && IsPage(q) && Present(dirs[c], q) && !(c == d && q == p)
    ensures Frame(dirs[c], q) != Frame(dirs[d], p)
  {
    assert PageOk(dirs, owner, d, p) && PageOk(dirs, owner, c, q);
  }

  /** `clone_directory(base_directory)` */
  lemma CloneKeeps(dirs: map<int, Dir>, owner: map<int, Owner>, c: int)
    requires Consistent(dirs, owner, {}) && c !in dirs && IsProcess(c)
    ensures Consistent(dirs[c := dirs[BASE]], owner, {})
  {
    var dirs' := dirs[c := dirs[BASE]];
    forall f | f in owner ensures OwnerOk(dirs', {}, f, owner[f]) { assert OwnerOk(dirs, {}, f, owner[f]); }
    forall e, p | e in dirs' && IsPage(p) ensures PageOk(dirs', owner, e, p) {
      assert PageOk(dirs, owner, if e == c then BASE else e, p);
    }
  }

  /** A process directory can be dropped together with its frames. */
  lemma RemoveKeeps(dirs: map<int, Dir>, owner: map<int, Owner>, d: int)
    requires Consistent(dirs, owner, {}) && d in dirs && IsProcess(d)
    ensures Consistent(dirs - {d}, map f | f in owner && !(owner[f].Process? && owner[f].dir == d) :: owner[f], {})
  {
    var dirs' := dirs - {d};
    var owner' := map f | f in owner && !(owner[f].Process? && owner[f].dir == d) :: owner[f];
    assert OwnerOk(dirs, {}, 0, owner[0]);
    forall f | f in owner' ensures OwnerOk(dirs', {}, f, owner'[f]) { assert OwnerOk(dirs, {}, f, owner[f]); }
    forall e, p | e in dirs' && IsPage(p) ensures PageOk(dirs', owner', e, p) { assert PageOk(dirs, owner, e, p); }
  }

  /** Exactly the frames of process d are gone. */
  ghost predicate Without(owner: map<int, Owner>, owner': map<int, Owner>, d: int)
  {
    && (forall f :: f in owner' <==> f in owner && !(owner[f].Process? && owner[f].dir == d))
    && (forall f :: f in owner' ==> owner'[f] == owner[f])
  }

  /** No frame changed its owner; the new ones belong to process c. */
  ghost predicate Extends(owner: map<int, Owner>, owner': map<int, Owner>, c: int)
  {
    && (forall f :: f in owner ==> f in owner' && owner'[f] == owner[f])
    && (forall f :: f in owner' && f !in owner ==> owner'[f].Process? && owner'[f].dir == c)
  }

  /** The child has the parent's pages: the base pages themselves, and copies of the others in other frames. */
  ghost predicate IsCopy(base: Dir, parent: Dir, child: Dir, ram: seq<Page>)
  {
    forall p {:trigger Lookup(child, p)} :: IsPage(p) ==>
      && Present(child, p) == Present(parent, p)
      && (!Present(parent, p) || Present(base, p) ==> Lookup(child, p) == Lookup(parent, p))
      && (Present(parent, p) && !Present(base, p) ==>
            && Lookup(child, p) == Lookup(parent, p).(address := Frame(child, p))
            && 0 < Frame(parent, p) < |ram| && 0 < Frame(child, p) < |ram| && Frame(child, p) != Frame(parent, p)
            && ram[Frame(child, p)] == ram[Frame(parent, p)])
  }

  lemma ProgressTable(base: Dir, parent: Dir, child: Dir, taken: map<int, int>, ram0: seq<Page>, ram: seq<Page>, t: int)
    requires Progress(base, parent, child, taken, ram0, ram, ENTRIES * t, ENTRIES * t) && 0 <= t < ENTRIES && parent[t].Table?
    ensures Progress(base, parent, child[t := parent[t]], taken, ram0, ram, ENTRIES * t, ENTRIES * (t + 1))
  {
    var child' := child[t := parent[t]];
    forall p | IsPage(p) ensures Lookup(child', p) == if p / ENTRIES == t then Lookup(parent, p) else Lookup(child, p) {
    }
    forall p | IsPage(p) && p < ENTRIES * t ensures Forked(base, parent, child', taken, ram0, ram, p) {
      assert Forked(base, parent, child, taken, ram0, ram, p);
    }
    forall f | f in taken ensures TakenFor(base, parent, child', taken, ENTRIES * t, f) {
      assert TakenFor(base, parent, child, taken, ENTRIES * t, f);
    }
  }

  lemma ProgressAbsent(base: Dir, parent: Dir, child: Dir, taken: map<int, int>, ram0: seq<Page>, ram: seq<Page>, t: int)
    requires Progress(base, parent, child, taken, ram0, ram, ENTRIES * t, ENTRIES * t) && 0 <= t < ENTRIES && parent[t].Absent?
    ensures Progress(base, parent, child, taken, ram0, ram, ENTRIES * (t + 1), ENTRIES * (t + 1))
  {
    forall p | IsPage(p) && p < ENTRIES * (t + 1) ensures Forked(base, parent, child, taken, ram0, ram, p) {
      if p < ENTRIES * t { assert Forked(base, parent, child, taken, ram0, ram, p); }
    }
    forall f | f in taken ensures TakenFor(base, parent, child, taken, ENTRIES * (t + 1), f) {
      assert TakenFor(base, parent, child, taken, ENTRIES * t, f);
    }
  }

  lemma CopyComplete(dirs: map<int, Dir>, owner: map<int, Owner>, d: int, child: Dir, taken: map<int, int>, ram0: seq<Page>, ram: seq<Page>)
    requires Consistent(dirs, owner, {}) && d in dirs && IsProcess(d)
    requires Progress(dirs[BASE], dirs[d], child, taken, ram0, ram, PAGES, PAGES)
    requires (forall f :: f in taken ==> f !in owner) && forall f :: f in owner ==> 0 <= f < |ram|
    ensures IsCopy(dirs[BASE], dirs[d], child, ram)
  {
    forall p | IsPage(p) ensures Forked(dirs[BASE], dirs[d], child, taken, ram0, ram, p) {
    }
    forall p | IsPage(p) && Present(dirs[d], p)
      ensures 0 < Frame(dirs[d], p) < |ram| && Frame(dirs[d], p) in owner
    {
      assert PageOk(dirs, owner, d, p);
      assert OwnerOk(dirs, {}, Frame(dirs[d], p), owner[Frame(dirs[d], p)]);
    }
    forall f | f in taken ensures 0 < f { assert TakenFor(dirs[BASE], dirs[d], child, taken, PAGES, f); }
  }

  lemma CopyInRange(base: Dir, parent: Dir, child: Dir, ram: seq<Page>)
    requires IsCopy(base, parent, child, ram) && InRange(parent, |ram|)
    ensures InRange(child, |ram|)
  {
    forall p | IsPage(p) ensures 0 <= Frame(child, p) < |ram| { assert Lookup(child, p).address == Frame(child, p); }
  }

  // ----- stale addresses -----

  /** Page p of directory d, which is no base page, names frame f, mapped or not. */
  ghost predicate Names(base: Dir, d: Dir, p: int, f: int)
  {
    IsPage(p) && !Present(base, p) && Frame(d, p) == f && f != 0
  }

  ghost predicate ReleasedIn(base: Dir, d: Dir, lo: int, hi: int, f: int)
  {
    exists p :: lo <= p < hi && Names(base, d, p, f)
  }

  /** Among the first k pages of directory d is one that `free_page_dir` releases frame f for. */
  ghost predicate Released(base: Dir, d: Dir, k: int, f: int)
  {
    exists p :: p < k && Names(base, d, p, f)
  }

  lemma ReleasedNext(base: Dir, d: Dir, lo: int, p: int, f: int)
    requires lo <= p
    ensures ReleasedIn(base, d, lo, p + 1, f) <==> ReleasedIn(base, d, lo, p, f) || Names(base, d, p, f)
  {
    if q :| lo <= q < p + 1 && Names(base, d, q, f) {
      if q != p { assert lo <= q < p; }
    }
    if q :| lo <= q < p && Names(base, d, q, f) { assert lo <= q < p + 1; }
  }

  lemma ReleasedSplit(base: Dir, d: Dir, k: int, hi: int, f: int)
    requires k <= hi
    ensures Released(base, d, hi, f) <==> Released(base, d, k, f) || ReleasedIn(base, d, k, hi, f)
  {
    if p :| p < hi && Names(base, d, p, f) {
      if p >= k { assert k <= p < hi && Names(base, d, p, f); }
    }
    if p :| p < k && Names(base, d, p, f) { assert p < hi; }
    if p :| k <= p < hi && Names(base, d, p, f) { assert p < hi; }
  }

  lemma ReleasedAbsent(base: Dir, d: Dir, t: int, f: int)
    requires 0 <= t < ENTRIES && d[t].Absent?
    ensures Released(base, d, ENTRIES * t, f) <==> Released(base, d, ENTRIES * (t + 1), f)
  {
    if Released(base, d, ENTRIES * (t + 1), f) {
      var p :| p < ENTRIES * (t + 1) && Names(base, d, p, f);
      assert p / ENTRIES != t;
    }
  }

  /** Page p is not mapped, but its entry names a frame that belongs to somebody else. */
  ghost predicate ForeignStale(dirs: map<int, Dir>, owner: map<int, Owner>, d: int, p: int)
    requires d in dirs && BASE in dirs
  {
    && IsPage(p) && !Present(dirs[BASE], p) && !Present(dirs[d], p)
    && Frame(dirs[d], p) in owner && Frame(dirs[d], p) != 0
    && !(owner[Frame(dirs[d], p)].Process? && owner[Frame(dirs[d], p)].dir == d)
  }

  /** Of the frames in use, teardown frees those of process d and no others exactly when no entry is stale in that way. */
  lemma TeardownExact(dirs: map<int, Dir>, owner: map<int, Owner>, d: int)
    requires Consistent(dirs, owner, {}) && d in dirs && IsProcess(d)
    ensures forall f :: f in owner && owner[f].Process? && owner[f].dir == d ==> Released(dirs[BASE], dirs[d], PAGES, f)
    ensures (forall f :: f in owner && Released(dirs[BASE], dirs[d], PAGES, f) ==> owner[f].Process? && owner[f].dir == d)
            <==> !exists p :: ForeignStale(dirs, owner, d, p)
  {
    forall f | f in owner && owner[f].Process? && owner[f].dir == d ensures Released(dirs[BASE], dirs[d], PAGES, f) {
      assert OwnerOk(dirs, {}, f, owner[f]);
      assert Names(dirs[BASE], dirs[d], owner[f].page, f);
    }
    if p :| ForeignStale(dirs, owner, d, p) {
      assert Names(dirs[BASE], dirs[d], p, Frame(dirs[d], p));
    } else {
      forall f | f in owner && Released(dirs[BASE], dirs[d], PAGES, f) ensures owner[f].Process? && owner[f].dir == d {
        var p :| p < PAGES && Names(dirs[BASE], dirs[d], p, f);
        assert PageOk(dirs, owner, d, p) && !ForeignStale(dirs, owner, d, p);
      }
    }
  }

  /**
   * How it comes to that: a page of process d is given back, as in the rollback of a heap growth, and its frame goes
   * to another process. The state is as consistent as any, but the teardown of d would take that frame away.
   */
  lemma StaleHappens(dirs: map<int, Dir>, owner: map<int, Owner>, d: int, p: int, c: int, q: int)
    requires Consistent(dirs, owner, {}) && Own(dirs, d, p) && c in dirs && IsProcess(c) && c != d && IsPage(q) && !Present(dirs[c], q)
    ensures var f, e := Frame(dirs[d], p), Lookup(dirs[d], p);
            var dirs1 := dirs[d := Update(dirs[d], p, e.(present := false))];
            var dirs2 := dirs1[c := Update(dirs1[c], q, e)];
            var owner2 := owner[f := Process(c, q)];
            Consistent(dirs2, owner2, {}) && ForeignStale(dirs2, owner2, d, p) && Released(dirs2[BASE], dirs2[d], PAGES, f)
  {
    var f, e := Frame(dirs[d], p), Lookup(dirs[d], p);
    UnmapKeeps(dirs, owner, {}, d, p, e.(present := false));
    var dirs1 := dirs[d := Update(dirs[d], p, e.(present := false))];
    MapKeeps(dirs1, owner - {f}, {}, c, q, f, e);
    assert (owner - {f})[f := Process(c, q)] == owner[f := Process(c, q)];
    var dirs2 := dirs1[c := Update(dirs1[c], q, e)];
    assert Names(dirs2[BASE], dirs2[d], p, f);
  }

  /** The first page of the table after the one that page k is in. */
  function TableEnd(k: int): int { ENTRIES * (k / ENTRIES + 1) }

  lemma TableEndIs(k: int, t: int)
    requires ENTRIES * t <= k < ENTRIES * (t + 1)
    ensures TableEnd(k) == ENTRIES * (t + 1)
  {
  }

  /** Frame f is one of the parent's that a fork stopped at page k releases: of a page from k to the end of its table, or stale. */
  ghost predicate Robbed(base: Dir, parent: Dir, k: int, f: int)
  {
    exists p :: p < TableEnd(k) && Names(base, parent, p, f) && (k <= p || !Present(parent, p))
  }

  /** A failed fork always takes a frame that the parent goes on using: that of the page it stopped at. */
  lemma FailureRobs(dirs: map<int, Dir>, owner: map<int, Owner>, d: int, k: int)
    requires Consistent(dirs, owner, {}) && Own(dirs, d, k)
    ensures Frame(dirs[d], k) in owner && owner[Frame(dirs[d], k)] == Process(d, k) && Robbed(dirs[BASE], dirs[d], k, Frame(dirs[d], k))
  {
    assert PageOk(dirs, owner, d, k) && OwnerOk(dirs, {}, Frame(dirs[d], k), Process(d, k));
    assert k < TableEnd(k) && Names(dirs[BASE], dirs[d], k, Frame(dirs[d], k));
  }

  /** Memory of 64 frames with one left, and a process with the base pages only. */
  method OneFrame() returns (vm: Vm)
    ensures fresh(vm) && fresh(vm.frames) && fresh(vm.frames.bits) && vm.Valid() && vm.temps == {} && vm.pending == {}
    ensures vm.frames.bits.Length == 2 && vm.Free() == {63} && vm.dirs.Keys == {KERNEL, BASE, 2} && vm.dirs[2] == vm.dirs[BASE]
    ensures forall p :: IsPage(p) ==> Lookup(vm.dirs[BASE], p) == if 1 <= p < 63 then Entry(true, false, false, p) else ZERO
  {
    vm := new Vm(64, 63);
    CloneKeeps(vm.dirs, vm.owner, 2);
    vm.dirs := vm.dirs[2 := vm.dirs[BASE]];
  }

  /** A process directory with one page of its own, on the last free frame. */
  method LastFrame() returns (m: Machine)
    ensures fresh(m) && fresh(m.vm) && fresh(m.vm.frames) && fresh(m.vm.frames.bits) && m.Valid() && m.vm.Free() == {}
    ensures m.vm.dirs.Keys == {KERNEL, BASE, 2} && forall p :: Own(m.vm.dirs, 2, p) <==> p == 0x8_0000
  {
    var vm := OneFrame();
    var ok, f := vm.RequestVirtualSpace(2, PAGE * 0x8_0000, false, true);
    assert f == 63;
    m := new Machine(vm, seq(64, _ => seq(PAGE, _ => 0)));
  }

  /** A fork that fails: the parent's page is still mapped, and its frame is free for anybody. */
  method ForkFails() returns (ok: bool, mapped: bool, used: bool)
    ensures !ok && mapped && !used
  {
    var m := LastFrame();
    ghost var dirs, owner := m.vm.dirs, m.vm.owner;
    assert 0x8_0000 in OwnPages(dirs, 2) by { assert Own(dirs, 2, 0x8_0000); }
    ghost var k, lost;
    ok, k, lost := m.ForkPageDir(2, 3);
    FailureRobs(dirs, owner, 2, k);
    mapped := Present(m.vm.dirs[2], 0x8_0000);
    used := m.vm.frames.GetBit(Frame(m.vm.dirs[2], 0x8_0000));
  }

  lemma RobbedExact(base: Dir, parent: Dir, child: Dir, taken: map<int, int>, ram0: seq<Page>, ram: seq<Page>, k: int)
    requires IsPage(k) && Progress(base, parent, child, taken, ram0, ram, k, TableEnd(k))
    ensures forall f :: Released(base, child, PAGES, f) <==> f in taken || Robbed(base, parent, k, f)
  {
    forall f ensures Released(base, child, PAGES, f) <==> f in taken || Robbed(base, parent, k, f) {
      if p :| p < PAGES && Names(base, child, p, f) {
        if p < k { assert Forked(base, parent, child, taken, ram0, ram, p); }
        if f !in taken { assert Names(base, parent, p, f); }
      }
      if f in taken {
        assert TakenFor(base, parent, child, taken, k, f);
        assert Names(base, child, taken[f], f);
      }
      if p :| p < TableEnd(k) && Names(base, parent, p, f) && (k <= p || !Present(parent, p)) {
        if p < k { assert Forked(base, parent, child, taken, ram0, ram, p); }
        assert Names(base, child, p, f);
      }
    }
  }
}
