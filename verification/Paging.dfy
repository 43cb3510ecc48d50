/** Frames and page directories (src/paging.c). */
module Paging {
  import opened PageDir
  import opened Bitset

  const KERNEL := 0   // kernel_directory
  const BASE := 1     // base_directory, what every process directory extends

  /** Who uses a frame: nobody may (frame 0), a kernel page, or one page of one process. */
  datatype Owner = Reserved | Kernel(page: int) | Process(dir: int, page: int)

  predicate IsProcess(d: int) { d != KERNEL && d != BASE }

  /** Page p of process d is its own, not one shared through the base directory. */
  ghost predicate Own(dirs: map<int, Dir>, d: int, p: int)
  {
    && d in dirs && BASE in dirs && IsProcess(d) && IsPage(p)
    && !Present(dirs[BASE], p) && Present(dirs[d], p)
  }

  ghost predicate OwnerOk(dirs: map<int, Dir>, temps: set<int>, f: int, o: Owner)
  {
    match o
    case Reserved => f == 0
    case Kernel(p) =>
      && f != 0 && KERNEL in dirs && IsPage(p) && p !in temps
      && Present(dirs[KERNEL], p) && Frame(dirs[KERNEL], p) == f
    case Process(d, p) => f != 0 && Own(dirs, d, p) && Frame(dirs[d], p) == f
  }

  ghost predicate PageOk(dirs: map<int, Dir>, owner: map<int, Owner>, d: int, p: int)
    requires d in dirs && KERNEL in dirs && BASE in dirs && IsPage(p)
  {
    && (Present(dirs[BASE], p) ==> Lookup(dirs[d], p) == Lookup(dirs[BASE], p))
    && (Present(dirs[d], p) ==>
          && Frame(dirs[d], p) in owner
          && if d == KERNEL || Present(dirs[BASE], p) then owner[Frame(dirs[d], p)].Kernel?
             else owner[Frame(dirs[d], p)] == Process(d, p))
  }

  /**
   * Every frame has at most one owner, which maps it; every mapped page is backed by a frame it
   * owns; every directory agrees with the base directory on the base pages. The kernel pages in
   * `temps` are exempt: they are windows on somebody's frame.
   */
  ghost predicate Consistent(dirs: map<int, Dir>, owner: map<int, Owner>, temps: set<int>)
  {
    && KERNEL in dirs && BASE in dirs
    && 0 in owner
    && (forall p :: p in temps ==> IsPage(p) && !Present(dirs[BASE], p) && Present(dirs[KERNEL], p) && Frame(dirs[KERNEL], p) > 0)
    && (forall f {:trigger OwnerOk(dirs, temps, f, owner[f])} :: f in owner ==> OwnerOk(dirs, temps, f, owner[f]))
    && (forall d, p {:trigger PageOk(dirs, owner, d, p)} ::
          d in dirs && IsPage(p) && !(d == KERNEL && p in temps) ==> PageOk(dirs, owner, d, p))
  }

  /** A frame nobody owns is given to page p of directory d. */
  lemma MapKeeps(dirs: map<int, Dir>, owner: map<int, Owner>, temps: set<int>, d: int, p: int, f: int, e: Entry)
    requires Consistent(dirs, owner, temps) && d in dirs && d != BASE && IsPage(p) && p !in temps
    requires !Present(dirs[d], p) && f !in owner && e.present && e.address == f
    ensures !Present(dirs[BASE], p)
    ensures Consistent(dirs[d := Update(dirs[d], p, e)], owner[f := if d == KERNEL then Kernel(p) else Process(d, p)], temps)
  {
    var dirs' := dirs[d := Update(dirs[d], p, e)];
    var owner' := owner[f := if d == KERNEL then Kernel(p) else Process(d, p)];
    assert PageOk(dirs, owner, d, p);
    forall g | g in owner' ensures OwnerOk(dirs', temps, g, owner'[g]) {
      if g != f { assert OwnerOk(dirs, temps, g, owner[g]); }
    }
    forall c, q | c in dirs' && IsPage(q) && !(c == KERNEL && q in temps) ensures PageOk(dirs', owner', c, q) {
      assert PageOk(dirs, owner, c, q);
    }
  }

  /** The owner of a private page gives up page and frame. */
  lemma UnmapKeeps(dirs: map<int, Dir>, owner: map<int, Owner>, temps: set<int>, d: int, p: int, e: Entry)
    requires Consistent(dirs, owner, temps) && Own(dirs, d, p) && !e.present
    ensures Frame(dirs[d], p) in owner && owner[Frame(dirs[d], p)] == Process(d, p) && Frame(dirs[d], p) != 0
    ensures Consistent(dirs[d := Update(dirs[d], p, e)], owner - {Frame(dirs[d], p)}, temps)
  {
    var f := Frame(dirs[d], p);
    var dirs' := dirs[d := Update(dirs[d], p, e)];
    var owner' := owner - {f};
    assert PageOk(dirs, owner, d, p);
    assert OwnerOk(dirs, temps, f, owner[f]);
    forall g | g in owner' ensures OwnerOk(dirs', temps, g, owner'[g]) {
      assert OwnerOk(dirs, temps, g, owner[g]);
    }
    forall c, q | c in dirs' && IsPage(q) && !(c == KERNEL && q in temps) ensures PageOk(dirs', owner', c, q) {
      assert PageOk(dirs, owner, c, q);
    }
  }

  /** Opening a kernel window on any frame changes nothing for anybody else. */
  lemma WindowKeeps(dirs: map<int, Dir>, owner: map<int, Owner>, temps: set<int>, p: int, e: Entry)
    requires Consistent(dirs, owner, temps) && IsPage(p) && !Present(dirs[KERNEL], p) && e.present && e.address > 0
    ensures p !in temps && Consistent(dirs[KERNEL := Update(dirs[KERNEL], p, e)], owner, temps + {p})
  {
    var dirs' := dirs[KERNEL := Update(dirs[KERNEL], p, e)];
    assert PageOk(dirs, owner, KERNEL, p);
    forall g | g in owner ensures OwnerOk(dirs', temps + {p}, g, owner[g]) {
      assert OwnerOk(dirs, temps, g, owner[g]);
    }
    forall c, q | c in dirs' && IsPage(q) && !(c == KERNEL && q in temps + {p}) ensures PageOk(dirs', owner, c, q) {
      assert PageOk(dirs, owner, c, q);
    }
  }

  /** Closing it neither. */
  lemma CloseKeeps(dirs: map<int, Dir>, owner: map<int, Owner>, temps: set<int>, p: int, e: Entry)
    requires Consistent(dirs, owner, temps) && p in temps && !e.present
    ensures Consistent(dirs[KERNEL := Update(dirs[KERNEL], p, e)], owner, temps - {p})
  {
    var dirs' := dirs[KERNEL := Update(dirs[KERNEL], p, e)];
    forall g | g in owner ensures OwnerOk(dirs', temps - {p}, g, owner[g]) {
      assert OwnerOk(dirs, temps, g, owner[g]);
    }
    forall c, q | c in dirs' && IsPage(q) && !(c == KERNEL && q in temps - {p}) ensures PageOk(dirs', owner, c, q) {
      if !(c == KERNEL && q == p) { assert PageOk(dirs, owner, c, q); }
    }
  }

  /** No frame is shared: two private pages with the same frame are the same page of the same process. */
  lemma FramesPrivate(dirs: map<int, Dir>, owner: map<int, Owner>, temps: set<int>, d: int, p: int, c: int, q: int)
    requires Consistent(dirs, owner, temps) && Own(dirs, d, p) && Own(dirs, c, q)
    requires Frame(dirs[d], p) == Frame(dirs[c], q)
    ensures d == c && p == q
  {
    assert PageOk(dirs, owner, d, p) && PageOk(dirs, owner, c, q);
  }

  ghost predicate KernelMaps(dirs: map<int, Dir>, p: int, f: int)
  {
    KERNEL in dirs && IsPage(p) && Present(dirs[KERNEL], p) && Frame(dirs[KERNEL], p) == f
  }

  ghost predicate ProcessMaps(dirs: map<int, Dir>, d: int, p: int, f: int)
  {
    Own(dirs, d, p) && Frame(dirs[d], p) == f
  }

  /** The frames in use are exactly frame 0, the kernel's (base pages included) and the private ones of live processes. */
  lemma FramesAccounted(dirs: map<int, Dir>, owner: map<int, Owner>, f: int)
    requires Consistent(dirs, owner, {})
    ensures f in owner <==> f == 0 || (exists p :: KernelMaps(dirs, p, f)) || (exists d, p :: ProcessMaps(dirs, d, p, f))
  {
    if f in owner {
      assert OwnerOk(dirs, {}, f, owner[f]);
      match owner[f]
      case Reserved =>
      case Kernel(p) => assert KernelMaps(dirs, p, f);
      case Process(d, p) => assert ProcessMaps(dirs, d, p, f);
    }
    if p :| KernelMaps(dirs, p, f) { assert PageOk(dirs, owner, KERNEL, p); }
    if d, p :| ProcessMaps(dirs, d, p, f) { assert PageOk(dirs, owner, d, p); }
  }

  /** Before there is any process, the kernel directory can become the base of the future ones. */
  lemma BaseFromKernel(dirs: map<int, Dir>, owner: map<int, Owner>)
    requires Consistent(dirs, owner, {}) && dirs.Keys == {KERNEL, BASE}
    ensures Consistent(dirs[BASE := dirs[KERNEL]], owner, {})
  {
    var dirs' := dirs[BASE := dirs[KERNEL]];
    forall f | f in owner ensures OwnerOk(dirs', {}, f, owner[f]) {
      assert OwnerOk(dirs, {}, f, owner[f]);
    }
    forall d, p | d in dirs' && IsPage(p) ensures PageOk(dirs', owner, d, p) {
      assert PageOk(dirs, owner, KERNEL, p);
    }
  }

  /** The same pages are present, with the same entries. */
  ghost predicate SamePresent(d: Dir, r: Dir)
  {
    forall p :: IsPage(p) ==> Present(r, p) == Present(d, p) && (Present(d, p) ==> Lookup(r, p) == Lookup(d, p))
  }

  /** The frames that nobody owns and that are not set aside. */
  ghost function FreeFrames(limit: int, owner: map<int, Owner>, pending: set<int>): set<int>
  {
    set f | 0 <= f < limit && f !in owner && f !in pending
  }

  /** No page is left for a window; page 0 is never used for one. */
  ghost predicate AllMapped(d: Dir)
  {
    forall p :: 1 <= p < PAGES ==> Present(d, p)
  }

  class Vm {
    const frames: Bitset
    var dirs: map<int, Dir>
    ghost var owner: map<int, Owner>
    ghost var temps: set<int>
    ghost var pending: set<int>   // frames taken for a directory under construction

    ghost predicate Valid()
      reads this, frames.bits
    {
      && 32 * frames.bits.Length <= PAGES
      && (forall f :: 0 <= f < 32 * frames.bits.Length ==> (Has(frames.bits[..], f) <==> f in owner || f in pending))
      && (forall f :: f in owner ==> 0 <= f < 32 * frames.bits.Length)
      && (forall f :: f in pending ==> 0 <= f < 32 * frames.bits.Length && f !in owner)
      && Consistent(dirs, owner, temps)
    }

    ghost function Free(): set<int>
      reads this, frames
    {
      FreeFrames(32 * frames.bits.Length, owner, pending)
    }

    /** The search in the bitmap finds a free frame exactly if there is one. */
    lemma LeastFree(f: int)
      requires Valid() && LeastMissing(frames.bits[..], 0, f)
      ensures if f == NONE then Free() == {} else f in Free()
    {
      if f == NONE {
        forall g | 0 <= g < 32 * frames.bits.Length ensures g !in Free() { assert Has(frames.bits[..], g); }
      }
    }

    /**
     * `paging_install`: frame 0 is reserved, the pages below `end` are identity mapped, and the
     * base directory is a copy of the kernel's.
     */
    constructor (length: nat, end: int)
      requires 0 < end < length <= PAGES
      ensures Valid() && temps == {} && pending == {} && fresh(frames) && fresh(frames.bits)
      ensures dirs.Keys == {KERNEL, BASE} && frames.bits.Length == (length + 31) / 32
      ensures forall f :: f in owner <==> 0 <= f < end
      ensures forall p :: IsPage(p) ==> Lookup(dirs[BASE], p) == if 1 <= p < end then Entry(true, false, false, p) else ZERO
    {
      frames := new Bitset(length);
      var none: Dir := seq(ENTRIES, _ => Absent);
      dirs := map[KERNEL := none, BASE := none];
      owner := map[0 := Reserved];
      temps, pending := {}, {};
      new;
      frames.SetBit(0, true);
      assert OwnerOk(dirs, temps, 0, owner[0]);
      assert Consistent(dirs, owner, temps);
      IdentityMap(end);
      BaseFromKernel(dirs, owner);
      dirs := dirs[BASE := dirs[KERNEL]];
    }

    /** The loop of `paging_install`. */
    method IdentityMap(end: int)
      requires Valid() && temps == {} && pending == {} && dirs.Keys == {KERNEL, BASE} && owner.Keys == {0}
      requires forall p :: IsPage(p) ==> Lookup(dirs[KERNEL], p) == ZERO
      requires 0 < end < 32 * frames.bits.Length
      modifies this`dirs, this`owner, frames.bits
      ensures Valid() && dirs.Keys == {KERNEL, BASE} && forall f :: f in owner <==> 0 <= f < end
      ensures forall p :: IsPage(p) ==> Lookup(dirs[KERNEL], p) == if 1 <= p < end then Entry(true, false, false, p) else ZERO
    {
      var frame := 1;
      while frame < end
        invariant 1 <= frame <= end && Valid() && dirs.Keys == {KERNEL, BASE}
        invariant forall p :: IsPage(p) ==> Lookup(dirs[KERNEL], p) == if 1 <= p < frame then Entry(true, false, false, p) else ZERO
        invariant forall f :: f in owner <==> 0 <= f < frame
      {
        MapToFrame(KERNEL, frame, frame, Entry(true, false, false, frame));
        frame := frame + 1;
      }
    }

    /** `map_page_to_frame` with a frame nobody uses. */
    method MapToFrame(d: int, page: int, frame: int, e: Entry)
      requires Valid() && d in dirs && d != BASE && IsPage(page) && page !in temps && !Present(dirs[d], page)
      requires 0 <= frame < 32 * frames.bits.Length && !Has(frames.bits[..], frame) && e.present && e.address == frame
      modifies this`dirs, this`owner, frames.bits
      ensures Valid() && !Present(dirs[BASE], page)
      ensures dirs == old(dirs)[d := Update(old(dirs[d]), page, e)]
      ensures owner == old(owner)[frame := if d == KERNEL then Kernel(page) else Process(d, page)]
    {
      MapKeeps(dirs, owner, temps, d, page, frame, e);
      frames.SetBit(frame, true);
      owner := owner[frame := if d == KERNEL then Kernel(page) else Process(d, page)];
      dirs := dirs[d := Update(dirs[d], page, e)];
    }

    /** `request_virtual_space`: the page gets the least free frame, unless it is mapped or no frame is left. */
    method RequestVirtualSpace(d: int, va: int, isKernel: bool, isWritable: bool) returns (ok: bool, ghost f: int)
      requires Valid() && d in dirs && d != BASE && 0 <= va < TOP && va / PAGE !in temps
      modifies this`dirs, this`owner, frames.bits
      ensures Valid() && LeastMissing(old(frames.bits[..]), 0, f)
      ensures ok <==> !old(Present(dirs[d], va / PAGE)) && old(Free()) != {}
      ensures ok ==> f in old(Free()) && Free() == old(Free()) - {f}
      ensures !ok ==> dirs == old(dirs) && owner == old(owner)
      ensures ok ==> !Present(dirs[BASE], va / PAGE) && f !in old(owner) && f !in pending
      ensures ok ==> dirs == old(dirs)[d := Update(old(dirs[d]), va / PAGE, Entry(true, isWritable, !isKernel, f))]
      ensures ok ==> owner == old(owner)[f := if d == KERNEL then Kernel(va / PAGE) else Process(d, va / PAGE)]
    {
      var page := va / PAGE;
      var frame := frames.FirstFalseBit();
      f := frame;
      LeastFree(f);
      if Present(dirs[d], page) || frame == NONE {
        return false, f;
      }
      MapToFrame(d, page, frame, Entry(true, isWritable, !isKernel, frame));
      ok := true;
    }

    /** `free_virtual_space` on a private page, frame included; the entry keeps its address. */
    method ReleasePage(d: int, va: int)
      requires Valid() && 0 <= va < TOP && Own(dirs, d, va / PAGE)
      modifies this`dirs, this`owner, frames.bits
      ensures Valid()
      ensures dirs == old(dirs)[d := Update(old(dirs[d]), va / PAGE, old(Lookup(dirs[d], va / PAGE)).(present := false))]
      ensures owner == old(owner) - {old(Frame(dirs[d], va / PAGE))}
    {
      var page := va / PAGE;
      var e := Lookup(dirs[d], page);
      UnmapKeeps(dirs, owner, temps, d, page, e.(present := false));
      frames.SetBit(e.address, false);
      owner := owner - {e.address};
      dirs := dirs[d := Update(dirs[d], page, e.(present := false))];
    }

    /** A page that is mapped, by its owner or as a window, never shows frame 0. */
    lemma KernelNonzero(p: int)
      requires Valid() && IsPage(p) && Present(dirs[KERNEL], p)
      ensures Frame(dirs[KERNEL], p) > 0
    {
      if p !in temps {
        assert PageOk(dirs, owner, KERNEL, p);
        assert OwnerOk(dirs, temps, Frame(dirs[KERNEL], p), owner[Frame(dirs[KERNEL], p)]);
      }
    }

    /** `find_unmapped_page`: the first page from 1 on that is not mapped, 0 if all are. */
    method FindUnmappedPage() returns (r: int)
      requires Valid()
      ensures if r == 0 then AllMapped(dirs[KERNEL])
              else 1 <= r < PAGES && !Present(dirs[KERNEL], r) && forall p :: 1 <= p < r ==> Present(dirs[KERNEL], p)
    {
      var page := 1;
      while page < PAGES
        invariant 1 <= page <= PAGES
        invariant forall p :: 1 <= p < page ==> Present(dirs[KERNEL], p)
      {
        if Present(dirs[KERNEL], page) { KernelNonzero(page); }
        PhysicalAddressMeans(dirs[KERNEL], PAGE * page);
        if PhysicalAddress(dirs[KERNEL], PAGE * page) == 0 {
          return page;
        }
        page := page + 1;
      }
      return 0;
    }

    /** `request_physical_space` in the kernel directory: a window on the frame, at the address returned. */
    method OpenWindow(physical: int) returns (va: int)
      requires Valid() && PAGE <= physical && physical / PAGE < 32 * frames.bits.Length && Has(frames.bits[..], physical / PAGE)
      modifies this`dirs, this`temps, frames.bits
      ensures Valid() && forall f :: 0 <= f < 32 * frames.bits.Length ==> Has(frames.bits[..], f) == old(Has(frames.bits[..], f))
      ensures va == 0 <==> old(AllMapped(dirs[KERNEL]))
      ensures va == 0 ==> dirs == old(dirs) && temps == old(temps)
      ensures va != 0 ==> PAGE <= va < TOP && va % PAGE == physical % PAGE && va / PAGE !in old(temps) && temps == old(temps) + {va / PAGE}
                          && !old(Present(dirs[KERNEL], va / PAGE))
                          && dirs == old(dirs)[KERNEL := Update(old(dirs[KERNEL]), va / PAGE, Entry(true, false, false, physical / PAGE))]
    {
      var index := FindUnmappedPage();
      if index == 0 {
        return 0;
      }
      var e := Entry(true, false, false, physical / PAGE);
      WindowKeeps(dirs, owner, temps, index, e);
      frames.SetBit(physical / PAGE, true);
      dirs := dirs[KERNEL := Update(dirs[KERNEL], index, e)];
      temps := temps + {index};
      va := index * PAGE + physical % PAGE;
    }

    /** `free_virtual_space(va, FALSE)`: the window closes, the frame stays in use. */
    method CloseWindow(va: int)
      requires Valid() && 0 <= va < TOP && va / PAGE in temps
      modifies this`dirs, this`temps
      ensures Valid() && temps == old(temps) - {va / PAGE}
      ensures dirs == old(dirs)[KERNEL := Update(old(dirs[KERNEL]), va / PAGE, old(Lookup(dirs[KERNEL], va / PAGE)).(present := false))]
    {
      var page := va / PAGE;
      var e := Lookup(dirs[KERNEL], page).(present := false);
      CloseKeeps(dirs, owner, temps, page, e);
      dirs := dirs[KERNEL := Update(dirs[KERNEL], page, e)];
      temps := temps - {page};
    }

    /** The allocation in `fork_page_dir`: the least free frame is marked used, for a directory not finished yet. */
    method TakeFrame() returns (f: int)
      requires Valid()
      modifies this`pending, frames.bits
      ensures Valid() && LeastMissing(old(frames.bits[..]), 0, f) && (f == NONE <==> old(Free()) == {})
      ensures f == NONE ==> pending == old(pending)
      ensures f != NONE ==> pending == old(pending) + {f} && f !in old(pending) && f !in owner && 0 < f < 32 * frames.bits.Length
    {
      f := frames.FirstFalseBit();
      LeastFree(f);
      if f != NONE {
        frames.SetBit(f, true);
        pending := pending + {f};
      }
    }

    /** A finished directory joins the others, with the frames taken for it. */
    method Adopt(c: int, child: Dir, ghost more: map<int, Owner>)
      requires Valid() && c !in dirs && more.Keys == pending && Consistent(dirs[c := child], owner + more, temps)
      modifies this`dirs, this`owner, this`pending
      ensures Valid() && pending == {} && dirs == old(dirs)[c := child] && owner == old(owner) + more
    {
      owner := owner + more;
      pending := {};
      dirs := dirs[c := child];
    }

    /** One page of a growth is given back. */
    method UndoPage(d: int, current: int, p0: int, i: int, ghost dirs0: map<int, Dir>, ghost owner0: map<int, Owner>)
      requires Valid() && d in dirs && IsProcess(d) && 0 <= p0 && 0 <= i && p0 + i < PAGES && current == PAGE * (p0 + i)
      requires Consistent(dirs0, owner0, temps) && d in dirs0 && dirs[BASE] == dirs0[BASE]
      requires RolledBack(dirs0[d], dirs[d], p0, i + 1, 32 * frames.bits.Length) && OnlyAdded(owner0, owner, d, p0, i + 1)
      modifies this`dirs, this`owner, frames.bits
      ensures Valid() && dirs.Keys == old(dirs.Keys) && forall c :: c in dirs && c != d ==> dirs[c] == old(dirs)[c]
      ensures RolledBack(dirs0[d], dirs[d], p0, i, 32 * frames.bits.Length) && OnlyAdded(owner0, owner, d, p0, i)
    {
      ghost var before, limit := dirs[d], 32 * frames.bits.Length;
      ReleaseLast(dirs, owner, temps, dirs0, owner0, d, p0, i, limit);
      assert current / PAGE == p0 + i && PageOk(dirs, owner, d, p0 + i);
      ReleasePage(d, current);
      forall p | IsPage(p) ensures RolledAt(dirs0[d], dirs[d], p0, i, limit, p) { assert RolledAt(dirs0[d], before, p0, i + 1, limit, p); }
    }

    /** The inner loop of `extend_heap`: gives back the n pages mapped so far. */
    method RollBack(d: int, um: int, n: int, end: int, ghost dirs0: map<int, Dir>, ghost owner0: map<int, Owner>)
      requires Valid() && d in dirs && IsProcess(d) && 0 <= um && um % PAGE == 0
      requires 0 <= n && end == um + PAGE * n && um / PAGE + n < PAGES
      requires Consistent(dirs0, owner0, temps) && d in dirs0 && dirs[BASE] == dirs0[BASE]
      requires Grown(dirs0[d], dirs[d], um / PAGE, n) && OnlyAdded(owner0, owner, d, um / PAGE, n)
      modifies this`dirs, this`owner, frames.bits
      ensures Valid() && dirs.Keys == old(dirs.Keys) && owner == owner0
      ensures forall c :: c in dirs && c != d ==> dirs[c] == old(dirs)[c]
      ensures SamePresent(dirs0[d], dirs[d]) && NewStale(dirs0[d], dirs[d], 32 * frames.bits.Length)
    {
      var p0 := um / PAGE;
      var current := end;
      var i := n - 1;
      GrownRolled(dirs0[d], dirs[d], p0, n, 32 * frames.bits.Length);
      while i >= 0
        invariant -1 <= i < n && current == PAGE * (p0 + i + 1)
        invariant Valid() && dirs.Keys == old(dirs.Keys)
        invariant forall c :: c in dirs && c != d ==> dirs[c] == old(dirs)[c]
        invariant RolledBack(dirs0[d], dirs[d], p0, i + 1, 32 * frames.bits.Length)
        invariant OnlyAdded(owner0, owner, d, p0, i + 1)
        decreases i
      {
        current := current - PAGE;
        UndoPage(d, current, p0, i, dirs0, owner0);
        i := i - 1;
      }
      AllRolledBack(dirs0[d], dirs[d], p0, 32 * frames.bits.Length);
      NothingAdded(owner0, owner, d, p0);
    }

    /** One page more, or no change. */
    method GrowPage(d: int, current: int, p0: int, i: int, ghost d0: Dir, ghost owner0: map<int, Owner>) returns (ok: bool)
      requires Valid() && d in dirs && IsProcess(d) && temps == {} && 0 <= p0 && 0 <= i && p0 + i < PAGES && current == PAGE * (p0 + i)
      requires Grown(d0, dirs[d], p0, i) && OnlyAdded(owner0, owner, d, p0, i)
      modifies this`dirs, this`owner, frames.bits
      ensures Valid() && dirs.Keys == old(dirs.Keys) && forall c :: c in dirs && c != d ==> dirs[c] == old(dirs)[c]
      ensures ok <==> !Present(d0, p0 + i) && old(Free()) != {}
      ensures ok ==> Grown(d0, dirs[d], p0, i + 1) && OnlyAdded(owner0, owner, d, p0, i + 1) && |Free()| == |old(Free())| - 1
      ensures !ok ==> dirs == old(dirs) && owner == old(owner)
    {
      assert current / PAGE == p0 + i;
      ghost var f;
      ok, f := RequestVirtualSpace(d, current, false, true);
    }

    /**
     * `extend_heap`: maps nbPages pages from um on, or nothing at all; a failure may leave stale addresses in entries that
     * are not present. The last page of the address space is always mapped (user code), so the loop cannot run past it.
     */
    method ExtendHeap(d: int, nbPages: int, um: int) returns (ok: bool)
      requires Valid() && d in dirs && IsProcess(d) && 0 < nbPages && 0 <= um < TOP && um % PAGE == 0
      requires Present(dirs[d], PAGES - 1) && temps == {}
      modifies this`dirs, this`owner, frames.bits
      ensures Valid() && dirs.Keys == old(dirs.Keys)
      ensures forall c :: c in dirs && c != d ==> dirs[c] == old(dirs)[c]
      ensures ok <==> Unmapped(old(dirs[d]), um / PAGE, nbPages) && nbPages <= |old(Free())|
      ensures ok ==> Grown(old(dirs[d]), dirs[d], um / PAGE, nbPages)
      ensures !ok ==> owner == old(owner) && SamePresent(old(dirs[d]), dirs[d]) && NewStale(old(dirs[d]), dirs[d], 32 * frames.bits.Length)
    {
      var p0 := um / PAGE;
      var current := um;
      var i := 0;
      while i < nbPages
        invariant 0 <= i <= nbPages && current == PAGE * (p0 + i) && p0 + i < PAGES
        invariant Valid() && dirs.Keys == old(dirs.Keys)
        invariant forall c :: c in dirs && c != d ==> dirs[c] == old(dirs)[c]
        invariant Grown(old(dirs[d]), dirs[d], p0, i) && OnlyAdded(old(owner), owner, d, p0, i)
        invariant |Free()| == |old(Free())| - i
      {
        var got := GrowPage(d, current, p0, i, old(dirs[d]), old(owner));
        if !got {
          RollBack(d, um, i, current, old(dirs), old(owner));
          return false;
        }
        current := current + PAGE;
        i := i + 1;
      }
      return true;
    }
  }

  /** There are n pages from p0 on, and none is mapped. */
  ghost predicate Unmapped(d: Dir, p0: int, n: int)
  {
    p0 + n <= PAGES && forall p :: p0 <= p < p0 + n && IsPage(p) ==> !Present(d, p)
  }

  /** A page that user programs may read and write. */
  ghost predicate UserEntry(e: Entry) { e.present && e.user && e.rw }

  /** Directory r is d with n user pages added from p0 on, where d had none. */
  ghost predicate Grown(d: Dir, r: Dir, p0: int, n: int)
  {
    forall p :: IsPage(p) ==>
      if p0 <= p < p0 + n then !Present(d, p) && UserEntry(Lookup(r, p)) else Lookup(r, p) == Lookup(d, p)
  }

  /** Of n pages added from p0 on and of some given back since, nothing but stale addresses is left. */
  ghost predicate RolledBack(d: Dir, r: Dir, p0: int, n: int, limit: int)
  {
    forall p {:trigger RolledAt(d, r, p0, n, limit, p)} :: IsPage(p) ==> RolledAt(d, r, p0, n, limit, p)
  }

  ghost predicate RolledAt(d: Dir, r: Dir, p0: int, n: int, limit: int, p: int)
    requires IsPage(p)
  {
    if p0 <= p < p0 + n then !Present(d, p) && Present(r, p)
    else Lookup(r, p) == Lookup(d, p) || (!Present(d, p) && !Present(r, p) && 0 <= Frame(r, p) < limit)
  }

  /** Entries differ only where no page is present, and name frames below the limit there. */
  ghost predicate NewStale(d: Dir, r: Dir, limit: int)
  {
    forall p :: IsPage(p) ==> Lookup(r, p) == Lookup(d, p) || (!Present(r, p) && 0 <= Frame(r, p) < limit)
  }

  lemma GrownRolled(d: Dir, r: Dir, p0: int, n: int, limit: int)
    requires Grown(d, r, p0, n)
    ensures RolledBack(d, r, p0, n, limit)
  {
    forall p | IsPage(p) ensures RolledAt(d, r, p0, n, limit, p) {}
  }

  lemma AllRolledBack(d: Dir, r: Dir, p0: int, limit: int)
    requires RolledBack(d, r, p0, 0, limit)
    ensures SamePresent(d, r) && NewStale(d, r, limit)
  {
    forall p | IsPage(p) ensures Lookup(r, p) == Lookup(d, p) || (!Present(d, p) && !Present(r, p) && 0 <= Frame(r, p) < limit) {
      assert RolledAt(d, r, p0, 0, limit, p);
    }
  }

  /** Compared with `owner`, the new frames all belong to pages p0 .. p0 + n of process d. */
  ghost predicate OnlyAdded(owner: map<int, Owner>, owner': map<int, Owner>, d: int, p0: int, n: int)
  {
    && (forall f :: f in owner ==> f in owner' && owner'[f] == owner[f])
    && (forall f :: f in owner' && f !in owner ==>
          owner'[f].Process? && owner'[f].dir == d && p0 <= owner'[f].page < p0 + n)
  }

  lemma NothingAdded(owner: map<int, Owner>, owner': map<int, Owner>, d: int, p0: int)
    requires OnlyAdded(owner, owner', d, p0, 0)
    ensures owner' == owner
  {
    assert forall f :: f in owner.Keys <==> f in owner'.Keys;
    assert owner'.Keys == owner.Keys;
    assert forall f :: f in owner ==> owner'[f] == owner[f];
  }

  /** Releasing the last added page takes exactly its frame away. */
  lemma ReleaseLast(dirs: map<int, Dir>, owner: map<int, Owner>, temps: set<int>,
                    dirs0: map<int, Dir>, owner0: map<int, Owner>, d: int, p0: int, i: int, limit: int)
    requires Consistent(dirs, owner, temps) && Consistent(dirs0, owner0, temps)
    requires d in dirs && d in dirs0 && IsProcess(d) && dirs[BASE] == dirs0[BASE]
    requires 0 <= p0 && 0 <= i && IsPage(p0 + i)
    requires RolledBack(dirs0[d], dirs[d], p0, i + 1, limit) && OnlyAdded(owner0, owner, d, p0, i + 1)
    ensures Own(dirs, d, p0 + i)
    ensures OnlyAdded(owner0, owner - {Frame(dirs[d], p0 + i)}, d, p0, i)
  {
    var p := p0 + i;
    assert RolledAt(dirs0[d], dirs[d], p0, i + 1, limit, p);
    assert PageOk(dirs, owner, d, p) && PageOk(dirs0, owner0, d, p);
    var f := Frame(dirs[d], p);
    forall g | g in owner0 ensures g != f { assert OwnerOk(dirs0, temps, g, owner0[g]); }
    forall g | g in owner && g != f && g !in owner0 ensures owner[g].page < p {
      assert OwnerOk(dirs, temps, g, owner[g]);
    }
  }
}
