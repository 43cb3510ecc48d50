/** The allocator itself (src/malloc.c), on the memory of one process. */
module Heap {
  import opened Memory
  import opened HeapView
  import opened HeapImage
  import opened HeapOrder
  import opened PageDir
  import Paging

  // ----- 32-bit arithmetic (src/math.c) -----

  /** Unsigned 32-bit results wrap around. */
  function U32(n: int): Word { n % 0x1_0000_0000 }

  function Max(a: int, b: int): int { if a > b then a else b }

  function CeilMultiple(n: Word, k: Word): Word
    requires 0 < k
  {
    if n % k != 0 then U32(n - n % k + k) else n
  }

  function CeilRatio(a: Word, b: Word): int
    requires 0 < b
  {
    var q := a / b;
    if a == q * b then q else q + 1
  }

  /** The size of the block for a request, all headers and the worst padding included. */
  function BlockSize(size: Word, alignment: Word): Word
  {
    CeilMultiple(Max(U32(HEADER_USED + alignment - 1 + size + 4), HEADER_FREE + 4), 2)
  }

  /** The request is so large that its block size does not fit in 32 bits. */
  predicate Wraps(size: Word, alignment: Word)
  {
    size + alignment + 7 > 0xFFFF_FFFE
  }

  /** The computed size covers headers, padding and request exactly when nothing wraps around. */
  lemma BlockSizeCovers(size: Word, alignment: Word)
    ensures size + alignment + 7 <= BlockSize(size, alignment) <==> !Wraps(size, alignment)
    ensures !Wraps(size, alignment) ==> MIN_BLOCK <= BlockSize(size, alignment) <= Max(size + alignment + 8, MIN_BLOCK) && BlockSize(size, alignment) % 2 == 0
  {
    var n := size + alignment + 7;
    RoundUp(Max(U32(n), HEADER_FREE + 4));
  }

  lemma RoundUp(n: Word)
    ensures CeilMultiple(n, 2) == if n == 0xFFFF_FFFF then 0 else n + n % 2
  {
  }

  /** A request for 0xFFFFFFFF bytes is answered with a block of 16. */
  lemma WrapHappens()
    ensures Wraps(0xFFFF_FFFF, 1) && BlockSize(0xFFFF_FFFF, 1) == 16
  {
  }

  /** The result is the least multiple of k from n on exactly if that fits in 32 bits. */
  lemma CeilMultipleExact(n: Word, k: Word)
    requires 0 < k
    ensures n <= CeilMultiple(n, k) < n + k && CeilMultiple(n, k) % k == 0 <==> n % k == 0 || n - n % k + k < 0x1_0000_0000
  {
    if n % k != 0 {
      var r := n - n % k + k;
      if r < 0x1_0000_0000 {
        assert r == (n / k + 1) * k;
        MultipleMod(n / k + 1, k);
      } else {
        WrapsDown(r);
      }
    }
  }

  lemma WrapsDown(r: int)
    requires 0x1_0000_0000 <= r < 0x2_0000_0000
    ensures U32(r) == r - 0x1_0000_0000
  {
  }

  lemma CeilMultipleBounds(n: Word, k: Word)
    requires 0 < k && n + k <= 0x1_0000_0000
    ensures n <= CeilMultiple(n, k) < n + k && CeilMultiple(n, k) % k == 0
  {
    CeilMultipleExact(n, k);
  }

  lemma OnlyZero(q: int, d: int, r: int, k: int)
    requires q * k == d * k + r && 0 <= r < k
    ensures r == 0
  {
    var e := q - d;
    assert e * k == r;
    assert e > 0 ==> e * k >= k;
    assert e < 0 ==> e * k <= -k;
  }

  lemma MultipleMod(q: int, k: int)
    requires 0 < k
    ensures (q * k) % k == 0
  {
    var x := q * k;
    assert x == (x / k) * k + x % k;
    OnlyZero(q, x / k, x % k, k);
  }

  lemma CeilRatioBounds(a: Word, b: Word)
    requires 0 < a && 0 < b
    ensures 0 < CeilRatio(a, b) && b * (CeilRatio(a, b) - 1) < a <= b * CeilRatio(a, b)
  {
  }

  /** The block `malloc_new_state` sets up is a sound heap. */
  lemma NewHeap(m1: Mem, m: Mem, v: View)
    requires v.first == v.start && v.end == v.start + PAGE <= |m| == |m1| && 4 <= v.start && v.low == -2
    requires v.blocks == map[v.start := Block(PAGE, Free(0, 0, -1))]
    requires GetWord(m1, v.start) == Tag(PAGE, false) && GetWord(m1, v.start + PAGE - 4) == Tag(PAGE, false)
    requires m == PutWord(PutWord(m1, v.start + PREV, 0), v.start + NEXT, 0)
    ensures Sound(v) && Image(m, v)
  {
    assert Placed(v, v.start) && Node(v, v.start) && Touch(v, v.start, v.end);
    assert Clear(v, v.start, v.start);
    TagRoundTrip(0, PAGE, false);
    assert Stored(m, v.start, v.blocks[v.start]);
  }

  lemma PageMultiple(n: int)
    requires 0 < n
    ensures 0 < PAGE * n && PAGE * n % PAGE == 0
  {
  }

  lemma WholePages(u: int, bytes: int)
    requires u % PAGE == 0 && 0 < bytes && bytes % PAGE == 0
    ensures (u + bytes) % PAGE == 0 && bytes % 2 == 0 && MIN_BLOCK <= bytes
  {
  }

  /** The pages from address start to address end are mapped. */
  ghost predicate Backed(d: PageDir.Dir, start: int, end: int)
  {
    0 <= start <= end <= PageDir.TOP && forall p :: start / PAGE <= p < end / PAGE ==> PageDir.Present(d, p)
  }

  /** Exactly the pages from address end to address end' were added, for the user to read and write. */
  ghost predicate MorePages(d: PageDir.Dir, r: PageDir.Dir, end: int, end': int)
  {
    forall p :: PageDir.IsPage(p) ==>
      if end / PAGE <= p < end' / PAGE then !PageDir.Present(d, p) && Paging.UserEntry(PageDir.Lookup(r, p)) else PageDir.Lookup(r, p) == PageDir.Lookup(d, p)
  }

  lemma BackedAfter(d: PageDir.Dir, r: PageDir.Dir, start: int, end: int, n: int, ok: bool)
    requires Backed(d, start, end) && end % PAGE == 0 && 0 < n
    requires if ok then end / PAGE + n < PageDir.PAGES && Paging.Grown(d, r, end / PAGE, n) else Paging.SamePresent(d, r)
    ensures if ok then MorePages(d, r, end, end + PAGE * n) && Backed(r, start, end + PAGE * n) else Backed(r, start, end)
  {
    assert (end + PAGE * n) / PAGE == end / PAGE + n;
    forall p | start / PAGE <= p < end / PAGE + (if ok then n else 0) ensures PageDir.Present(r, p) {
      if p < end / PAGE { assert PageDir.Present(d, p); }
    }
  }

  /** The free bytes of the block at the end of the heap. */
  ghost function Spare(v: View, last: int): int
  {
    if IsFree(v, last) then v.blocks[last].size else 0
  }

  /** The least number of pages n that gives `size` bytes together with the last block: they are unmapped, and there are n frames. */
  ghost predicate Grows(v: View, d: PageDir.Dir, frames: nat, size: int, last: int, n: int)
  {
    && Touch(v, last, v.end) && PAGE * (n - 1) < size - Spare(v, last) <= PAGE * n
    && Paging.Unmapped(d, v.end / PAGE, n) && n <= frames
  }

  /** The heap can grow for a block of that size. */
  ghost predicate CanGrow(v: View, d: PageDir.Dir, frames: nat, size: int)
  {
    exists last, n {:trigger Grows(v, d, frames, size, last, n)} :: Grows(v, d, frames, size, last, n)
  }

  /** No free block is large enough, and the heap cannot grow either. */
  ghost predicate NoRoom(v: View, d: PageDir.Dir, frames: nat, size: int)
  {
    (forall a :: IsFree(v, a) ==> v.blocks[a].size < size) && !CanGrow(v, d, frames, size)
  }

  /** The list after the heap grew: its new end is in front, unless it joined the last block. */
  ghost function GrownOrder(v: View, last: int): seq<int>
    requires Listed(v)
  {
    (if IsFree(v, last) then [] else [v.end]) + Order(v)
  }

  /** The heap grew by n pages, as few as possible; with the block at its end, if that was free, they are block c now. */
  ghost predicate Added(v: View, w: View, size: int, last: int, n: int, c: int)
  {
    && Touch(v, last, v.end) && PAGE * (n - 1) < size - Spare(v, last) <= PAGE * n && w.end == v.end + PAGE * n
    && c == (if IsFree(v, last) then last else v.end) && c in w.blocks && w.blocks[c].size == Spare(v, last) + PAGE * n
    && Listed(v) && Listed(w) && Order(w) == GrownOrder(v, last)
  }

  /** Block c has room for `need` bytes: the first in the list that has, or the heap grew for it. */
  ghost predicate RoomFor(v: View, w: View, need: int, c: int)
    requires Listed(v)
  {
    if v == w then c != 0 && FirstFit(v, need, c)
    else FirstFit(v, need, 0) && exists last, n {:trigger Added(v, w, need, last, n, c)} :: Added(v, w, need, last, n, c)
  }

  /** The block c was found, then cropped. */
  lemma Taken(v: View, w: View, r: View, need: int, c: int)
    requires Listed(v) && RoomFor(v, w, need, c) && c in w.blocks && c in r.blocks && r.end == w.end
    requires Cropped(w.blocks[c].size, need, r.blocks[c].size) && Listed(w) && Listed(r)
    requires Order(r) == TakenOrder(Order(w), c, r.blocks[c].size, w.blocks[c].size)
    ensures FromList(v, r, need, c) || FromGrowth(v, r, need, c)
  {
    if v != w {
      var last, n :| Added(v, w, need, last, n, c);
      assert GrownFor(v, r, need, last, n, c);
    }
  }

  /** Block c was the first free one that was large enough, and is used as far as needed. */
  ghost predicate FromList(v: View, w: View, need: int, c: int)
    requires Listed(v)
  {
    && c != 0 && FirstFit(v, need, c) && w.end == v.end && c in w.blocks && Cropped(v.blocks[c].size, need, w.blocks[c].size)
    && Listed(w) && Order(w) == TakenOrder(Order(v), c, w.blocks[c].size, v.blocks[c].size)
  }

  /** No free block was large enough; block c was cut from the room the heap grew by, as little as possible. */
  ghost predicate FromGrowth(v: View, w: View, need: int, c: int)
    requires Listed(v)
  {
    FirstFit(v, need, 0) && exists last, n {:trigger GrownFor(v, w, need, last, n, c)} :: GrownFor(v, w, need, last, n, c)
  }

  ghost predicate GrownFor(v: View, w: View, need: int, last: int, n: int, c: int)
  {
    && Touch(v, last, v.end) && PAGE * (n - 1) < need - Spare(v, last) <= PAGE * n && w.end == v.end + PAGE * n
    && c == (if IsFree(v, last) then last else v.end) && c in w.blocks && Cropped(Spare(v, last) + PAGE * n, need, w.blocks[c].size)
    && Listed(v) && Listed(w) && Order(w) == TakenOrder(GrownOrder(v, last), c, w.blocks[c].size, Spare(v, last) + PAGE * n)
  }

  /** Block c is hardly larger than the request needs, and was cut from the first block that has the room, or from new pages. */
  ghost predicate Served(v: View, w: View, c: int, size: Word, alignment: Word)
    requires Listed(v)
  {
    && c in w.blocks && w.blocks[c].size < Max(size + alignment + 8, MIN_BLOCK) + MIN_BLOCK
    && (FromList(v, w, BlockSize(size, alignment), c) || FromGrowth(v, w, BlockSize(size, alignment), c))
  }

  lemma CannotGrow(v: View, d: PageDir.Dir, frames: nat, size: int, last: int, n: int)
    requires Tiled(v) && Touch(v, last, v.end) && PAGE * (n - 1) < size - Spare(v, last) <= PAGE * n
    requires !Grows(v, d, frames, size, last, n)
    ensures !CanGrow(v, d, frames, size)
  {
    forall last', n' ensures !Grows(v, d, frames, size, last', n') {
      if Touch(v, last', v.end) { TouchUnique(v, last', last, v.end); }
    }
  }

  class Heap {
    /** The process's address space, indexed by address. */
    const mem: array<Byte>
    const start: int              // START_OF_HEAP
    var first: int                // first_free_block
    var unallocated: int          // unallocated_mem

    const vm: Paging.Vm           // page directories and frames
    const dir: int                // the process's directory

    /** The blocks that the headers in memory describe. */
    ghost var v: View

    ghost predicate Rep()
      reads this, mem
    {
      && 4 <= start && v.start == start && v.first == first && v.end == unallocated
      && unallocated <= mem.Length <= 0x1_0000_0000
      && Tiled(v) && Listed(v) && Image(mem[..], v)
    }

    ghost predicate Valid()
      reads this, mem, vm, vm.frames.bits
    {
      && Rep() && Sound(v)
      && mem.Length == 0x1_0000_0000 && unallocated % PAGE == 0 && unallocated < mem.Length
      && vm.Valid() && vm.temps == {} && dir in vm.dirs && Paging.IsProcess(dir)
      && PageDir.Present(vm.dirs[dir], PageDir.PAGES - 1) && Backed(vm.dirs[dir], start, unallocated)
    }

    /** `malloc_new_state`: one free block of one page. The process has been set up before. */
    constructor (mem: array<Byte>, start: int, vm: Paging.Vm, dir: int)
      requires mem.Length == 0x1_0000_0000 && 0 < start && start % PAGE == 0 && start + PAGE < mem.Length
      requires vm.Valid() && vm.temps == {} && dir in vm.dirs && Paging.IsProcess(dir)
      requires PageDir.Present(vm.dirs[dir], PageDir.PAGES - 1) && PageDir.Present(vm.dirs[dir], start / PAGE)
      modifies mem
      ensures Valid() && this.mem == mem && this.start == start && this.vm == vm && this.dir == dir
      ensures v == View(start, start + PAGE, start, map[start := Block(PAGE, Free(0, 0, -1))], -2)
      ensures KeptUsed(old(mem[..]), mem[..], v, v.end)
    {
      this.mem, this.start, this.vm, this.dir := mem, start, vm, dir;
      first, unallocated := start, start + PAGE;
      v := View(start, start + PAGE, start, map[start := Block(PAGE, Free(0, 0, -1))], -2);
      new;
      FirstBlock();
      assert (start + PAGE) / PAGE == start / PAGE + 1;
    }

    method FirstBlock()
      requires mem.Length == 0x1_0000_0000 && 4 <= start && start + PAGE < mem.Length
      requires v == View(start, start + PAGE, start, map[start := Block(PAGE, Free(0, 0, -1))], -2)
      modifies mem
      ensures Sound(v) && Image(mem[..], v) && KeptUsed(old(mem[..]), mem[..], v, v.end)
    {
      SetBlock(start, PAGE, false);
      ghost var m1 := mem[..];
      WriteWord(start + PREV, 0);
      WriteWord(start + NEXT, 0);
      NewHeap(m1, mem[..], v);
    }

    // ----- memory accesses -----

    method ReadWord(a: int) returns (w: Word)
      requires 0 <= a && a + 4 <= mem.Length
      ensures w == GetWord(mem[..], a)
    {
      WordBytes(mem[..], a);
      w := Join(mem[a], mem[a + 1], mem[a + 2], mem[a + 3]);
    }

    method WriteWord(a: int, w: Word)
      requires 0 <= a && a + 4 <= mem.Length
      modifies mem
      ensures mem[..] == PutWord(old(mem[..]), a, w)
    {
      mem[a], mem[a + 1], mem[a + 2], mem[a + 3] := ByteOf(w, 0), ByteOf(w, 1), ByteOf(w, 2), ByteOf(w, 3);
    }

    /** `get_next_block`, 0 for NULL */
    method GetNextBlock(a: int) returns (n: int)
      requires Rep() && a in v.blocks
      ensures n == if Next(v, a) in v.blocks then Next(v, a) else 0
      ensures n == 0 || Next(v, a) in v.blocks
    {
      assert Placed(v, a) && Stored(mem[..], a, v.blocks[a]);
      TagRoundTrip(0, v.blocks[a].size, v.blocks[a].use.Used?);
      var w := ReadWord(a);
      n := a + TagSize(w);
      forall b | b in v.blocks ensures b < v.end { assert Placed(v, b); }
      if n >= unallocated { n := 0; }
    }

    /** `get_prev_block`: the size is read from the end tag of the block before. */
    method GetPrevBlock(a: int) returns (p: int)
      requires Rep() && (a in v.blocks || a == v.end)
      ensures a == v.start ==> p == 0
      ensures a != v.start ==> Touch(v, p, a)
    {
      assert Follows(v, a);
      forall b | Touch(v, b, a) ensures start + MIN_BLOCK <= a { assert Placed(v, b); }
      if a in v.blocks { assert Placed(v, a); }
      if a - 4 < start {
        return 0;
      }
      ghost var b :| Touch(v, b, a);
      assert Placed(v, b) && Stored(mem[..], b, v.blocks[b]);
      var w := ReadWord(a - 4);
      p := a - TagSize(w);
    }

    /** Whether the head of block a says "used". */
    method GetUsed(a: int) returns (used: bool)
      requires Rep() && a in v.blocks
      ensures used == v.blocks[a].use.Used?
    {
      assert Placed(v, a) && Stored(mem[..], a, v.blocks[a]);
      TagRoundTrip(0, v.blocks[a].size, v.blocks[a].use.Used?);
      var w := ReadWord(a);
      used := TagUsed(w);
    }

    method GetSize(a: int) returns (size: int)
      requires Rep() && a in v.blocks
      ensures size == v.blocks[a].size
    {
      assert Placed(v, a) && Stored(mem[..], a, v.blocks[a]);
      TagRoundTrip(0, v.blocks[a].size, v.blocks[a].use.Used?);
      var w := ReadWord(a);
      size := TagSize(w);
    }

    // ----- list operations -----

    /** `a->prev = p`, where w describes the memory. */
    method WritePrev(a: int, p: Word, ghost w: View)
      requires Image(mem[..], w) && Tiled(w) && w.end <= mem.Length && IsFree(w, a)
      modifies mem
      ensures Image(mem[..], SetPrev(w, a, p)) && Kept(old(mem[..]), mem[..], w)
    {
      SetPrevImage(mem[..], w, a, p);
      WriteWord(a + PREV, p);
    }

    /** `a->next = n` */
    method WriteNext(a: int, n: Word, ghost w: View)
      requires Image(mem[..], w) && Tiled(w) && w.end <= mem.Length && IsFree(w, a)
      modifies mem
      ensures Image(mem[..], SetNext(w, a, n)) && Kept(old(mem[..]), mem[..], w)
    {
      SetNextImage(mem[..], w, a, n);
      WriteWord(a + NEXT, n);
    }

    /** Both pointers of a block that enters the list at its front. */
    method WriteLinks(c: int, n: Word, ghost rank: int, ghost w: View)
      requires Image(mem[..], w) && Tiled(w) && w.end <= mem.Length && c in w.blocks && w.blocks[c].use.Loose?
      modifies mem
      ensures Image(mem[..], SetUse(w, c, Free(0, n, rank))) && Kept(old(mem[..]), mem[..], w)
    {
      LinkImage(mem[..], w, c, n, rank);
      WriteWord(c + NEXT, n);
      WriteWord(c + PREV, 0);
    }

    /** `remove` */
    method Remove(c: int)
      requires Rep() && IsFree(v, c)
      modifies this`first, this`v, mem
      ensures Rep() && v == Unlink(old(v), c)
      ensures Kept(old(mem[..]), mem[..], old(v)) && Wider(old(v), v)
    {
      ghost var v0, m0 := v, mem[..];
      assert Node(v, c) && Stored(mem[..], c, v.blocks[c]);
      var a := ReadWord(c + PREV);
      var b := ReadWord(c + NEXT);
      UnlinkReady(v, c);
      ghost var v1 := v;
      if a != 0 {
        WriteNext(a, b, v);
        v1 := SetNext(v, a, b);
      } else {
        first := b;
        v1 := v.(first := b);
      }
      ghost var m1 := mem[..];
      assert Image(m1, v1) && Kept(m0, m1, v0);
      assert SameSizes(v0, v1);
      TiledUse(v0, v1);
      ghost var v2 := v1;
      if b != 0 {
        WritePrev(b, a, v1);
        v2 := SetPrev(v1, b, a);
        WiderUse(v0, v1);
        KeptTrans(m0, m1, mem[..], v0, v1);
      }
      LooseImage(mem[..], v2, c);
      v := Unlink(v, c);
    }

    /** `insert_after(c, 0)` */
    method InsertFront(c: int)
      requires Rep() && c in v.blocks && v.blocks[c].use.Loose?
      modifies this`first, this`v, mem
      ensures Rep() && v == Push(old(v), c)
      ensures Kept(old(mem[..]), mem[..], old(v)) && Wider(old(v), v)
    {
      ghost var v0, m0 := v, mem[..];
      PushFacts(v, c);
      assert Placed(v, c);
      if first != 0 { assert Placed(v, first); }
      WriteLinks(c, first, v.low, v);
      ghost var m1 := mem[..];
      ghost var v1 := SetUse(v, c, Free(0, first, v.low));
      if first != 0 {
        WritePrev(first, c, v1);
        KeptTrans(m0, m1, mem[..], v0, v1);
      }
      first := c;
      v := Push(v, c);
    }

    // ----- blocks -----

    method SetSize(a: int, size: Word)
      requires 0 <= a && a + 4 <= mem.Length
      modifies mem
      ensures mem[..] == PutWord(old(mem[..]), a, WithSize(GetWord(old(mem[..]), a), size))
    {
      var w := ReadWord(a);
      WriteWord(a, WithSize(w, size));
    }

    /** `set_block`: the same tag at both ends. */
    method SetBlock(b: int, size: Word, used: bool)
      requires 0 <= b && 8 <= size && b + size <= mem.Length && size % 2 == 0
      modifies mem
      ensures IsBlockSet(old(mem[..]), mem[..], b, size, used)
    {
      ghost var m0 := mem[..];
      TagRoundTrip(GetWord(m0, b), size, used);
      SetSize(b, size);
      var w := ReadWord(b);
      WriteWord(b, WithUsed(w, used));
      w := ReadWord(b);
      WriteWord(b + TagSize(w) - 4, w);
    }

    /** `merge_with_next` */
    method MergeWithNext(a: int)
      requires Rep() && IsFree(v, a) && Settled(v)
      modifies this`first, this`v, mem
      ensures Settled(v)
      ensures old(v).blocks[a].size > 0 && v == MergeNext(old(v), a)
      ensures Rep() && Kept(old(mem[..]), mem[..], old(v)) && Wider(old(v), v)
    {
      ghost var v0, m0 := v, mem[..];
      assert Placed(v, a);
      MergeNextKeeps(v, a);
      SettledShrunk(v, MergeNext(v, a));
      WiderUse(v, v);
      var b := GetNextBlock(a);
      if b == 0 { return; }
      var used := GetUsed(b);
      if !used {
        UnlinkFrame(v, b);
        Remove(b);
        ghost var v1, m1 := v, mem[..];
        assert Placed(v, a) && Placed(v, b);
        var sizeA := GetSize(a);
        var sizeB := GetSize(b);
        var size := sizeA + sizeB;
        assert IsFree(v1, a) by { UnlinkListed(v0, b); }
        Resize(a, size);
        AbsorbImage(m1, mem[..], v1, a);
        AbsorbKept(m1, mem[..], v1, a);
        KeptTrans(m0, m1, mem[..], v0, v1);
        v := Absorb(v, a);
      }
    }

    /** The two `set_size` of `merge_with_next`. */
    method Resize(a: int, size: Word)
      requires 0 <= a && 8 <= size && a + size <= mem.Length && size % 2 == 0
      modifies mem
      ensures IsResized(old(mem[..]), mem[..], a, size)
    {
      ghost var m0 := mem[..];
      TagRoundTrip(GetWord(m0, a), size, false);
      TagRoundTrip(GetWord(m0, a + size - 4), size, false);
      SetSize(a, size);
      var w := ReadWord(a);
      SetSize(a + TagSize(w) - 4, size);
    }

    /** `merge`: the resulting block, and the block p that precedes x. */
    method MergeAround(x: int) returns (r: int, ghost p: int)
      requires Rep() && IsFree(v, x) && Settled(v)
      modifies this`first, this`v, mem
      ensures x != start ==> Touch(old(v), p, x)
      ensures Rep() && Settled(v) && v == Merge(old(v), x, p)
      ensures r == if x != start && IsFree(old(v), p) then p else x
      ensures Kept(old(mem[..]), mem[..], old(v)) && Wider(old(v), v)
    {
      ghost var v0, m0 := v, mem[..];
      assert Placed(v, x);
      MergeNextKeeps(v, x);
      MergeWithNext(x);
      ghost var v1, m1 := v, mem[..];
      var prev := GetPrevBlock(x);
      p := prev;
      r := x;
      if prev != 0 {
        assert Placed(v1, prev);
        assert Touch(v0, prev, x);
        var used := GetUsed(prev);
        if !used {
          MergeNextKeeps(v, prev);
          MergeWithNext(prev);
          KeptTrans(m0, m1, mem[..], v0, v1);
          r := prev;
        }
      }
    }

    // ----- free -----

    /** ptr is what the block at a was allocated for. */
    static ghost predicate LiveAt(v: View, a: int, ptr: int)
    {
      a in v.blocks && v.blocks[a].use.Used? && v.blocks[a].use.ptr == ptr
    }

    /** The backward scan of `mem_free`: over zero padding, up to the header's top byte, which holds the used bit. */
    method FindHeader(ptr: int) returns (block: int)
      requires Rep() && exists a :: LiveAt(v, a, ptr)
      ensures LiveAt(v, block, ptr)
    {
      ghost var a :| LiveAt(v, a, ptr);
      assert Placed(v, a) && Stored(mem[..], a, v.blocks[a]);
      TopByte(mem[..], a);
      var x := ptr - 1;
      while mem[x] == 0
        invariant a + 3 <= x < ptr
        decreases x
      {
        x := x - 1;
      }
      assert x == a + 3;
      x := x + 1;
      block := x - HEADER_USED;
    }

    /** `mem_free` once the header is found: the block joins the list and its free neighbours; p precedes it. */
    method FreeBlock(block: int) returns (ghost p: int)
      requires Rep() && Sound(v) && block in v.blocks && v.blocks[block].use.Used?
      modifies this`first, this`v, mem
      ensures Rep() && (block != start ==> Touch(old(v), p, block))
      ensures old(Sound(v)) && v == Release(old(v), block, p)
      ensures Kept(old(mem[..]), mem[..], SetUse(old(v), block, Loose)) && Wider(SetUse(old(v), block, Loose), v)
    {
      ghost var v0, m0 := v, mem[..];
      assert Placed(v, block) && Stored(mem[..], block, v.blocks[block]);
      ReleaseReady(v, block);
      ReleaseImage(mem[..], v, block);
      var w := ReadWord(block);
      WriteWord(block, WithUsed(w, false));
      v := SetUse(v, block, Loose);
      ghost var v1, m1 := v, mem[..];
      WiderLoose(v0, block);
      KeptNarrow(m0, m1, v1, v0);
      InsertFront(block);
      ghost var v2, m2 := v, mem[..];
      KeptTrans(m0, m1, m2, v1, v1) by { WiderUse(v1, v1); }
      var r;
      r, p := MergeAround(block);
      KeptTrans(m0, m2, mem[..], v1, v2);
      WiderTrans(v1, v2, v);
      assert block != start ==> Touch(v0, p, block);
    }

    /**
     * `mem_free`: the block a that ptr was allocated from is free now, alone or as part of a larger block.
     * In the list it comes first, unless it joined the block before it. Every other used block stays, and no byte changes
     * but headers, list pointers and end tags, the freed block counting as a free one.
     */
    method MemFree(ptr: int) returns (ghost a: int)
      requires Rep() && Sound(v) && exists a :: LiveAt(v, a, ptr)
      modifies this`first, this`v, mem
      ensures Rep() && Sound(v) && v.end == old(v.end)
      ensures LiveAt(old(v), a, ptr) && SameUsed(old(v), v, a) && (a in v.blocks ==> IsFree(v, a)) && FreedOrder(old(v), v, a)
      ensures Kept(old(mem[..]), mem[..], SetUse(old(v), a, Loose)) && Wider(SetUse(old(v), a, Loose), v)
    {
      var block := FindHeader(ptr);
      a := block;
      ghost var v0 := v;
      ghost var p := FreeBlock(block);
      ReleaseKeeps(v0, a, p);
      ReleaseOrder(v0, a, p);
    }

    // ----- allocation -----

    method FindBlock(size: int) returns (block: int)
      requires Rep()
      ensures FirstFit(v, size, block)
    {
      block := first;
      ghost var before: seq<int> := [];
      while block != 0
        invariant block != 0 ==> IsFree(v, block)
        invariant Walk(v, v.first) == before + Walk(v, block)
        invariant forall a :: a in before ==> IsFree(v, a) && v.blocks[a].size < size
        decreases if block == 0 then 0 else 1 - v.blocks[block].use.rank
      {
        assert Node(v, block) && Placed(v, block) && Stored(mem[..], block, v.blocks[block]);
        var s := GetSize(block);
        if s >= size {
          return;
        }
        before := before + [block];
        block := ReadWord(block + NEXT);
      }
      forall a | IsFree(v, a) ensures v.blocks[a].size < size { WalkReaches(v, a); }
    }

    /** How many pages `alloc_pages` asks for: what the last block, if free, does not provide. */
    method PagesNeeded(size: int) returns (nbPages: int, ghost last: int)
      requires Rep() && Sound(v) && MIN_BLOCK <= size < 0x1_0000_0000
      requires forall a :: IsFree(v, a) ==> v.blocks[a].size < size
      ensures Touch(v, last, v.end) && 0 < nbPages && PAGE * (nbPages - 1) < size - Spare(v, last) <= PAGE * nbPages
    {
      assert Placed(v, v.start);
      var block := GetPrevBlock(unallocated);
      last := block;
      assert Placed(v, last);
      var lastSize := GetSize(block);
      var used := GetUsed(block);
      if !used {
        assert IsFree(v, last) && lastSize < size;
        nbPages := CeilRatio(size - lastSize, PAGE);
        CeilRatioBounds(size - lastSize, PAGE);
      } else {
        nbPages := CeilRatio(size, PAGE);
        CeilRatioBounds(size, PAGE);
      }
    }

    /** The new pages become one block, which is in no list yet. */
    method Append(bytes: int)
      requires Rep() && Tiled(Grow(v, bytes)) && Listed(Grow(v, bytes))
      requires MIN_BLOCK <= bytes && bytes % 2 == 0 && v.end + bytes <= mem.Length
      modifies this`v, this`unallocated, mem
      ensures Rep() && v == Grow(old(v), bytes) && KeptUsed(old(mem[..]), mem[..], old(v), v.end)
    {
      ghost var m0 := mem[..];
      assert Placed(v, v.start);
      SetBlock(unallocated, bytes, false);
      GrowImage(m0, mem[..], v, bytes);
      KeptUsedGrow(m0, mem[..], v, v.end + bytes);
      v := Grow(v, bytes);
      unallocated := unallocated + bytes;
    }

    /** The rest of `alloc_pages`, once the pages are mapped. */
    method AddPages(bytes: int, ghost last: int) returns (block: int)
      requires Rep() && Sound(v) && Touch(v, last, v.end)
      requires MIN_BLOCK <= bytes && bytes % 2 == 0 && v.end + bytes <= mem.Length
      modifies this`first, this`v, this`unallocated, mem
      ensures Rep() && Sound(v) && old(Sound(v)) && v == Extend(old(v), bytes, last) && v.end == old(v.end) + bytes
      ensures block == if old(IsFree(v, last)) then last else old(v.end)
      ensures Order(v) == old(GrownOrder(v, last))
      ensures IsFree(v, block) && v.blocks[block].size == bytes + if old(IsFree(v, last)) then old(v.blocks[last].size) else 0
      ensures SameUsed(old(v), v, 0) && KeptUsed(old(mem[..]), mem[..], old(v), v.end)
    {
      ghost var v0, m0 := v, mem[..];
      assert Placed(v, v.start) && Placed(v, last);
      ExtendReady(v, bytes);
      ExtendKeeps(v, bytes, last);
      ExtendOrder(v, bytes, last);
      block := unallocated;
      Append(bytes);
      ghost var v1, m1 := v, mem[..];
      PushFrame(v1, block);
      InsertFront(block);
      ghost var v2, m2 := v, mem[..];
      ghost var p;
      block, p := MergeAround(block);
      TouchUnique(v2, p, last, v0.end);
      GrowKept(m0, m1, m2, mem[..], v0, v1, v2);
    }

    /** `alloc_pages`: a free block of at least `size` bytes at the end of the heap, or 0 and no change at all. */
    method AllocPages(size: int) returns (block: int, ghost last: int, ghost n: int)
      requires Valid() && MIN_BLOCK <= size < 0x1_0000_0000
      requires forall a :: IsFree(v, a) ==> v.blocks[a].size < size
      modifies this`first, this`v, this`unallocated, mem, vm`dirs, vm`owner, vm.frames.bits
      ensures Valid() && (block != 0 <==> CanGrow(old(v), old(vm.dirs[dir]), |old(vm.Free())|, size))
      ensures block == 0 ==> v == old(v) && mem[..] == old(mem[..]) && vm.owner == old(vm.owner)
                             && Paging.SamePresent(old(vm.dirs[dir]), vm.dirs[dir])
      ensures block != 0 ==> IsFree(v, block) && size <= v.blocks[block].size && SameUsed(old(v), v, 0)
      ensures block != 0 ==> Added(old(v), v, size, last, n, block)
      ensures block != 0 ==> v.end > old(v.end) && KeptUsed(old(mem[..]), mem[..], old(v), v.end)
      ensures block != 0 ==> MorePages(old(vm.dirs[dir]), vm.dirs[dir], old(v.end), v.end)
      ensures forall d :: d in old(vm.dirs) && d != dir ==> d in vm.dirs && vm.dirs[d] == old(vm.dirs)[d]
    {
      var nbPages;
      nbPages, last := PagesNeeded(size);
      n := nbPages;
      ghost var d0, frames := vm.dirs[dir], |vm.Free()|;
      var ok := MapPages(nbPages);
      if !ok {
        CannotGrow(v, d0, frames, size, last, nbPages);
        return 0, last, n;
      }
      assert Grows(v, d0, frames, size, last, nbPages);
      PageMultiple(nbPages);
      block := UsePages(PAGE * nbPages, last);
    }

    /** The new pages become heap. */
    method UsePages(bytes: int, ghost last: int) returns (block: int)
      requires Rep() && Sound(v) && Touch(v, last, v.end) && 0 < bytes && bytes % PAGE == 0
      requires mem.Length == 0x1_0000_0000 && unallocated % PAGE == 0 && unallocated + bytes < mem.Length
      modifies this`first, this`v, this`unallocated, mem
      ensures Rep() && Sound(v) && v.end == old(v.end) + bytes && unallocated % PAGE == 0 && block != 0
      ensures block == if old(IsFree(v, last)) then last else old(v.end)
      ensures Order(v) == old(GrownOrder(v, last))
      ensures IsFree(v, block) && v.blocks[block].size == bytes + if old(IsFree(v, last)) then old(v.blocks[last].size) else 0
      ensures SameUsed(old(v), v, 0) && KeptUsed(old(mem[..]), mem[..], old(v), v.end)
    {
      assert Placed(v, last) && Placed(v, v.start);
      WholePages(unallocated, bytes);
      block := AddPages(bytes, last);
    }

    /** `extend_heap`: the pages behind the heap are mapped, or nothing is. */
    method MapPages(nbPages: int) returns (ok: bool)
      requires Valid() && 0 < nbPages
      modifies vm`dirs, vm`owner, vm.frames.bits
      ensures vm.Valid() && dir in vm.dirs && PageDir.Present(vm.dirs[dir], PageDir.PAGES - 1)
      ensures forall d :: d in old(vm.dirs) && d != dir ==> d in vm.dirs && vm.dirs[d] == old(vm.dirs)[d]
      ensures ok <==> Paging.Unmapped(old(vm.dirs[dir]), unallocated / PAGE, nbPages) && nbPages <= |old(vm.Free())|
      ensures if ok
              then unallocated + PAGE * nbPages < mem.Length && MorePages(old(vm.dirs[dir]), vm.dirs[dir], unallocated, unallocated + PAGE * nbPages)
                   && Backed(vm.dirs[dir], start, unallocated + PAGE * nbPages)
              else vm.owner == old(vm.owner) && Paging.SamePresent(old(vm.dirs[dir]), vm.dirs[dir]) && Backed(vm.dirs[dir], start, unallocated)
    {
      ghost var d0 := vm.dirs[dir];
      ok := vm.ExtendHeap(dir, nbPages, unallocated);
      BackedAfter(d0, vm.dirs[dir], start, unallocated, nbPages, ok);
    }

    /** The front of a block just removed from the list becomes a used block, the rest goes back to the list. */
    method CutBlock(c: int, size: int, ghost v0: View)
      requires Rep() && Sound(v0) && IsFree(v0, c) && v == Unlink(v0, c) && c in v.blocks
      requires MIN_BLOCK <= size <= v0.blocks[c].size - MIN_BLOCK && size % 2 == 0
      modifies this`first, this`v, mem
      ensures Rep() && v == Take(v0, c, size, Used(c + 4, 0)) && v.end == old(v.end)
      ensures KeptUsed(old(mem[..]), mem[..], v0, v.end)
    {
      ghost var v1, m1 := v, mem[..];
      ghost var u := Used(c + 4, 0);
      UnlinkFrame(v0, c);
      assert Placed(v1, c);
      var all := GetSize(c);
      CutReady(v0, c, size, u);
      CutEffect(v0, c, size, u);
      CutCoalesced(v0, Push(Cut(v0, c, size, u), c + size), c, size, u);
      SetBlock(c, size, true);
      ghost var m2 := mem[..];
      var next := c + size;
      SetBlock(next, all - size, false);
      CarveImage(m1, m2, mem[..], v1, c, size);
      KeptUsedAt(m1, mem[..], v1, c);
      v := Cut(v0, c, size, u);
      ghost var v3, m3 := v, mem[..];
      InsertFront(next);
      ghost var v4, m4 := v, mem[..];
      MergeWithNext(next);
      CutKept(m1, m3, m4, mem[..], v0, c, size, u);
    }

    /** `remove`, then the split: the block (or its front) becomes a used one, without padding yet. */
    method GiveBlock(c: int, size: int)
      requires Rep() && Sound(v) && IsFree(v, c) && MIN_BLOCK <= size <= v.blocks[c].size && size % 2 == 0
      modifies this`first, this`v, mem
      ensures old(Sound(v)) && v == Take(old(v), c, size, Used(c + 4, 0))
      ensures Rep() && Sound(v) && v.end == old(v.end) && KeptUsed(old(mem[..]), mem[..], old(v), v.end)
    {
      ghost var v0, m0 := v, mem[..];
      TakeKeeps(v, c, size, Used(c + 4, 0));
      UnlinkFrame(v, c);
      UnlinkUsed(v, c);
      Remove(c);
      ghost var v1, m1 := v, mem[..];
      KeptUsedFrom(m0, m1, v0);
      assert Placed(v1, c);
      var all := GetSize(c);
      if all - size >= MIN_BLOCK {
        CutBlock(c, size, v0);
      } else {
        SetBlock(c, all, true);
        TakeImage(m1, mem[..], v1, c);
        KeptUsedAt(m1, mem[..], v1, c);
        KeptUsedTrans(m1, m1, mem[..], v0, v1, c, v0.end);
        v := SetUse(v1, c, Used(c + 4, 0));
      }
      KeptUsedTrans(m0, m1, mem[..], v0, v0, c, v0.end);
    }

    /** `mem_set` with 0. */
    method ZeroFill(from: int, to: int)
      requires 0 <= from <= to <= mem.Length
      modifies mem
      ensures forall x :: 0 <= x < mem.Length ==> mem[x] == if from <= x < to then 0 else old(mem[x])
    {
      var x := from;
      while x < to
        invariant from <= x <= to
        invariant forall y :: 0 <= y < mem.Length ==> mem[y] == if from <= y < x then 0 else old(mem[y])
      {
        mem[x] := 0;
        x := x + 1;
      }
    }

    /** The padding of a block just given away. */
    method PadBlock(c: int, alignment: Word, len: Word) returns (ptr: int)
      requires Rep() && Sound(v) && c in v.blocks && v.blocks[c].use == Used(c + 4, 0)
      requires 0 < alignment && len + alignment + 7 <= v.blocks[c].size
      modifies this`v, mem
      ensures Rep() && Sound(v) && v == SetUse(old(v), c, Used(ptr, len))
      ensures ptr % alignment == 0 && c + 4 <= ptr && ptr + len <= c + v.blocks[c].size - 4
      ensures forall x :: 0 <= x < mem.Length && !(c + 4 <= x < ptr) ==> mem[x] == old(mem[x])
    {
      assert Placed(v, c);
      CeilMultipleBounds(c + HEADER_USED, alignment);
      ptr := CeilMultiple(c + HEADER_USED, alignment);
      ghost var m0 := mem[..];
      ZeroFill(c + HEADER_USED, ptr);
      PadImage(m0, mem[..], v, c, ptr, len);
      RefitKeeps(v, c, Used(ptr, len));
      v := SetUse(v, c, Used(ptr, len));
    }

    /** A free block that is large enough is given away, with padding. */
    method UseBlock(c: int, need: int, size: Word, alignment: Word) returns (ptr: int)
      requires Rep() && Sound(v) && IsFree(v, c) && MIN_BLOCK <= need <= v.blocks[c].size && need % 2 == 0
      requires 0 < alignment && size + alignment + 7 <= need
      modifies this`first, this`v, mem
      ensures Rep() && Sound(v) && v.end == old(v.end)
      ensures ptr % alignment == 0 && ptr != 0 && c in v.blocks && v.blocks[c].use == Used(ptr, size)
      ensures Cropped(old(v).blocks[c].size, need, v.blocks[c].size)
      ensures Order(v) == TakenOrder(old(Order(v)), c, v.blocks[c].size, old(v).blocks[c].size)
      ensures SameUsed(old(v), v, c) && KeptUsed(old(mem[..]), mem[..], old(v), v.end)
    {
      ghost var v1, m1 := v, mem[..];
      TakeKeeps(v, c, need, Used(c + 4, 0));
      TakeSize(v, c, need, Used(c + 4, 0));
      TakeOrder(v, c, need, Used(c + 4, 0));
      GiveBlock(c, need);
      ghost var v2, m2 := v, mem[..];
      assert Placed(v2, c);
      ptr := PadBlock(c, alignment, size);
      RefitOrder(v2, c, Used(ptr, size));
      PadKept(m1, m2, mem[..], v1, v2, c, ptr);
    }

    /**
     * `mem_alloc_aligned`: NULL and no change, or a multiple of `alignment` from which `size` bytes lie between
     * the two headers of a block c that was not in use; every other used block stays, and its bytes too. The block is
     * cut from the first one in the list that is large enough, or else from the room the heap grew by, and holds no more
     * than the request needs unless what is left could not be a block.
     */
    method MemAllocAligned(size: Word, alignment: Word) returns (ptr: int, ghost c: int)
      requires Valid() && 0 < alignment && !Wraps(size, alignment)
      modifies this`first, this`v, this`unallocated, mem, vm`dirs, vm`owner, vm.frames.bits
      ensures Valid()
      ensures ptr == 0 <==> NoRoom(old(v), old(vm.dirs[dir]), |old(vm.Free())|, BlockSize(size, alignment))
      ensures ptr == 0 ==> v == old(v) && mem[..] == old(mem[..]) && vm.owner == old(vm.owner)
                           && Paging.SamePresent(old(vm.dirs[dir]), vm.dirs[dir])
      ensures ptr != 0 ==> ptr % alignment == 0 && c in v.blocks && v.blocks[c].use == Used(ptr, size)
                           && (c in old(v).blocks ==> !old(v).blocks[c].use.Used?) && SameUsed(old(v), v, c)
      ensures ptr != 0 ==> Served(old(v), v, c, size, alignment)
      ensures ptr != 0 ==> KeptUsed(old(mem[..]), mem[..], old(v), v.end)
      ensures ptr != 0 ==> MorePages(old(vm.dirs[dir]), vm.dirs[dir], old(v.end), v.end)
      ensures forall d :: d in old(vm.dirs) && d != dir ==> d in vm.dirs && vm.dirs[d] == old(vm.dirs)[d]
    {
      var need := BlockSize(size, alignment);
      BlockSizeCovers(size, alignment);
      ghost var v0, m0, d0 := v, mem[..], vm.dirs[dir];
      var block := FindRoom(need);
      c := block;
      if block == 0 {
        return 0, c;
      }
      ghost var v1, m1 := v, mem[..];
      ptr := UseBlock(block, need, size, alignment);
      Taken(v0, v1, v, need, c);
      KeptUsedTrans(m0, m1, mem[..], v0, v1, 0, v1.end) by {
        forall a | a in v0.blocks ensures a != 0 { assert Placed(v0, a); }
      }
      forall a | a in v1.blocks || a in v0.blocks ensures a != 0 {
        if a in v1.blocks { assert Placed(v1, a); } else { assert Placed(v0, a); }
      }
    }

    /** The first free block that is large enough, or one the heap grows by; 0 and no change if there is neither. */
    method FindRoom(need: int) returns (block: int)
      requires Valid() && MIN_BLOCK <= need < 0x1_0000_0000
      modifies this`first, this`v, this`unallocated, mem, vm`dirs, vm`owner, vm.frames.bits
      ensures Valid() && (block == 0 <==> NoRoom(old(v), old(vm.dirs[dir]), |old(vm.Free())|, need))
      ensures block == 0 ==> v == old(v) && mem[..] == old(mem[..]) && vm.owner == old(vm.owner)
                             && Paging.SamePresent(old(vm.dirs[dir]), vm.dirs[dir])
      ensures block != 0 ==> IsFree(v, block) && need <= v.blocks[block].size && RoomFor(old(v), v, need, block)
      ensures block != 0 ==> SameUsed(old(v), v, 0) && KeptUsed(old(mem[..]), mem[..], old(v), v.end)
      ensures block != 0 ==> MorePages(old(vm.dirs[dir]), vm.dirs[dir], old(v.end), v.end)
      ensures forall d :: d in old(vm.dirs) && d != dir ==> d in vm.dirs && vm.dirs[d] == old(vm.dirs)[d]
    {
      block := FindBlock(need);
      if block == 0 {
        ghost var v0 := v;
        ghost var last, n;
        block, last, n := AllocPages(need);
        assert block != 0 ==> Added(v0, v, need, last, n, block);
      }
    }
  }

  /** The list search of `mem_alloc_aligned`: the first free block, in list order, that is large enough. */
  ghost predicate FirstFit(v: View, size: int, c: int)
    requires Listed(v)
  {
    if c == 0 then forall a :: IsFree(v, a) ==> v.blocks[a].size < size
    else exists before: seq<int> :: IsFree(v, c) && size <= v.blocks[c].size
           && Walk(v, v.first) == before + Walk(v, c) && forall a :: a in before ==> IsFree(v, a) && v.blocks[a].size < size
  }

  lemma CutKept(m1: Mem, m3: Mem, m4: Mem, m5: Mem, v0: View, c: int, size: int, u: Use)
    requires Sound(v0) && IsFree(v0, c) && c + size !in v0.blocks && Listed(Cut(v0, c, size, u))
    requires var v3 := Cut(v0, c, size, u); var v4 := Push(v3, c + size);
             SameUsed(v0, v4, c) && v4.start == v0.start && v4.end == v0.end && v3.start == v0.start && v3.end == v0.end
             && KeptUsed(m1, m3, Unlink(v0, c), v0.end) && Kept(m3, m4, v3) && Kept(m4, m5, v4)
    ensures KeptUsed(m1, m5, v0, v0.end)
  {
    var v1, v3 := Unlink(v0, c), Cut(v0, c, size, u);
    var v4 := Push(v3, c + size);
    UnlinkUsed(v0, c);
    UnlinkFrame(v0, c);
    CutUsed(v0, c, size, u);
    KeptUsedFrom(m3, m4, v3);
    KeptUsedFrom(m4, m5, v4);
    KeptUsedTrans(m1, m1, m3, v0, v1, c, v0.end);
    KeptUsedTrans(m1, m3, m4, v0, v3, c, v0.end);
    KeptUsedTrans(m1, m4, m5, v0, v4, c, v0.end);
  }

  lemma PadKept(m1: Mem, m2: Mem, m3: Mem, v1: View, v2: View, c: int, ptr: int)
    requires Tiled(v1) && IsFree(v1, c) && KeptUsed(m1, m2, v1, v1.end)
    requires Tiled(v2) && SameUsed(v1, v2, c) && v2.start == v1.start && v2.end == v1.end
    requires c in v2.blocks && c + 4 <= ptr <= c + v2.blocks[c].size - 4 && v2.end <= |m2| == |m3|
    requires forall x :: 0 <= x < |m2| && !(c + 4 <= x < ptr) ==> m3[x] == m2[x]
    ensures KeptUsed(m1, m3, v1, v1.end)
  {
    assert Placed(v2, c) && Placed(v2, v2.start);
    forall x | 0 <= x < |m2| && UsedByte(v1, x) ensures m3[x] == m2[x] {
      var a :| a in v1.blocks && v1.blocks[a].use.Used? && Inside(v1, a, x);
      assert a in v2.blocks && Clear(v2, a, c) && Clear(v2, c, a);
    }
  }

  lemma GrowKept(m0: Mem, m1: Mem, m2: Mem, m3: Mem, v0: View, v1: View, v2: View)
    requires KeptUsed(m0, m1, v0, v1.end) && Kept(m1, m2, v1) && Kept(m2, m3, v2) && Wider(v1, v2)
    requires SameUsed(v0, v1, v0.end) && v1.start == v0.start && v0.end !in v0.blocks
    ensures KeptUsed(m0, m3, v0, v1.end)
  {
    KeptTrans(m1, m2, m3, v1, v2);
    KeptUsedFrom(m1, m3, v1);
    KeptUsedTrans(m0, m1, m3, v0, v1, v0.end, v1.end);
  }

  lemma UnlinkReady(v: View, c: int)
    requires Tiled(v) && Listed(v) && IsFree(v, c)
    ensures Tiled(Unlink(v, c)) && Listed(Unlink(v, c)) && Wider(v, Unlink(v, c))
  {
    UnlinkListed(v, c);
    UnlinkFrame(v, c);
    TiledUse(v, Unlink(v, c));
    WiderUse(v, Unlink(v, c));
  }

  /** Pushing a loose block changes neither the tiling nor the non-header bytes. */
  lemma PushFacts(v: View, c: int)
    requires Tiled(v) && Listed(v) && c in v.blocks && v.blocks[c].use.Loose?
    ensures 0 < c
    ensures Tiled(Push(v, c)) && Listed(Push(v, c)) && Wider(v, Push(v, c))
    ensures var v1 := SetUse(v, c, Free(0, v.first, v.low)); Tiled(v1) && Wider(v, v1)
  {
    assert Placed(v, c);
    PushListed(v, c);
    PushFrame(v, c);
    TiledUse(v, Push(v, c));
    WiderUse(v, Push(v, c));
    var v1 := SetUse(v, c, Free(0, v.first, v.low));
    TiledUse(v, v1);
    WiderUse(v, v1);
  }

  /** The used bit is in the last of the four bytes of a tag. */
  lemma TopByte(m: Mem, a: int)
    requires 0 <= a && a + 4 <= |m|
    ensures TagUsed(GetWord(m, a)) <==> m[a + 3] >= 0x80
  {
    WordBytes(m, a);
  }
}
