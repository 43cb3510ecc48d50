/** What the users of the allocator see. */
module HeapClient {
  import opened Memory
  import opened HeapView
  import opened HeapImage
  import opened Heap

  /** The bytes of a live range are bytes between the headers of its block. */
  lemma LiveBytes(v: View, a: int, ptr: int, x: int)
    requires Tiled(v) && Heap.LiveAt(v, a, ptr) && ptr <= x < ptr + v.blocks[a].use.len
    ensures UsedByte(v, x)
  {
    assert Placed(v, a) && Inside(v, a, x);
  }

  /** A pointer belongs to one block only. */
  lemma LiveUnique(v: View, a: int, b: int, ptr: int)
    requires Tiled(v) && Heap.LiveAt(v, a, ptr) && Heap.LiveAt(v, b, ptr)
    ensures a == b
  {
    assert Placed(v, a) && Placed(v, b) && Clear(v, a, b) && Clear(v, b, a);
  }

  function Overwritten(s: seq<Byte>, i: int, b: Byte): (r: seq<Byte>)
    requires 0 <= i < |s|
    ensures |r| == |s|
  {
    s[i := b]
  }

  /** Memory m holds the buffer s at ptr, which the block at a was allocated for. */
  ghost predicate Holds(m: Mem, v: View, a: int, ptr: int, s: seq<Byte>)
  {
    && Heap.LiveAt(v, a, ptr) && v.blocks[a].use.len == |s|
    && 0 < ptr && ptr + |s| <= |m| && m[ptr..ptr + |s|] == s
  }

  /** Every live pointer names a buffer of its length; `home` gives its block. */
  ghost predicate Represents(m: Mem, v: View, home: map<int, int>, buffers: map<int, seq<Byte>>)
  {
    && home.Keys == buffers.Keys
    && (forall p {:trigger Holds(m, v, home[p], p, buffers[p])} :: p in buffers ==> Holds(m, v, home[p], p, buffers[p]))
    && (forall a :: a in v.blocks && v.blocks[a].use.Used? ==> v.blocks[a].use.ptr in home && home[v.blocks[a].use.ptr] == a)
  }

  /** Blocks that stay used keep their buffers. */
  lemma HoldsFrame(m: Mem, r: Mem, v: View, w: View, a: int, ptr: int, s: seq<Byte>)
    requires Tiled(v) && Holds(m, v, a, ptr, s) && a in w.blocks && w.blocks[a] == v.blocks[a]
    requires |r| == |m| && forall x {:trigger UsedByte(v, x)} :: 0 <= x < |m| && UsedByte(v, x) ==> r[x] == m[x]
    ensures Holds(r, w, a, ptr, s)
  {
    forall x | ptr <= x < ptr + |s| ensures r[x] == m[x] { LiveBytes(v, a, ptr, x); }
    assert r[ptr..ptr + |s|] == m[ptr..ptr + |s|];
  }

  lemma RepresentsAlloc(m: Mem, r: Mem, v: View, w: View, home: map<int, int>, buffers: map<int, seq<Byte>>, c: int, ptr: int, len: int)
    requires Represents(m, v, home, buffers) && Tiled(v) && Tiled(w) && KeptUsed(m, r, v, w.end) && SameUsed(v, w, c)
    requires c in w.blocks && w.blocks[c].use == Used(ptr, len) && (c in v.blocks ==> !v.blocks[c].use.Used?)
    requires w.end <= |r|
    ensures ptr !in buffers && 0 < ptr && 0 <= len && ptr + len <= |r|
    ensures Represents(r, w, home[ptr := c], buffers[ptr := r[ptr..ptr + len]])
  {
    assert Placed(w, c);
    var home', buffers' := home[ptr := c], buffers[ptr := r[ptr..ptr + len]];
    forall p | p in buffers ensures p != ptr {
      assert Holds(m, v, home[p], p, buffers[p]);
      if p == ptr { LiveUnique(w, home[p], c, p); }
    }
    forall p | p in buffers' ensures Holds(r, w, home'[p], p, buffers'[p]) {
      if p != ptr {
        assert Holds(m, v, home[p], p, buffers[p]);
        HoldsFrame(m, r, v, w, home[p], p, buffers[p]);
      }
    }
  }

  lemma RepresentsFree(m: Mem, r: Mem, v: View, w: View, home: map<int, int>, buffers: map<int, seq<Byte>>, a: int, ptr: int)
    requires Represents(m, v, home, buffers) && Tiled(v) && Heap.LiveAt(v, a, ptr) && ptr in buffers
    requires Kept(m, r, SetUse(v, a, Loose)) && SameUsed(v, w, a) && (a in w.blocks ==> !w.blocks[a].use.Used?)
    ensures Represents(r, w, home - {ptr}, buffers - {ptr})
  {
    var home', buffers' := home - {ptr}, buffers - {ptr};
    assert home[ptr] == a;
    forall p | p in buffers' ensures Holds(r, w, home'[p], p, buffers'[p]) {
      assert Holds(m, v, home[p], p, buffers[p]);
      var b := home[p];
      assert b != a;
      forall x | p <= x < p + |buffers[p]| ensures r[x] == m[x] {
        assert Placed(v, b) && Inside(SetUse(v, a, Loose), b, x);
        assert Covered(SetUse(v, a, Loose), x);
      }
      assert r[p..p + |buffers[p]|] == m[p..p + |buffers[p]|];
    }
  }

  lemma RepresentsStore(m: Mem, r: Mem, v: View, home: map<int, int>, buffers: map<int, seq<Byte>>, ptr: int, i: int, b: Byte)
    requires Represents(m, v, home, buffers) && Tiled(v) && ptr in buffers && 0 <= i < |buffers[ptr]| && ptr + i < |m|
    requires 0 <= ptr && r == m[ptr + i := b]
    ensures Represents(r, v, home, buffers[ptr := Overwritten(buffers[ptr], i, b)])
  {
    var buffers' := buffers[ptr := Overwritten(buffers[ptr], i, b)];
    assert Holds(m, v, home[ptr], ptr, buffers[ptr]);
    var a := home[ptr];
    assert Placed(v, a);
    forall p | p in buffers' ensures Holds(r, v, home[p], p, buffers'[p]) {
      assert Holds(m, v, home[p], p, buffers[p]);
      if p == ptr {
        assert r[p..p + |buffers[p]|] == Overwritten(m[p..p + |buffers[p]|], i, b);
      } else {
        var c := home[p];
        assert Placed(v, c) && Clear(v, a, c) && Clear(v, c, a);
        assert r[p..p + |buffers[p]|] == m[p..p + |buffers[p]|];
      }
    }
  }

  /**
   * The heap as independent buffers: whatever is allocated, freed and written, each live pointer keeps
   * naming a buffer of the requested length that holds what was last stored in it.
   */
  class Arena {
    const heap: Heap
    ghost var home: map<int, int>
    ghost var buffers: map<int, seq<Byte>>

    ghost predicate Valid()
      reads this, heap, heap.mem, heap.vm, heap.vm.frames.bits
    {
      heap.Valid() && Represents(heap.mem[..], heap.v, home, buffers)
    }

    constructor (heap: Heap)
      requires heap.Valid() && forall a :: a in heap.v.blocks ==> !heap.v.blocks[a].use.Used?
      ensures Valid() && this.heap == heap && buffers == map[]
    {
      this.heap := heap;
      home, buffers := map[], map[];
    }

    /** A new pointer, aligned, with a buffer of its own, in a block hardly larger than needed; or nothing. */
    method Alloc(size: Word, alignment: Word) returns (ptr: int)
      requires Valid() && 0 < alignment && !Wraps(size, alignment)
      modifies this`home, this`buffers, heap`first, heap`v, heap`unallocated, heap.mem
      modifies heap.vm`dirs, heap.vm`owner, heap.vm.frames.bits
      ensures Valid() && (ptr == 0 <==> NoRoom(old(heap.v), old(heap.vm.dirs[heap.dir]), |old(heap.vm.Free())|, BlockSize(size, alignment)))
      ensures ptr == 0 ==> buffers == old(buffers)
      ensures ptr != 0 ==> ptr % alignment == 0 && ptr !in old(buffers) && ptr in buffers && |buffers[ptr]| == size
                           && buffers == old(buffers)[ptr := buffers[ptr]]
      ensures ptr != 0 ==> ptr in home && Served(old(heap.v), heap.v, home[ptr], size, alignment)
    {
      ghost var m0, v0 := heap.mem[..], heap.v;
      ghost var c;
      ptr, c := Obtain(heap, size, alignment);
      if ptr != 0 {
        RepresentsAlloc(m0, heap.mem[..], v0, heap.v, home, buffers, c, ptr, size);
        home, buffers := home[ptr := c], buffers[ptr := heap.mem[ptr..ptr + size]];
      }
    }

    /** Exactly one buffer goes. */
    method Free(ptr: int)
      requires Valid() && ptr in buffers
      modifies this`home, this`buffers, heap`first, heap`v, heap.mem
      ensures Valid() && buffers == old(buffers) - {ptr}
    {
      ghost var m0, v0 := heap.mem[..], heap.v;
      assert Holds(m0, v0, home[ptr], ptr, buffers[ptr]);
      ghost var a := Discard(heap, ptr);
      RepresentsFree(m0, heap.mem[..], v0, heap.v, home, buffers, a, ptr);
      home, buffers := home - {ptr}, buffers - {ptr};
    }

    /** One byte of one buffer changes. */
    method Store(ptr: int, i: int, b: Byte)
      requires Valid() && ptr in buffers && 0 <= i < |buffers[ptr]|
      modifies this`buffers, heap.mem
      ensures Valid() && buffers == old(buffers)[ptr := Overwritten(old(buffers)[ptr], i, b)]
    {
      ghost var v, m0 := heap.v, heap.mem[..];
      assert Holds(m0, v, home[ptr], ptr, buffers[ptr]);
      heap.mem[ptr + i] := b;
      ImageStore(m0, heap.mem[..], v, home[ptr], ptr + i);
      RepresentsStore(m0, heap.mem[..], v, home, buffers, ptr, i, b);
      buffers := buffers[ptr := Overwritten(buffers[ptr], i, b)];
    }

    /** What was stored is read. */
    method Load(ptr: int, i: int) returns (b: Byte)
      requires Valid() && ptr in buffers && 0 <= i < |buffers[ptr]|
      ensures b == buffers[ptr][i]
    {
      assert Holds(heap.mem[..], heap.v, home[ptr], ptr, buffers[ptr]);
      b := heap.mem[ptr + i];
    }

    /** One request; one that its caller may not make is passed over. `live` holds the lengths of the live buffers. */
    method Act(op: Op, live: map<int, int>) returns (live': map<int, int>)
      requires Valid() && Lengths(live, buffers)
      modifies this`home, this`buffers, heap`first, heap`v, heap`unallocated, heap.mem
      modifies heap.vm`dirs, heap.vm`owner, heap.vm.frames.bits
      ensures Valid() && Lengths(live', buffers) && Does(old(buffers), op, buffers)
      ensures op.Allocate? && 0 < op.alignment && !Wraps(op.size, op.alignment) ==>
                (buffers == old(buffers) <==> NoRoom(old(heap.v), old(heap.vm.dirs[heap.dir]), |old(heap.vm.Free())|, BlockSize(op.size, op.alignment)))
    {
      live' := live;
      match op {
        case Allocate(size, alignment) =>
          if 0 < alignment && !Wraps(size, alignment) {
            var ptr := Alloc(size, alignment);
            if ptr != 0 { live' := live[ptr := size]; }
          }
        case Release(ptr) =>
          if ptr in live {
            Free(ptr);
            live' := live - {ptr};
          }
        case Write(ptr, i, b) =>
          if ptr in live && 0 <= i < live[ptr] { Store(ptr, i, b); }
      }
    }

    /**
     * Over any run, each request does what it is for and touches no other buffer; so a buffer that is neither freed nor
     * written keeps its place and all its bytes.
     */
    method Run(ops: seq<Op>, live: map<int, int>) returns (live': map<int, int>, ghost t: seq<map<int, seq<Byte>>>)
      requires Valid() && Lengths(live, buffers)
      modifies this`home, this`buffers, heap`first, heap`v, heap`unallocated, heap.mem
      modifies heap.vm`dirs, heap.vm`owner, heap.vm.frames.bits
      ensures Valid() && Lengths(live', buffers) && IsRun(ops, t) && t[0] == old(buffers) && t[|ops|] == buffers
      ensures forall p :: p in old(buffers) && !Touched(ops, p) ==> p in buffers && buffers[p] == old(buffers)[p]
    {
      live', t := live, [buffers];
      var k := 0;
      while k < |ops|
        invariant 0 <= k <= |ops| && Valid() && Lengths(live', buffers)
        invariant IsRun(ops[..k], t) && t[0] == old(buffers) && t[k] == buffers
      {
        live' := Act(ops[k], live');
        RunGrows(ops[..k], t, ops[k], buffers);
        t := t + [buffers];
        assert ops[..k] + [ops[k]] == ops[..k + 1];
        k := k + 1;
      }
      assert ops[..k] == ops;
      forall p | p in old(buffers) && !Touched(ops, p) ensures p in buffers && buffers[p] == old(buffers)[p] { BufferStays(ops, t, p, |ops|); }
    }
  }

  /** `mem_alloc_aligned`, likewise. */
  method Obtain(heap: Heap, size: Word, alignment: Word) returns (ptr: int, ghost c: int)
    requires heap.Valid() && 0 < alignment && !Wraps(size, alignment)
    modifies heap`first, heap`v, heap`unallocated, heap.mem, heap.vm`dirs, heap.vm`owner, heap.vm.frames.bits
    ensures heap.Valid() && (ptr == 0 <==> NoRoom(old(heap.v), old(heap.vm.dirs[heap.dir]), |old(heap.vm.Free())|, BlockSize(size, alignment)))
    ensures ptr == 0 ==> heap.v == old(heap.v) && heap.mem[..] == old(heap.mem[..])
    ensures ptr != 0 ==> ptr % alignment == 0 && c in heap.v.blocks && heap.v.blocks[c].use == Used(ptr, size)
                         && (c in old(heap.v).blocks ==> !old(heap.v).blocks[c].use.Used?) && SameUsed(old(heap.v), heap.v, c)
    ensures ptr != 0 ==> KeptUsed(old(heap.mem[..]), heap.mem[..], old(heap.v), heap.v.end) && Served(old(heap.v), heap.v, c, size, alignment)
  {
    ptr, c := heap.MemAllocAligned(size, alignment);
  }

  /** `mem_free`, as far as bytes and buffers are concerned. */
  method Discard(heap: Heap, ptr: int) returns (ghost a: int)
    requires heap.Rep() && Sound(heap.v) && exists a :: Heap.LiveAt(heap.v, a, ptr)
    modifies heap`first, heap`v, heap.mem
    ensures heap.Rep() && Sound(heap.v) && heap.v.end == old(heap.v.end)
    ensures Heap.LiveAt(old(heap.v), a, ptr) && SameUsed(old(heap.v), heap.v, a) && (a in heap.v.blocks ==> IsFree(heap.v, a))
    ensures Kept(old(heap.mem[..]), heap.mem[..], SetUse(old(heap.v), a, Loose)) && Wider(SetUse(old(heap.v), a, Loose), heap.v)
  {
    a := heap.MemFree(ptr);
  }

  datatype Op = Allocate(size: Word, alignment: Word) | Release(ptr: int) | Write(ptr: int, i: int, b: Byte)
  {
    predicate Touches(p: int) { !Allocate? && ptr == p }
  }

  /** What a request does to the live buffers; one that its caller may not make does nothing. */
  ghost predicate Does(a: map<int, seq<Byte>>, op: Op, b: map<int, seq<Byte>>)
  {
    match op
    case Allocate(size, alignment) =>
      b == a || (0 < alignment && !Wraps(size, alignment) && exists p :: IsNew(a, b, p) && |b[p]| == size && p % alignment == 0)
    case Release(ptr) => b == a - {ptr}
    case Write(ptr, i, x) => if ptr in a && 0 <= i < |a[ptr]| then b == a[ptr := Overwritten(a[ptr], i, x)] else b == a
  }

  /** Pointer p is new, and all others are as before. */
  ghost predicate IsNew(a: map<int, seq<Byte>>, b: map<int, seq<Byte>>, p: int)
  {
    p != 0 && p !in a && p in b && b == a[p := b[p]]
  }

  ghost predicate IsRun(ops: seq<Op>, t: seq<map<int, seq<Byte>>>)
  {
    |t| == |ops| + 1 && forall k {:trigger NextOf(ops, t, k)} :: 0 <= k < |ops| ==> NextOf(ops, t, k)
  }

  ghost predicate NextOf(ops: seq<Op>, t: seq<map<int, seq<Byte>>>, k: int)
    requires |t| == |ops| + 1 && 0 <= k < |ops|
  {
    Does(t[k], ops[k], t[k + 1])
  }

  lemma RunGrows(ops: seq<Op>, t: seq<map<int, seq<Byte>>>, op: Op, b: map<int, seq<Byte>>)
    requires IsRun(ops, t) && Does(t[|ops|], op, b)
    ensures IsRun(ops + [op], t + [b])
  {
    forall k | 0 <= k < |ops + [op]| ensures NextOf(ops + [op], t + [b], k) { if k < |ops| { assert NextOf(ops, t, k); } }
  }

  ghost predicate Touched(ops: seq<Op>, p: int)
  {
    exists k :: 0 <= k < |ops| && ops[k].Touches(p)
  }

  /** Over a run, a buffer that no request touches stays. */
  lemma {:induction false} BufferStays(ops: seq<Op>, t: seq<map<int, seq<Byte>>>, p: int, k: nat)
    requires IsRun(ops, t) && p in t[0] && !Touched(ops, p) && k <= |ops|
    ensures p in t[k] && t[k][p] == t[0][p]
  {
    if k > 0 {
      BufferStays(ops, t, p, k - 1);
      assert NextOf(ops, t, k - 1) && !ops[k - 1].Touches(p);
    }
  }

  ghost predicate Lengths(live: map<int, int>, buffers: map<int, seq<Byte>>)
  {
    live.Keys == buffers.Keys && forall p :: p in live ==> live[p] == |buffers[p]|
  }

  /** A user's store leaves all headers and padding alone. */
  lemma ImageStore(m: Mem, r: Mem, v: View, a: int, x: int)
    requires Image(m, v) && Tiled(v) && a in v.blocks && v.blocks[a].use.Used? && |r| == |m|
    requires v.blocks[a].use.ptr <= x < v.blocks[a].use.ptr + v.blocks[a].use.len
    requires forall y :: 0 <= y < |m| && y != x ==> r[y] == m[y]
    ensures Image(r, v)
  {
    assert Placed(v, a) && Stored(m, a, v.blocks[a]);
    StoredFrame(m, r, a, v.blocks[a]);
    ImageAt(m, r, v, a, v.blocks[a]);
    assert v.(blocks := v.blocks[a := v.blocks[a]]) == v;
  }

  // ----- reading after freeing -----

  /** x lies in a block that is not used, outside its headers and pointers. */
  ghost predicate FreeByte(v: View, x: int)
  {
    exists h :: h in v.blocks && !v.blocks[h].use.Used? && Inside(v, h, x)
  }

  /** Freeing some block b leaves such bytes what they are. */
  lemma FreeByteStays(v: View, w: View, b: int, x: int)
    requires Tiled(v) && b in v.blocks && v.blocks[b].use.Used? && FreeByte(SetUse(v, b, Loose), x)
    requires Wider(SetUse(v, b, Loose), w) && SameUsed(v, w, b) && (b in w.blocks ==> IsFree(w, b))
    ensures Covered(SetUse(v, b, Loose), x) && FreeByte(w, x)
  {
    var u := SetUse(v, b, Loose);
    var h :| h in u.blocks && !u.blocks[h].use.Used? && Inside(u, h, x);
    assert Covered(u, x);
    forall c | c in v.blocks && c != h ensures !(c <= x < c + v.blocks[c].size) {
      assert Clear(v, c, h) && Clear(v, h, c);
    }
    var k :| Inside(w, k, x);
  }

  lemma FreeByteOther(v: View, b: int, x: int)
    requires b in v.blocks && v.blocks[b].use.Used? && FreeByte(v, x)
    ensures FreeByte(SetUse(v, b, Loose), x)
  {
    var h :| h in v.blocks && !v.blocks[h].use.Used? && Inside(v, h, x);
    assert Inside(SetUse(v, b, Loose), h, x);
  }

  ghost predicate Live(v: View, ptr: int) { exists a :: Heap.LiveAt(v, a, ptr) }

  lemma LiveStays(v: View, w: View, a: int, ptr: int, other: int)
    requires Heap.LiveAt(v, a, ptr) && SameUsed(v, w, a) && Live(v, other) && other != ptr
    ensures Live(w, other)
  {
    var b :| Heap.LiveAt(v, b, other);
    assert Heap.LiveAt(w, b, other);
  }

  /**
   * `resolve_exit_wait` frees the register block of the child and then its page tables and directory, and only
   * then reads a register from the freed block. From the third word on a freed block keeps its contents:
   * frees write headers, list pointers and end tags only.
   */
  method ReadAfterFrees(heap: Heap, regs: int, offset: int, others: seq<int>, ghost block: int) returns (value: Word)
    requires heap.Rep() && Sound(heap.v)
    requires Heap.LiveAt(heap.v, block, regs)
    requires 8 <= offset && offset + 4 <= heap.v.blocks[block].use.len
    requires forall i :: 0 <= i < |others| ==> Live(heap.v, others[i]) && others[i] != regs
    requires forall i, j :: 0 <= i < j < |others| ==> others[i] != others[j]
    modifies heap`first, heap`v, heap.mem
    ensures heap.Rep() && Sound(heap.v)
    ensures 0 <= regs + offset && regs + offset + 4 <= heap.mem.Length
    ensures value == old(GetWord(heap.mem[..], regs + offset))
  {
    ghost var m0, v0 := heap.mem[..], heap.v;
    assert Placed(v0, block);
    ghost var a := Discard(heap, regs);
    LiveUnique(v0, block, a, regs);
    forall x | regs + offset <= x < regs + offset + 4 ensures heap.mem[x] == m0[x] && FreeByte(heap.v, x) {
      assert Inside(SetUse(v0, a, Loose), a, x);
      FreeByteStays(v0, heap.v, a, x);
    }
    forall i | 0 <= i < |others| ensures Live(heap.v, others[i]) { LiveStays(v0, heap.v, a, regs, others[i]); }
    var k := 0;
    while k < |others|
      invariant 0 <= k <= |others|
      invariant heap.Rep() && Sound(heap.v)
      invariant forall i :: k <= i < |others| ==> Live(heap.v, others[i])
      invariant forall x :: regs + offset <= x < regs + offset + 4 ==> heap.mem[x] == m0[x] && FreeByte(heap.v, x)
    {
      ghost var v1 := heap.v;
      assert Live(v1, others[k]);
      ghost var b := Discard(heap, others[k]);
      forall x | regs + offset <= x < regs + offset + 4 ensures heap.mem[x] == m0[x] && FreeByte(heap.v, x) {
        FreeByteOther(v1, b, x);
        FreeByteStays(v1, heap.v, b, x);
      }
      forall i | k < i < |others| ensures Live(heap.v, others[i]) { LiveStays(v1, heap.v, b, others[k], others[i]); }
      k := k + 1;
    }
    SameBytesSameWord(m0, heap.mem[..], regs + offset);
    value := heap.ReadWord(regs + offset);
  }
}
