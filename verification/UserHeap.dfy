/** The heap calls of a process, with the allocator itself (syscall_malloc and syscall_free in src/syscall.c). */
module UserHeap {
  import opened Memory
  import opened HeapView
  import opened HeapImage
  import opened HeapOrder
  import opened ProcessTable
  import H = Heap
  import K = Kernel

  /** h is the heap of the running process: its pointers are the saved ones, its directory is that process's. */
  ghost predicate HeapOf(k: K.Kernel, h: H.Heap)
    reads k, h
  {
    IsPid(k.curr) && k.procs[k.curr].ctx.heap == Pointers(h.first, h.unallocated) && k.procs[k.curr].ctx.dir == h.dir
  }

  /** The kernel's own objects are not part of the heap. */
  ghost predicate Separate(k: K.Kernel, h: H.Heap)
    reads k, k.queues, h, h.vm
  {
    var parts: set<object> := {h, h.mem, h.vm, h.vm.frames.bits};
    parts !! k.queues.repr && k !in parts
  }

  /**
   * `syscall_malloc`: the process's own heap serves the request, with all that `mem_alloc` promises; afterwards the saved
   * pointers are again those of that heap, the kernel's are its own, and nobody else notices.
   */
  method SyscallMalloc(k: K.Kernel, h: H.Heap) returns (ptr: int, ghost c: int)
    requires k.Valid() && k.inKernel && k.procs[k.curr].state == Runnable && h.Valid() && HeapOf(k, h) && Separate(k, h)
    requires 0 <= k.procs[k.curr].ctx.regs.ebx < 0x1_0000_0000 && !H.Wraps(k.procs[k.curr].ctx.regs.ebx, 1)
    modifies k`procs, k`heap, k`dir, k`kernelHeap, h`first, h`v, h`unallocated, h.mem, h.vm`dirs, h.vm`owner, h.vm.frames.bits
    ensures k.Valid() && h.Valid() && HeapOf(k, h) && k.KernelPointers() == old(k.KernelPointers())
    ensures k.procs[k.curr].ctx.regs == old(k.procs)[k.curr].ctx.regs.(eax := ptr)
    ensures forall i :: IsPid(i) && i != k.curr ==> k.procs[i] == old(k.procs)[i]
    ensures ptr == 0 <==> H.NoRoom(old(h.v), old(h.vm.dirs[h.dir]), |old(h.vm.Free())|, H.BlockSize(old(k.procs)[k.curr].ctx.regs.ebx, 1))
    ensures ptr == 0 ==> h.v == old(h.v) && h.mem[..] == old(h.mem[..])
    ensures ptr != 0 ==> c in h.v.blocks && h.v.blocks[c].use == Used(ptr, old(k.procs)[k.curr].ctx.regs.ebx)
                         && SameUsed(old(h.v), h.v, c) && KeptUsed(old(h.mem[..]), h.mem[..], old(h.v), h.v.end)
    ensures ptr != 0 ==> H.Served(old(h.v), h.v, c, old(k.procs)[k.curr].ctx.regs.ebx, 1)
  {
    var size := k.procs[k.curr].ctx.regs.ebx;
    k.EnterHeap();
    ptr, c := Allocate(k, h, size);
    Answer(k, ptr);
  }

  /** `mem_alloc`, with the process's heap pointers and directory in place. */
  method Allocate(k: K.Kernel, h: H.Heap, size: Word) returns (ptr: int, ghost c: int)
    requires k.Core() && Separate(k, h) && h.Valid() && k.heap == Pointers(h.first, h.unallocated) && k.dir == h.dir && !H.Wraps(size, 1)
    modifies k`heap, h`first, h`v, h`unallocated, h.mem, h.vm`dirs, h.vm`owner, h.vm.frames.bits
    ensures k.Core() && h.Valid() && k.heap == Pointers(h.first, h.unallocated)
    ensures ptr == 0 <==> H.NoRoom(old(h.v), old(h.vm.dirs[h.dir]), |old(h.vm.Free())|, H.BlockSize(size, 1))
    ensures ptr == 0 ==> h.v == old(h.v) && h.mem[..] == old(h.mem[..])
    ensures ptr != 0 ==> c in h.v.blocks && h.v.blocks[c].use == Used(ptr, size)
                         && SameUsed(old(h.v), h.v, c) && KeptUsed(old(h.mem[..]), h.mem[..], old(h.v), h.v.end)
    ensures ptr != 0 ==> H.Served(old(h.v), h.v, c, size, 1)
  {
    ptr, c := h.MemAllocAligned(size, 1);
    k.heap := Pointers(h.first, h.unallocated);
  }

  /** Back in the kernel's heap, the result reaches the process. */
  method Answer(k: K.Kernel, ptr: int)
    requires k.Core() && k.inKernel && k.procs[k.curr].state == Runnable
    modifies k`procs, k`heap, k`dir
    ensures k.Valid() && k.heap == k.kernelHeap
    ensures var ctx := old(k.procs)[k.curr].ctx;
            k.procs == WithContext(old(k.procs), k.curr, ctx.(heap := old(k.heap), regs := ctx.regs.(eax := ptr)))
  {
    k.LeaveHeap();
    k.SetEax(ptr);
    assert k.procs == WithContext(old(k.procs), k.curr, k.procs[k.curr].ctx);
  }

  /** `syscall_free` of a live pointer. */
  method SyscallFree(k: K.Kernel, h: H.Heap) returns (ghost a: int)
    requires k.Valid() && k.inKernel && k.procs[k.curr].state == Runnable && h.Valid() && HeapOf(k, h) && Separate(k, h)
    requires exists a :: H.Heap.LiveAt(h.v, a, k.procs[k.curr].ctx.regs.ebx)
    modifies k`procs, k`heap, k`dir, k`kernelHeap, h`first, h`v, h.mem
    ensures k.Valid() && h.Valid() && HeapOf(k, h) && k.KernelPointers() == old(k.KernelPointers())
    ensures k.procs[k.curr].ctx.regs == old(k.procs)[k.curr].ctx.regs && forall i :: IsPid(i) && i != k.curr ==> k.procs[i] == old(k.procs)[i]
    ensures H.Heap.LiveAt(old(h.v), a, old(k.procs)[k.curr].ctx.regs.ebx) && SameUsed(old(h.v), h.v, a) && (a in h.v.blocks ==> IsFree(h.v, a))
    ensures FreedOrder(old(h.v), h.v, a)
  {
    var ptr := k.procs[k.curr].ctx.regs.ebx;
    k.EnterHeap();
    a := Release(k, h, ptr);
    k.LeaveHeap();
  }

  /** `mem_free`, likewise. */
  method Release(k: K.Kernel, h: H.Heap, ptr: int) returns (ghost a: int)
    requires k.Core() && Separate(k, h) && h.Valid() && k.heap == Pointers(h.first, h.unallocated) && k.dir == h.dir
    requires exists a :: H.Heap.LiveAt(h.v, a, ptr)
    modifies k`heap, h`first, h`v, h.mem
    ensures k.Core() && h.Valid() && k.heap == Pointers(h.first, h.unallocated)
    ensures H.Heap.LiveAt(old(h.v), a, ptr) && SameUsed(old(h.v), h.v, a) && (a in h.v.blocks ==> IsFree(h.v, a))
    ensures FreedOrder(old(h.v), h.v, a)
  {
    a := h.MemFree(ptr);
    k.heap := Pointers(h.first, h.unallocated);
  }
}
