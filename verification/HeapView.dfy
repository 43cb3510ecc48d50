/**
 * The heap as a set of blocks, without its bytes. `blocks` maps the address of each
 * block's header to its size (headers included) and its use.
 */
module HeapView {

  /**
   * A block is in the free list, with the two pointers stored in its header and its rank
   * in the list; or it was given to the user, who may use `len` bytes from `ptr`; or it
   * is on its way between the two.
   */
  datatype Use =
    | Free(prev: int, next: int, rank: int)
    | Used(ptr: int, len: int)
    | Loose

  datatype Block = Block(size: int, use: Use)

  /** `first` is first_free_block, `end` is unallocated_mem; every rank lies above `low` and below 0. */
  datatype View = View(start: int, end: int, first: int, blocks: map<int, Block>, low: int)

  const MIN_BLOCK := 16   // sizeof(header_free_t) + sizeof(end_header_t)

  // ----- the free list -----

  ghost predicate IsFree(v: View, a: int) { a in v.blocks && v.blocks[a].use.Free? }

  ghost predicate Node(v: View, a: int)
    requires IsFree(v, a)
  {
    var u := v.blocks[a].use;
    && 0 < a
    && v.low < u.rank < 0
    && (u.prev == 0 ==> v.first == a)
    && (u.prev != 0 ==> IsFree(v, u.prev) && v.blocks[u.prev].use.rank < u.rank && v.blocks[u.prev].use.next == a)
    && (u.next != 0 ==> IsFree(v, u.next) && u.rank < v.blocks[u.next].use.rank && v.blocks[u.next].use.prev == a)
  }

  /** Each free block agrees with its two neighbours; ranks increase along `next`; only the first has no `prev`. */
  ghost predicate Listed(v: View)
  {
    && (v.first != 0 ==> IsFree(v, v.first) && v.blocks[v.first].use.prev == 0)
    && v.low < 0
    && forall a {:trigger Node(v, a)} :: IsFree(v, a) ==> Node(v, a)
  }

  function WithNext(b: Block, n: int): Block
  {
    if b.use.Free? then b.(use := b.use.(next := n)) else b
  }

  function WithPrev(b: Block, p: int): Block
  {
    if b.use.Free? then b.(use := b.use.(prev := p)) else b
  }

  function SetNext(v: View, a: int, n: int): View
    requires a in v.blocks
  {
    v.(blocks := v.blocks[a := WithNext(v.blocks[a], n)])
  }

  function SetPrev(v: View, a: int, p: int): View
    requires a in v.blocks
  {
    v.(blocks := v.blocks[a := WithPrev(v.blocks[a], p)])
  }

  /** `remove`: the list without c. */
  ghost function Unlink(v: View, c: int): View
    requires Listed(v) && IsFree(v, c)
  {
    assert Node(v, c);
    var u := v.blocks[c].use;
    var v1 := if u.prev != 0 then SetNext(v, u.prev, u.next) else v.(first := u.next);
    var v2 := if u.next != 0 then SetPrev(v1, u.next, u.prev) else v1;
    v2.(blocks := v2.blocks[c := Block(v.blocks[c].size, Loose)])
  }

  /** `insert_after(c, 0)`: c in front of the list. */
  ghost function Push(v: View, c: int): View
    requires Listed(v) && c in v.blocks
  {
    var v1 := v.(blocks := v.blocks[c := Block(v.blocks[c].size, Free(0, v.first, v.low))]);
    (if v.first != 0 then SetPrev(v1, v.first, c) else v1).(first := c, low := v.low - 1)
  }

  lemma UnlinkNode(v: View, c: int, a: int)
    requires Listed(v) && IsFree(v, c) && IsFree(v, a) && a != c
    ensures IsFree(Unlink(v, c), a) && Node(Unlink(v, c), a)
  {
    assert Node(v, c) && Node(v, a);
    UnlinkUse(v, c, a);
    var u := v.blocks[a].use;
    if u.prev != 0 { assert Node(v, u.prev); UnlinkUse(v, c, u.prev); }
    if u.next != 0 { assert Node(v, u.next); UnlinkUse(v, c, u.next); }
    if v.blocks[c].use.prev == a && v.blocks[c].use.next != 0 { UnlinkUse(v, c, v.blocks[c].use.next); }
    if v.blocks[c].use.next == a && v.blocks[c].use.prev != 0 { UnlinkUse(v, c, v.blocks[c].use.prev); }
  }

  /** The pointers w of block a once a neighbour with pointers u has left. */
  function Closed(w: Use, u: Use, a: int): Use
    requires w.Free? && u.Free?
  {
    Free(if u.next == a then u.prev else w.prev, if u.prev == a then u.next else w.next, w.rank)
  }

  /** What becomes of another block's pointers. */
  lemma UnlinkUse(v: View, c: int, a: int)
    requires Listed(v) && IsFree(v, c) && IsFree(v, a)
    ensures a != c ==> IsFree(Unlink(v, c), a) && Unlink(v, c).blocks[a].use == Closed(v.blocks[a].use, v.blocks[c].use, a)
  {
    assert Node(v, c) && Node(v, a);
  }

  /** `remove` takes exactly c out of the list, whatever its position. */
  lemma UnlinkListed(v: View, c: int)
    requires Listed(v) && IsFree(v, c)
    ensures Listed(Unlink(v, c))
    ensures forall a :: IsFree(Unlink(v, c), a) <==> IsFree(v, a) && a != c
  {
    assert Node(v, c);
    var r := Unlink(v, c);
    forall a | IsFree(r, a) ensures Node(r, a) {
      UnlinkNode(v, c, a);
    }
  }

  /** `insert_after(c, 0)` adds exactly c. */
  lemma PushListed(v: View, c: int)
    requires Listed(v) && c in v.blocks && v.blocks[c].use.Loose? && 0 < c
    ensures Listed(Push(v, c))
    ensures forall a :: IsFree(Push(v, c), a) <==> IsFree(v, a) || a == c
  {
    if v.first != 0 { assert Node(v, v.first); }
    var r := Push(v, c);
    forall a | IsFree(r, a) ensures Node(r, a) {
      if a != c { assert Node(v, a); }
    }
  }

  // ----- the tiling -----

  ghost predicate Placed(v: View, a: int)
    requires a in v.blocks
  {
    var b := v.blocks[a];
    && v.start <= a && MIN_BLOCK <= b.size && b.size % 2 == 0
    && (a + b.size == v.end || (a + b.size < v.end && a + b.size in v.blocks))
    && (b.use.Used? ==> a + 4 <= b.use.ptr && 0 <= b.use.len && b.use.ptr + b.use.len <= a + b.size - 4)
  }

  ghost predicate Touch(v: View, p: int, a: int)
  {
    p in v.blocks && p + v.blocks[p].size == a
  }

  ghost predicate Follows(v: View, a: int)
  {
    a == v.start || exists p :: Touch(v, p, a)
  }

  ghost predicate Clear(v: View, a: int, b: int)
    requires a in v.blocks
  {
    a < b ==> a + v.blocks[a].size <= b
  }

  ghost predicate Disjoint(v: View)
  {
    forall a, b {:trigger Clear(v, a, b)} :: a in v.blocks && b in v.blocks ==> Clear(v, a, b)
  }

  /** Blocks of even size at least 16 tile the heap: each starts where another ends, and ends where one starts. */
  ghost predicate Tiled(v: View)
  {
    && 0 < v.start < v.end && v.start in v.blocks
    && Disjoint(v)
    && (forall a {:trigger Placed(v, a)} :: a in v.blocks ==> Placed(v, a))
    && (forall a {:trigger Follows(v, a)} :: a in v.blocks || a == v.end ==> Follows(v, a))
  }

  /** Two views whose blocks have the same addresses and sizes. */
  ghost predicate SameSizes(v: View, r: View)
  {
    && r.start == v.start && r.end == v.end && r.blocks.Keys == v.blocks.Keys
    && forall a :: a in v.blocks ==> r.blocks[a].size == v.blocks[a].size
  }

  lemma TiledUse(v: View, r: View)
    requires Tiled(v) && SameSizes(v, r)
    requires forall a :: a in v.blocks && r.blocks[a].use.Used? ==>
               r.blocks[a].use == v.blocks[a].use || UseFits(a, r.blocks[a])
    ensures Tiled(r)
  {
    forall a, b | a in r.blocks && b in r.blocks ensures Clear(r, a, b) {
      assert Clear(v, a, b);
    }
    forall a | a in r.blocks ensures Placed(r, a) {
      assert Placed(v, a);
    }
    forall a | a in r.blocks || a == r.end ensures Follows(r, a) {
      assert Follows(v, a);
      if a != v.start { var p :| Touch(v, p, a); assert Touch(r, p, a); }
    }
  }

  predicate UseFits(a: int, b: Block)
  {
    b.use.Used? ==> a + 4 <= b.use.ptr && 0 <= b.use.len && b.use.ptr + b.use.len <= a + b.size - 4
  }

  /** The block at a takes over the block behind it. */
  ghost function Absorb(v: View, a: int): View
    requires a in v.blocks && a + v.blocks[a].size in v.blocks
  {
    var n := a + v.blocks[a].size;
    v.(blocks := (v.blocks - {n})[a := v.blocks[a].(size := v.blocks[a].size + v.blocks[n].size)])
  }

  lemma AbsorbDisjoint(v: View, a: int)
    requires Tiled(v) && a in v.blocks && a + v.blocks[a].size in v.blocks
    ensures Disjoint(Absorb(v, a))
  {
    var n := a + v.blocks[a].size;
    var r := Absorb(v, a);
    forall b, c | b in r.blocks && c in r.blocks ensures Clear(r, b, c) {
      assert Clear(v, b, c) && Clear(v, n, c);
    }
  }

  lemma AbsorbPlaced(v: View, a: int, b: int)
    requires Tiled(v) && a in v.blocks && a + v.blocks[a].size in v.blocks && !v.blocks[a].use.Used? && b in Absorb(v, a).blocks
    ensures Placed(Absorb(v, a), b)
  {
    assert Placed(v, a) && Placed(v, a + v.blocks[a].size) && Placed(v, b);
    assert Clear(v, a, b) && Clear(v, b, a);
  }

  lemma AbsorbFollows(v: View, a: int, b: int)
    requires Tiled(v) && a in v.blocks && a + v.blocks[a].size in v.blocks && (b in Absorb(v, a).blocks || b == v.end)
    ensures Follows(Absorb(v, a), b)
  {
    var n := a + v.blocks[a].size;
    assert Placed(v, a) && Placed(v, n) && Follows(v, b);
    if b != v.start {
      var p :| Touch(v, p, b);
      assert Touch(Absorb(v, a), if p == n then a else p, b);
    }
  }

  lemma AbsorbTiled(v: View, a: int)
    requires Tiled(v) && a in v.blocks && a + v.blocks[a].size in v.blocks && !v.blocks[a].use.Used?
    ensures Tiled(Absorb(v, a))
  {
    var r := Absorb(v, a);
    AbsorbDisjoint(v, a);
    assert Placed(v, a) && Placed(v, v.start);
    forall b | b in r.blocks ensures Placed(r, b) { AbsorbPlaced(v, a, b); }
    forall b | b in r.blocks || b == r.end ensures Follows(r, b) { AbsorbFollows(v, a, b); }
  }

  /** The block at c is cut in two, the first part of the given size. */
  ghost function Carve(v: View, c: int, size: int): View
    requires c in v.blocks
  {
    v.(blocks := v.blocks[c := Block(size, Loose)][c + size := Block(v.blocks[c].size - size, Loose)])
  }

  lemma CarveTiled(v: View, c: int, size: int)
    requires Tiled(v) && c in v.blocks && size % 2 == 0
    requires MIN_BLOCK <= size <= v.blocks[c].size - MIN_BLOCK
    ensures Tiled(Carve(v, c, size)) && c + size !in v.blocks
  {
    var r := Carve(v, c, size);
    assert Placed(v, c);
    forall b | b in v.blocks ensures b != c + size { assert Clear(v, c, b); }
    forall b, d | b in r.blocks && d in r.blocks ensures Clear(r, b, d) {
      if b != c + size && d != c + size {
        assert Clear(v, b, d);
      } else if b != c + size {
        assert Clear(v, b, c) && Clear(v, c, b);
      } else if d != c + size {
        assert Clear(v, c, d);
      }
    }
    forall b | b in r.blocks ensures Placed(r, b) {
      if b != c + size { assert Placed(v, b); }
    }
    forall b | b in r.blocks || b == r.end ensures Follows(r, b) {
      if b == c + size {
        assert Touch(r, c, b);
      } else {
        assert Follows(v, b);
        if b != v.start {
          var p :| Touch(v, p, b);
          assert Touch(r, if p == c then c + size else p, b);
        }
      }
    }
  }

  /** The heap grows by one block at its end. */
  ghost function Grow(v: View, size: int): View
  {
    v.(blocks := v.blocks[v.end := Block(size, Loose)], end := v.end + size)
  }

  lemma GrowDisjoint(v: View, size: int)
    requires Tiled(v) && MIN_BLOCK <= size
    ensures Disjoint(Grow(v, size)) && v.end !in v.blocks
  {
    var r := Grow(v, size);
    forall a | a in v.blocks ensures a != v.end { assert Placed(v, a); }
    forall b, d | b in r.blocks && d in r.blocks ensures Clear(r, b, d) {
      if b != v.end { assert Placed(v, b); }
      if d != v.end { assert Placed(v, d); }
      if b != v.end && d != v.end { assert Clear(v, b, d); }
    }
  }

  lemma GrowTiled(v: View, size: int)
    requires Tiled(v) && size % 2 == 0 && MIN_BLOCK <= size
    ensures Tiled(Grow(v, size)) && v.end !in v.blocks
  {
    var r := Grow(v, size);
    GrowDisjoint(v, size);
    forall b | b in r.blocks ensures Placed(r, b) {
      if b != v.end { assert Placed(v, b); }
    }
    forall b | b in r.blocks || b == r.end ensures Follows(r, b) {
      if b == r.end {
        assert Touch(r, v.end, b);
      } else {
        assert Follows(v, b);
        if b != v.start { var p :| Touch(v, p, b); assert Placed(v, p); assert Touch(r, p, b); }
      }
    }
  }

  // ----- the allocator's steps -----

  ghost predicate Coalesced(v: View)
  {
    forall a :: IsFree(v, a) ==> !IsFree(v, Next(v, a))
  }

  ghost predicate Settled(v: View)
  {
    forall a :: a in v.blocks ==> !v.blocks[a].use.Loose?
  }

  /** What holds between calls: tiling, free list, no loose block, no two neighbouring free blocks. */
  ghost predicate Sound(v: View)
  {
    Tiled(v) && Listed(v) && Settled(v) && Coalesced(v)
  }

  ghost function SetUse(v: View, a: int, u: Use): View
    requires a in v.blocks
  {
    v.(blocks := v.blocks[a := v.blocks[a].(use := u)])
  }

  ghost function Next(v: View, a: int): int
    requires a in v.blocks
  {
    a + v.blocks[a].size
  }

  /** `merge_with_next` */
  ghost function MergeNext(v: View, a: int): View
    requires Listed(v) && a in v.blocks && v.blocks[a].size > 0
  {
    if IsFree(v, Next(v, a)) then Absorb(Unlink(v, Next(v, a)), a) else v
  }

  /** `remove` changes no size, and no use but pointers and c's own. */
  lemma UnlinkFrame(v: View, c: int)
    requires Listed(v) && IsFree(v, c)
    ensures SameSizes(v, Unlink(v, c))
    ensures forall a :: a in v.blocks && !v.blocks[a].use.Free? ==> Unlink(v, c).blocks[a] == v.blocks[a]
    ensures Unlink(v, c).blocks[c].use.Loose?
  {
    assert Node(v, c);
  }

  lemma PushFrame(v: View, c: int)
    requires Listed(v) && c in v.blocks && !IsFree(v, c)
    ensures SameSizes(v, Push(v, c))
    ensures forall a :: a in v.blocks && a != c && !v.blocks[a].use.Free? ==> Push(v, c).blocks[a] == v.blocks[a]
  {
  }

  /** Dropping a block that is in no list keeps the list. */
  lemma AbsorbListed(v: View, a: int)
    requires Listed(v) && a in v.blocks && Next(v, a) in v.blocks && v.blocks[Next(v, a)].use.Loose?
    requires Next(v, a) != a
    ensures Listed(Absorb(v, a))
    ensures forall b :: IsFree(Absorb(v, a), b) <==> IsFree(v, b)
  {
    var r := Absorb(v, a);
    forall b | IsFree(r, b) ensures Node(r, b) { assert Node(v, b); }
  }

  /** Some free blocks are gone; the others stay free, and the rest is as it was. */
  ghost predicate Shrunk(v: View, r: View)
  {
    && (forall b :: b in r.blocks ==> b in v.blocks && (IsFree(r, b) <==> IsFree(v, b)))
    && (forall b :: b in v.blocks && !IsFree(v, b) ==> b in r.blocks && r.blocks[b] == v.blocks[b])
  }

  /** What merging with the next block did: the next free block is gone, nothing else moved. */
  ghost predicate Merged(v: View, r: View, a: int)
    requires a in v.blocks
  {
    && (forall b :: IsFree(r, b) <==> IsFree(v, b) && b != Next(v, a))
    && Shrunk(v, r)
    && (forall b :: b in r.blocks && b != a ==> r.blocks[b].size == v.blocks[b].size)
    && r.start == v.start && r.end == v.end
    && a in r.blocks
    && Next(r, a) == if IsFree(v, Next(v, a)) then Next(v, Next(v, a)) else Next(v, a)
  }

  lemma MergeNextKeeps(v: View, a: int)
    requires Tiled(v) && Listed(v) && IsFree(v, a)
    ensures v.blocks[a].size > 0
    ensures Tiled(MergeNext(v, a)) && Listed(MergeNext(v, a))
    ensures Merged(v, MergeNext(v, a), a)
  {
    assert Placed(v, a);
    var n := Next(v, a);
    if IsFree(v, n) {
      UnlinkListed(v, n);
      UnlinkFrame(v, n);
      var u := Unlink(v, n);
      TiledUse(v, u);
      AbsorbTiled(u, a);
      AbsorbListed(u, a);
    }
  }

  /** No two free neighbours, except that x may touch a free block on either side. */
  ghost predicate CoalescedBut(v: View, x: int)
  {
    forall b :: IsFree(v, b) && b != x && Next(v, b) != x ==> !IsFree(v, Next(v, b))
  }

  /** ... on its left only. */
  ghost predicate CoalescedRight(v: View, x: int)
  {
    forall b :: IsFree(v, b) && Next(v, b) != x ==> !IsFree(v, Next(v, b))
  }

  lemma MergeForward(v: View, r: View, x: int)
    requires Tiled(v) && IsFree(v, x) && CoalescedBut(v, x) && Merged(v, r, x)
    ensures IsFree(r, x) && CoalescedRight(r, x)
  {
    assert Placed(v, x);
    var n := Next(v, x);
    forall b | IsFree(r, b) && Next(r, b) != x ensures !IsFree(r, Next(r, b)) {
      if b == x {
        if IsFree(v, n) { assert Placed(v, n); assert Next(r, x) == Next(v, n); }
      } else {
        assert Next(r, b) == Next(v, b);
      }
    }
  }

  /** The block before x is the only one that ends at x. */
  lemma TouchUnique(v: View, p: int, q: int, x: int)
    requires Tiled(v) && Touch(v, p, x) && Touch(v, q, x)
    ensures p == q
  {
    assert Placed(v, p) && Placed(v, q) && Clear(v, p, q) && Clear(v, q, p);
  }

  lemma MergeBack(v: View, r: View, p: int, x: int)
    requires Tiled(v) && IsFree(v, x) && IsFree(v, p) && Touch(v, p, x)
    requires CoalescedRight(v, x) && Merged(v, r, p)
    ensures IsFree(r, p) && Coalesced(r)
  {
    assert Placed(v, x) && Placed(v, p);
    forall b | IsFree(r, b) ensures !IsFree(r, Next(r, b)) {
      if b == p {
        assert Next(r, p) == Next(v, x);
      } else {
        assert Next(r, b) == Next(v, b);
        if Next(v, b) == x { TouchUnique(v, p, b, x); }
      }
    }
  }

  lemma NothingToMerge(v: View, x: int)
    requires Tiled(v) && IsFree(v, x) && CoalescedRight(v, x)
    requires x == v.start || exists p :: Touch(v, p, x) && !IsFree(v, p)
    ensures Coalesced(v)
  {
    forall b | IsFree(v, b) ensures !IsFree(v, Next(v, b)) {
      assert Placed(v, b);
      if Next(v, b) == x && x != v.start {
        var p :| Touch(v, p, x) && !IsFree(v, p);
        TouchUnique(v, p, b, x);
      }
    }
  }

  /** `merge`, with p the block before x if x is not the first block. */
  ghost function Merge(v: View, x: int, p: int): View
    requires Tiled(v) && Listed(v) && IsFree(v, x)
  {
    MergeNextKeeps(v, x);
    var v1 := MergeNext(v, x);
    if x != v.start && IsFree(v1, p) then MergeNextKeeps(v1, p); MergeNext(v1, p) else v1
  }

  lemma MergeKeeps(v: View, x: int, p: int)
    requires Tiled(v) && Listed(v) && IsFree(v, x) && CoalescedBut(v, x)
    requires x != v.start ==> Touch(v, p, x)
    ensures Tiled(Merge(v, x, p)) && Listed(Merge(v, x, p)) && Coalesced(Merge(v, x, p))
    ensures Shrunk(v, Merge(v, x, p))
  {
    MergeNextKeeps(v, x);
    var v1 := MergeNext(v, x);
    MergeForward(v, v1, x);
    if x != v.start {
      assert Placed(v, p);
      assert Touch(v1, p, x) by { assert Placed(v, x); }
      if IsFree(v1, p) {
        MergeNextKeeps(v1, p);
        MergeBack(v1, MergeNext(v1, p), p, x);
      } else {
        NothingToMerge(v1, x);
      }
    } else {
      NothingToMerge(v1, x);
    }
  }

  /** The used blocks other than x are the same in both views; with x == 0, all of them. */
  ghost predicate SameUsed(v: View, r: View, x: int)
  {
    && (forall b :: b in v.blocks && v.blocks[b].use.Used? && b != x ==> b in r.blocks && r.blocks[b] == v.blocks[b])
    && (forall b :: b in r.blocks && r.blocks[b].use.Used? && b != x ==> b in v.blocks && v.blocks[b] == r.blocks[b])
  }

  /** `mem_free` on blocks: a used block is put in front of the list and merged with its free neighbours. */
  ghost function Release(v: View, a: int, p: int): View
    requires Sound(v) && a in v.blocks && v.blocks[a].use.Used?
  {
    ReleaseReady(v, a);
    Merge(Push(SetUse(v, a, Loose), a), a, p)
  }

  lemma ReleaseReady(v: View, a: int)
    requires Sound(v) && a in v.blocks && v.blocks[a].use.Used?
    ensures var v1 := SetUse(v, a, Loose); Tiled(v1) && Listed(v1)
    ensures var v2 := Push(SetUse(v, a, Loose), a); Tiled(v2) && Listed(v2) && IsFree(v2, a) && CoalescedBut(v2, a) && SameSizes(v, v2)
    ensures var v2 := Push(SetUse(v, a, Loose), a); SameUsed(v, v2, a) && Settled(v2)
  {
    assert Placed(v, a);
    var v1 := SetUse(v, a, Loose);
    TiledUse(v, v1);
    forall b | IsFree(v1, b) ensures Node(v1, b) { assert Node(v, b); }
    PushListed(v1, a);
    PushFrame(v1, a);
    TiledUse(v1, Push(v1, a));
    var v2 := Push(v1, a);
    forall b | IsFree(v2, b) && b != a && Next(v2, b) != a ensures !IsFree(v2, Next(v2, b)) {
      assert IsFree(v, b) && Next(v2, b) == Next(v, b);
    }
  }

  /** Freeing keeps the heap sound and leaves every other used block as it was. */
  lemma ReleaseKeeps(v: View, a: int, p: int)
    requires Sound(v) && a in v.blocks && v.blocks[a].use.Used?
    requires a != v.start ==> Touch(v, p, a)
    ensures Sound(Release(v, a, p)) && SameUsed(v, Release(v, a, p), a)
    ensures a in Release(v, a, p).blocks ==> IsFree(Release(v, a, p), a)
  {
    ReleaseReady(v, a);
    var v2 := Push(SetUse(v, a, Loose), a);
    assert a != v.start ==> Touch(v2, p, a);
    MergeKeeps(v2, a, p);
    SettledShrunk(v2, Merge(v2, a, p));
    SameUsedShrunk(v, v2, Merge(v2, a, p), a);
  }

  lemma SettledShrunk(v: View, r: View)
    requires Shrunk(v, r) && Settled(v)
    ensures Settled(r)
  {
    forall b | b in r.blocks ensures !r.blocks[b].use.Loose? { assert b in v.blocks; }
  }

  lemma SameUsedShrunk(v: View, v2: View, r: View, a: int)
    requires Shrunk(v2, r) && SameUsed(v, v2, a) && IsFree(v2, a)
    ensures SameUsed(v, r, a)
  {
    forall b | b in r.blocks && r.blocks[b].use.Used? && b != a ensures b in v.blocks && v.blocks[b] == r.blocks[b] {
      assert b in v2.blocks && !IsFree(v2, b);
    }
  }

  /** The block c, first removed from the list, is given to the user, cut to `size` if the rest can stand alone. */
  ghost function Take(v: View, c: int, size: int, u: Use): View
    requires Sound(v) && IsFree(v, c) && size <= v.blocks[c].size && MIN_BLOCK <= size && size % 2 == 0
    requires UseFits(c, Block(size, u)) && u.Used?
  {
    if v.blocks[c].size - size >= MIN_BLOCK then
      CutReady(v, c, size, u);
      MergeNext(Push(Cut(v, c, size, u), c + size), c + size)
    else SetUse(Unlink(v, c), c, u)
  }

  ghost function Cut(v: View, c: int, size: int, u: Use): View
    requires Listed(v) && IsFree(v, c)
  {
    UnlinkFrame(v, c);
    SetUse(Carve(Unlink(v, c), c, size), c, u)
  }

  lemma CutReady(v: View, c: int, size: int, u: Use)
    requires Sound(v) && IsFree(v, c) && MIN_BLOCK <= size <= v.blocks[c].size - MIN_BLOCK && size % 2 == 0
    requires UseFits(c, Block(size, u)) && u.Used?
    ensures c + size !in v.blocks
    ensures Tiled(Cut(v, c, size, u)) && Listed(Cut(v, c, size, u))
    ensures Tiled(Push(Cut(v, c, size, u), c + size)) && Listed(Push(Cut(v, c, size, u), c + size))
  {
    UnlinkListed(v, c);
    UnlinkFrame(v, c);
    var v1 := Unlink(v, c);
    TiledUse(v, v1);
    CarveTiled(v1, c, size);
    var v2 := Cut(v, c, size, u);
    TiledUse(Carve(v1, c, size), v2);
    forall b | IsFree(v2, b) ensures Node(v2, b) { assert Node(v1, b); }
    assert Placed(v2, c);
    PushListed(v2, c + size);
    PushFrame(v2, c + size);
    TiledUse(v2, Push(v2, c + size));
  }

  /** What cutting the free block c did, the rest of it back in the list. */
  ghost predicate WasCut(v: View, r: View, c: int, size: int, u: Use)
    requires c in v.blocks
  {
    && (forall b :: IsFree(r, b) <==> (IsFree(v, b) && b != c) || b == c + size)
    && (forall b :: b in v.blocks && b != c ==> b in r.blocks && r.blocks[b].size == v.blocks[b].size)
    && (forall b :: b in v.blocks && b != c && !IsFree(v, b) ==> r.blocks[b] == v.blocks[b])
    && (forall b :: b in r.blocks ==> b in v.blocks || b == c + size)
    && c in r.blocks && r.blocks[c] == Block(size, u)
    && c + size in r.blocks && r.blocks[c + size].size == v.blocks[c].size - size
  }

  lemma CutEffect(v: View, c: int, size: int, u: Use)
    requires Listed(v) && IsFree(v, c) && c + size !in v.blocks && u.Used? && Listed(Cut(v, c, size, u)) && 0 < c + size
    ensures WasCut(v, Push(Cut(v, c, size, u), c + size), c, size, u)
  {
    UnlinkListed(v, c);
    UnlinkFrame(v, c);
    PushListed(Cut(v, c, size, u), c + size);
    PushFrame(Cut(v, c, size, u), c + size);
  }

  /** The rest of a cut block has no free neighbour: the final `merge_with_next` finds nothing. */
  lemma CutCoalesced(v: View, r: View, c: int, size: int, u: Use)
    requires Sound(v) && IsFree(v, c) && 0 < size < v.blocks[c].size && WasCut(v, r, c, size, u) && c + size !in v.blocks && u.Used?
    ensures Coalesced(r) && Settled(r) && SameUsed(v, r, c) && !IsFree(r, Next(r, c + size))
  {
    assert Placed(v, c);
    forall b | IsFree(r, b) ensures !IsFree(r, Next(r, b)) {
      if b == c + size {
        assert Next(r, b) == Next(v, c);
      } else {
        assert Placed(v, b) && Next(r, b) == Next(v, b);
      }
    }
    forall b | b in r.blocks && b != c && !IsFree(r, b) ensures b in v.blocks && r.blocks[b] == v.blocks[b] {
      assert IsFree(v, b) ==> IsFree(r, b);
    }
    forall b | b in r.blocks ensures !r.blocks[b].use.Loose? {
      assert !IsFree(r, b) && b != c ==> r.blocks[b] == v.blocks[b];
    }
    assert !IsFree(r, Next(r, c + size)) by { assert IsFree(r, c + size); }
  }

  /** Allocating keeps the heap sound, adds exactly one used block and leaves every other as it was. */
  lemma TakeKeeps(v: View, c: int, size: int, u: Use)
    requires Sound(v) && IsFree(v, c) && size <= v.blocks[c].size && MIN_BLOCK <= size && size % 2 == 0
    requires UseFits(c, Block(size, u)) && u.Used?
    ensures Sound(Take(v, c, size, u)) && SameUsed(v, Take(v, c, size, u), c)
    ensures c in Take(v, c, size, u).blocks && Take(v, c, size, u).blocks[c].use == u
  {
    if v.blocks[c].size - size >= MIN_BLOCK {
      CutReady(v, c, size, u);
      assert 0 < c + size by { assert Placed(v, c); }
      CutEffect(v, c, size, u);
      CutCoalesced(v, Push(Cut(v, c, size, u), c + size), c, size, u);
    } else {
      TakeWhole(v, c, u);
    }
  }

  /** How much of the block is given away: all of it only if the rest could not stand alone. */
  lemma TakeSize(v: View, c: int, size: int, u: Use)
    requires Sound(v) && IsFree(v, c) && size <= v.blocks[c].size && MIN_BLOCK <= size && size % 2 == 0
    requires UseFits(c, Block(size, u)) && u.Used?
    ensures c in Take(v, c, size, u).blocks && Cropped(v.blocks[c].size, size, Take(v, c, size, u).blocks[c].size)
  {
    if v.blocks[c].size - size >= MIN_BLOCK {
      CutReady(v, c, size, u);
      assert 0 < c + size by { assert Placed(v, c); }
      CutEffect(v, c, size, u);
      CutCoalesced(v, Push(Cut(v, c, size, u), c + size), c, size, u);
    } else {
      UnlinkFrame(v, c);
    }
  }

  /** Of a free block of size `all`, `given` bytes go to a request that needs `need`. */
  ghost predicate Cropped(all: int, need: int, given: int)
  {
    need <= given <= all && (given == need || given == all) && given < need + MIN_BLOCK && (given == all || MIN_BLOCK <= all - given)
  }

  lemma TakeWhole(v: View, c: int, u: Use)
    requires Sound(v) && IsFree(v, c) && UseFits(c, Block(v.blocks[c].size, u)) && u.Used?
    ensures c in Unlink(v, c).blocks
    ensures Sound(SetUse(Unlink(v, c), c, u)) && SameUsed(v, SetUse(Unlink(v, c), c, u), c)
  {
    UnlinkListed(v, c);
    UnlinkFrame(v, c);
    var v1 := Unlink(v, c);
    var r := SetUse(v1, c, u);
    TiledUse(v, r);
    ListedUse(v1, c, u);
    forall b | IsFree(r, b) ensures !IsFree(r, Next(r, b)) { assert Next(r, b) == Next(v, b); }
  }

  lemma UnlinkUsed(v: View, c: int)
    requires Listed(v) && IsFree(v, c)
    ensures SameUsed(v, Unlink(v, c), c)
  {
    UnlinkFrame(v, c);
    UnlinkListed(v, c);
  }

  lemma CutUsed(v: View, c: int, size: int, u: Use)
    requires Listed(v) && IsFree(v, c) && c + size !in v.blocks
    ensures SameUsed(v, Cut(v, c, size, u), c)
  {
    UnlinkUsed(v, c);
  }

  /** A used block may be handed out at another address inside it. */
  lemma RefitKeeps(v: View, c: int, u: Use)
    requires Sound(v) && c in v.blocks && v.blocks[c].use.Used? && u.Used? && UseFits(c, v.blocks[c].(use := u))
    ensures Sound(SetUse(v, c, u)) && SameUsed(v, SetUse(v, c, u), c)
  {
    var r := SetUse(v, c, u);
    TiledUse(v, r);
    ListedUse(v, c, u);
    forall b | IsFree(r, b) ensures !IsFree(r, Next(r, b)) { assert Next(r, b) == Next(v, b) && IsFree(v, b); }
  }

  /** What a block outside the list is used for does not matter to the list. */
  lemma ListedUse(v: View, c: int, u: Use)
    requires Listed(v) && c in v.blocks && !IsFree(v, c) && !u.Free?
    ensures Listed(SetUse(v, c, u))
  {
    var r := SetUse(v, c, u);
    forall b | IsFree(r, b) ensures Node(r, b) { assert Node(v, b); }
  }

  /** `alloc_pages` on blocks: fresh memory at the end of the heap, merged with the last block p if that is free. */
  ghost function Extend(v: View, size: int, p: int): View
    requires Sound(v) && size % 2 == 0 && MIN_BLOCK <= size
  {
    ExtendReady(v, size);
    Merge(Push(Grow(v, size), v.end), v.end, p)
  }

  lemma ExtendReady(v: View, size: int)
    requires Sound(v) && size % 2 == 0 && MIN_BLOCK <= size
    ensures v.end !in v.blocks
    ensures var v1 := Grow(v, size); Tiled(v1) && Listed(v1)
    ensures var v2 := Push(Grow(v, size), v.end);
            Tiled(v2) && Listed(v2) && IsFree(v2, v.end) && CoalescedBut(v2, v.end) && SameUsed(v, v2, v.end) && Settled(v2)
  {
    GrowTiled(v, size);
    var v1 := Grow(v, size);
    forall b | IsFree(v1, b) ensures Node(v1, b) { assert Node(v, b); }
    PushListed(v1, v.end);
    PushFrame(v1, v.end);
    var v2 := Push(v1, v.end);
    TiledUse(v1, v2);
    forall b | IsFree(v2, b) && b != v.end && Next(v2, b) != v.end ensures !IsFree(v2, Next(v2, b)) {
      assert Next(v2, b) == Next(v, b);
    }
  }

  /** Growing keeps the heap sound and every used block; the block at the end is at least as large as asked. */
  lemma ExtendKeeps(v: View, size: int, p: int)
    requires Sound(v) && size % 2 == 0 && MIN_BLOCK <= size && Touch(v, p, v.end)
    ensures Sound(Extend(v, size, p)) && SameUsed(v, Extend(v, size, p), 0) && Extend(v, size, p).end == v.end + size
    ensures var x := if IsFree(v, p) then p else v.end;
            IsFree(Extend(v, size, p), x)
            && Extend(v, size, p).blocks[x].size == size + if IsFree(v, p) then v.blocks[p].size else 0
  {
    ExtendReady(v, size);
    var v2 := Push(Grow(v, size), v.end);
    assert Placed(v, p);
    PushFrame(Grow(v, size), v.end);
    assert Touch(v2, p, v.end);
    MergeKeeps(v2, v.end, p);
    SettledShrunk(v2, Merge(v2, v.end, p));
    SameUsedShrunk(v, v2, Merge(v2, v.end, p), v.end);
    assert v.end in Merge(v2, v.end, p).blocks ==> IsFree(v2, v.end);
    ExtendSize(v, v2, size, p);
  }

  lemma ExtendSize(v: View, v2: View, size: int, p: int)
    requires Tiled(v) && Touch(v, p, v.end) && Tiled(v2) && Listed(v2) && IsFree(v2, v.end) && Touch(v2, p, v.end)
    requires v2.start == v.start && v2.end == v.end + size && v2.blocks[v.end].size == size
    requires IsFree(v2, p) <==> IsFree(v, p)
    ensures var r := Merge(v2, v.end, p);
            var x := if IsFree(v, p) then p else v.end;
            r.end == v2.end && IsFree(r, x) && r.blocks[x].size == size + if IsFree(v, p) then v.blocks[p].size else 0
  {
    assert Placed(v2, v.end) && Placed(v2, p);
    MergeNextKeeps(v2, v.end);
    forall b | b in v2.blocks ensures b != v2.end { assert Placed(v2, b); }
    if IsFree(v2, p) { MergeNextKeeps(v2, p); }
  }

  // ----- what the invariants mean -----

  /** The blocks met by following `next` from a. */
  ghost function Walk(v: View, a: int): seq<int>
    requires Listed(v) && (a != 0 ==> IsFree(v, a))
    decreases if a == 0 then 0 else 1 - v.blocks[a].use.rank
  {
    if a == 0 then [] else
      assert Node(v, a);
      [a] + Walk(v, v.blocks[a].use.next)
  }

  lemma {:induction false} WalkClosed(v: View, a: int, y: int)
    requires Listed(v) && (a != 0 ==> IsFree(v, a)) && y in Walk(v, a)
    ensures IsFree(v, y)
    ensures a != 0 && v.blocks[a].use.rank <= v.blocks[y].use.rank
    ensures v.blocks[y].use.next != 0 ==> v.blocks[y].use.next in Walk(v, a)
    decreases if a == 0 then 0 else 1 - v.blocks[a].use.rank
  {
    assert Node(v, a);
    var n := v.blocks[a].use.next;
    if y != a {
      WalkClosed(v, n, y);
    } else if n != 0 {
      assert Walk(v, n)[0] == n;
    }
  }

  /** Every free block is met from the first one. */
  lemma {:induction false} WalkReaches(v: View, x: int)
    requires Listed(v) && IsFree(v, x)
    ensures x in Walk(v, v.first)
    decreases v.blocks[x].use.rank - v.low
  {
    assert Node(v, x);
    var p := v.blocks[x].use.prev;
    if p == 0 {
      assert Walk(v, v.first)[0] == x;
    } else {
      assert Node(v, p);
      WalkReaches(v, p);
      WalkClosed(v, v.first, p);
    }
  }

  /** None is met twice. */
  lemma {:induction false} WalkOnce(v: View, a: int, i: int, j: int)
    requires Listed(v) && (a != 0 ==> IsFree(v, a)) && 0 <= i < j < |Walk(v, a)|
    ensures Walk(v, a)[i] != Walk(v, a)[j]
    decreases if a == 0 then 0 else 1 - v.blocks[a].use.rank
  {
    assert Node(v, a);
    var n := v.blocks[a].use.next;
    if i == 0 {
      assert Walk(v, a)[j] == Walk(v, n)[j - 1];
      WalkClosed(v, n, Walk(v, n)[j - 1]);
    } else {
      WalkOnce(v, n, i - 1, j - 1);
    }
  }

  /** The free list visits each free block exactly once, and nothing else. */
  lemma FreeListExact(v: View)
    requires Listed(v)
    ensures forall x :: x in Walk(v, v.first) <==> IsFree(v, x)
    ensures forall i, j :: 0 <= i < j < |Walk(v, v.first)| ==> Walk(v, v.first)[i] != Walk(v, v.first)[j]
  {
    forall x | x in Walk(v, v.first) ensures IsFree(v, x) { WalkClosed(v, v.first, x); }
    forall x | IsFree(v, x) ensures x in Walk(v, v.first) { WalkReaches(v, x); }
    forall i, j | 0 <= i < j < |Walk(v, v.first)| ensures Walk(v, v.first)[i] != Walk(v, v.first)[j] {
      WalkOnce(v, v.first, i, j);
    }
  }

  /** x lies in the block at a. */
  ghost predicate InBlock(v: View, a: int, x: int)
  {
    a in v.blocks && a <= x < a + v.blocks[a].size
  }

  /** The blocks tile the heap: every address lies in exactly one of them. */
  lemma {:induction false} TilesExactly(v: View, x: int)
    requires Tiled(v) && v.start <= x < v.end
    ensures exists a :: InBlock(v, a, x)
    ensures forall a, b :: InBlock(v, a, x) && InBlock(v, b, x) ==> a == b
    decreases x
  {
    forall a, b | InBlock(v, a, x) && InBlock(v, b, x) ensures a == b {
      assert Clear(v, a, b) && Clear(v, b, a);
    }
    assert Placed(v, v.start);
    if x == v.start {
      assert InBlock(v, x, x);
    } else {
      TilesExactly(v, x - 1);
      var a :| InBlock(v, a, x - 1);
      assert Placed(v, a);
      if x < a + v.blocks[a].size {
        assert InBlock(v, a, x);
      } else {
        assert Placed(v, x);
        assert InBlock(v, x, x);
      }
    }
  }

  /** The ranges handed out are inside the heap and pairwise disjoint, headers and padding included. */
  lemma LiveRangesDisjoint(v: View, a: int, b: int)
    requires Tiled(v) && a in v.blocks && b in v.blocks && a != b
    requires v.blocks[a].use.Used? && v.blocks[b].use.Used?
    ensures var u, w := v.blocks[a].use, v.blocks[b].use;
            && v.start + 4 <= u.ptr && u.ptr + u.len <= v.end - 4
            && (u.ptr + u.len + 8 <= w.ptr || w.ptr + w.len + 8 <= u.ptr)
  {
    assert Placed(v, a) && Placed(v, b) && Clear(v, a, b) && Clear(v, b, a);
  }
}
