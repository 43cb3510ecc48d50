/** The order of the free list: what each step of the allocator makes of it as a sequence of blocks. */
module HeapOrder {
  import opened HeapView
  import opened Sequences

  /** The free blocks as a search meets them. */
  ghost function Order(v: View): seq<int>
    requires Listed(v)
  {
    Walk(v, v.first)
  }

  /** Views with the same free blocks, linked in the same way, are searched in the same order. */
  lemma {:induction false} WalkSame(v: View, w: View, a: int)
    requires Listed(v) && Listed(w) && (a != 0 ==> IsFree(v, a))
    requires forall b :: IsFree(v, b) ==> IsFree(w, b) && w.blocks[b].use.next == v.blocks[b].use.next
    ensures Walk(w, a) == Walk(v, a)
    decreases if a == 0 then 0 else 1 - v.blocks[a].use.rank
  {
    if a != 0 {
      assert Node(v, a);
      WalkSame(v, w, v.blocks[a].use.next);
    }
  }

  lemma ExceptSecond(x: int, c: int, q: seq<int>)
    requires x != c
    ensures Except([x] + ([c] + q), c) == [x] + Except(q, c)
  {
    ExceptFront(x, [c] + q, c);
    ExceptFront(c, q, c);
  }

  /** The block behind b once c has left. */
  ghost predicate SkipsOver(v: View, w: View, c: int, b: int)
    requires IsFree(v, b) && IsFree(v, c)
  {
    var n := v.blocks[b].use.next;
    IsFree(w, b) && w.blocks[b].use.next == if n == c then v.blocks[c].use.next else n
  }

  /** One step of the search. */
  lemma WalkStep(v: View, a: int, n: int)
    requires Listed(v) && IsFree(v, a) && n == v.blocks[a].use.next
    ensures a != 0 && v.blocks[a].use.rank < 0 && (n != 0 ==> IsFree(v, n) && v.blocks[a].use.rank < v.blocks[n].use.rank < 0)
    ensures Walk(v, a) == [a] + Walk(v, n)
  {
    assert Node(v, a);
    if n != 0 { assert Node(v, n); }
  }

  lemma KeepsFirst(v: View, w: View, c: int, a: int, n: int)
    requires Listed(v) && Listed(w) && IsFree(v, a) && IsFree(w, a) && a != c && n == v.blocks[a].use.next == w.blocks[a].use.next
    requires (n != 0 ==> IsFree(v, n) && IsFree(w, n)) && Walk(w, n) == Except(Walk(v, n), c)
    ensures Walk(w, a) == Except(Walk(v, a), c)
  {
    WalkStep(v, a, n);
    WalkStep(w, a, n);
    ExceptFront(a, Walk(v, n), c);
  }

  lemma LeavesOut(v: View, w: View, c: int, a: int, n: int)
    requires Listed(v) && Listed(w) && IsFree(v, a) && IsFree(w, a) && IsFree(v, c) && a != c && v.blocks[a].use.next == c
    requires n == v.blocks[c].use.next == w.blocks[a].use.next
    requires (n != 0 ==> IsFree(v, n) && IsFree(w, n)) && Walk(w, n) == Except(Walk(v, n), c)
    ensures Walk(w, a) == Except(Walk(v, a), c)
  {
    WalkStep(v, a, c);
    WalkStep(v, c, n);
    WalkStep(w, a, n);
    ExceptSecond(a, c, Walk(v, n));
  }

  lemma {:induction false} WalkWithout(v: View, w: View, c: int, a: int)
    requires Listed(v) && Listed(w) && IsFree(v, c) && a != c && (a != 0 ==> IsFree(v, a))
    requires forall b {:trigger SkipsOver(v, w, c, b)} :: IsFree(v, b) && b != c ==> SkipsOver(v, w, c, b)
    ensures (a != 0 ==> IsFree(w, a)) && Walk(w, a) == Except(Walk(v, a), c)
    decreases if a == 0 then 0 else 1 - v.blocks[a].use.rank
  {
    if a != 0 {
      assert SkipsOver(v, w, c, a);
      var n := v.blocks[a].use.next;
      WalkStep(v, a, n);
      if n == c {
        var m := v.blocks[c].use.next;
        WalkStep(v, c, m);
        WalkWithout(v, w, c, m);
        LeavesOut(v, w, c, a, m);
      } else {
        WalkWithout(v, w, c, n);
        KeepsFirst(v, w, c, a, n);
      }
    }
  }

  /** `remove` leaves the others in order. */
  lemma UnlinkOrder(v: View, c: int)
    requires Listed(v) && IsFree(v, c)
    ensures Listed(Unlink(v, c)) && Order(Unlink(v, c)) == Except(Order(v), c)
  {
    UnlinkListed(v, c);
    var w := Unlink(v, c);
    forall b | IsFree(v, b) && b != c ensures SkipsOver(v, w, c, b) {
      UnlinkUse(v, c, b);
      assert Node(v, b) && Node(v, c);
    }
    UnlinkFirst(v, c);
    var n := v.blocks[c].use.next;
    if v.first == c {
      ExceptFront(c, Walk(v, n), c);
      assert Node(v, c);
      WalkWithout(v, w, c, n);
    } else {
      WalkWithout(v, w, c, v.first);
    }
  }

  lemma UnlinkFirst(v: View, c: int)
    requires Listed(v) && IsFree(v, c)
    ensures Unlink(v, c).first == if v.first == c then v.blocks[c].use.next else v.first
  {
    assert Node(v, c);
  }

  /** `insert_after(c, 0)` puts c in front of the others. */
  lemma PushOrder(v: View, c: int)
    requires Listed(v) && c in v.blocks && v.blocks[c].use.Loose? && 0 < c
    ensures Listed(Push(v, c)) && Order(Push(v, c)) == [c] + Order(v)
  {
    PushListed(v, c);
    WalkSame(v, Push(v, c), v.first);
  }

  /** `merge_with_next` takes the next block, if it is free, out of the list. */
  lemma MergeNextOrder(v: View, a: int)
    requires Tiled(v) && Listed(v) && IsFree(v, a)
    ensures v.blocks[a].size > 0 && Listed(MergeNext(v, a)) && Order(MergeNext(v, a)) == Except(Order(v), Next(v, a))
  {
    MergeNextKeeps(v, a);
    var n := Next(v, a);
    FreeListExact(v);
    if IsFree(v, n) {
      UnlinkOrder(v, n);
      var u := Unlink(v, n);
      UnlinkFrame(v, n);
      AbsorbListed(u, a);
      WalkSame(u, Absorb(u, a), u.first);
    } else {
      ExceptAbsent(Order(v), n);
    }
  }

  lemma MergeOrder(v: View, x: int, p: int)
    requires Tiled(v) && Listed(v) && IsFree(v, x) && (x != v.start ==> Touch(v, p, x))
    ensures Listed(Merge(v, x, p))
    ensures Order(Merge(v, x, p)) == if x != v.start && IsFree(v, p) then Except(Except(Order(v), Next(v, x)), x) else Except(Order(v), Next(v, x))
  {
    MergeNextKeeps(v, x);
    MergeNextOrder(v, x);
    var v1 := MergeNext(v, x);
    assert Placed(v, x);
    if x != v.start {
      assert Placed(v, p);
      if IsFree(v, p) {
        MergeNextKeeps(v1, p);
        MergeNextOrder(v1, p);
      }
    }
  }

  /** What `mem_free` makes of the list: the block comes to its front, or joins the free block p before it. */
  ghost predicate FreedAfter(v: View, w: View, a: int, p: int)
    requires Listed(v) && Listed(w) && a in v.blocks
  {
    && (a != v.start ==> Touch(v, p, a))
    && var q := Except([a] + Order(v), Next(v, a)); Order(w) == if a != v.start && IsFree(v, p) then Except(q, a) else q
  }

  ghost predicate FreedOrder(v: View, w: View, a: int)
    requires Listed(v) && Listed(w) && a in v.blocks
  {
    exists p :: FreedAfter(v, w, a, p)
  }

  lemma ReleaseOrder(v: View, a: int, p: int)
    requires Sound(v) && a in v.blocks && v.blocks[a].use.Used? && (a != v.start ==> Touch(v, p, a))
    ensures Listed(Release(v, a, p)) && FreedOrder(v, Release(v, a, p), a)
  {
    ReleaseKeeps(v, a, p);
    PushedOrder(v, a, p);
    var v2 := Push(SetUse(v, a, Loose), a);
    MergeOrder(v2, a, p);
    assert FreedAfter(v, Release(v, a, p), a, p);
  }

  /** The freed block in front of the list, not merged yet. */
  lemma PushedOrder(v: View, a: int, p: int)
    requires Sound(v) && a in v.blocks && v.blocks[a].use.Used? && (a != v.start ==> Touch(v, p, a))
    ensures Listed(SetUse(v, a, Loose))
    ensures var v2 := Push(SetUse(v, a, Loose), a);
            && Tiled(v2) && Listed(v2) && IsFree(v2, a) && Order(v2) == [a] + Order(v) && v2.start == v.start && Next(v2, a) == Next(v, a)
            && (a != v.start ==> Touch(v2, p, a) && (IsFree(v2, p) <==> IsFree(v, p)))
  {
    ReleaseReady(v, a);
    var v1 := SetUse(v, a, Loose);
    assert Placed(v, a);
    WalkSame(v, v1, v.first);
    PushOrder(v1, a);
    PushListed(v1, a);
    if a != v.start { assert Placed(v, p); }
  }

  /** What giving away block c makes of the list q: it leaves, and what is left of it, if anything, comes to the front. */
  ghost function TakenOrder(q: seq<int>, c: int, given: int, all: int): seq<int>
  {
    (if given < all then [c + given] else []) + Except(q, c)
  }

  lemma TakeOrder(v: View, c: int, size: int, u: Use)
    requires Sound(v) && IsFree(v, c) && size <= v.blocks[c].size && MIN_BLOCK <= size && size % 2 == 0
    requires UseFits(c, Block(size, u)) && u.Used?
    ensures var r := Take(v, c, size, u);
            Listed(r) && c in r.blocks && Order(r) == TakenOrder(Order(v), c, r.blocks[c].size, v.blocks[c].size)
  {
    TakeKeeps(v, c, size, u);
    TakeSize(v, c, size, u);
    UnlinkOrder(v, c);
    UnlinkFrame(v, c);
    UnlinkListed(v, c);
    var v1 := Unlink(v, c);
    if v.blocks[c].size - size >= MIN_BLOCK {
      CutOrder(v, c, size, u);
    } else {
      ListedUse(v1, c, u);
      WalkSame(v1, SetUse(v1, c, u), v1.first);
    }
  }

  lemma CutOrder(v: View, c: int, size: int, u: Use)
    requires Sound(v) && IsFree(v, c) && MIN_BLOCK <= size <= v.blocks[c].size - MIN_BLOCK && size % 2 == 0
    requires UseFits(c, Block(size, u)) && u.Used?
    ensures var r := Take(v, c, size, u);
            Listed(r) && c in r.blocks && r.blocks[c].size == size && Order(r) == [c + size] + Except(Order(v), c)
  {
    CutReady(v, c, size, u);
    assert 0 < c + size by { assert Placed(v, c); }
    CutEffect(v, c, size, u);
    CutCoalesced(v, Push(Cut(v, c, size, u), c + size), c, size, u);
    UnlinkOrder(v, c);
    UnlinkFrame(v, c);
    UnlinkListed(v, c);
    var v1, v2 := Unlink(v, c), Cut(v, c, size, u);
    WalkSame(v1, v2, v1.first);
    PushOrder(v2, c + size);
  }

  /** Growing puts the new block in front, unless it joins the last one. */
  lemma ExtendOrder(v: View, size: int, p: int)
    requires Sound(v) && size % 2 == 0 && MIN_BLOCK <= size && Touch(v, p, v.end)
    ensures Listed(Extend(v, size, p)) && Order(Extend(v, size, p)) == (if IsFree(v, p) then [] else [v.end]) + Order(v)
  {
    ExtendReady(v, size);
    ExtendKeeps(v, size, p);
    AppendedOrder(v, size, p);
    var v2 := Push(Grow(v, size), v.end);
    MergeOrder(v2, v.end, p);
    NotListed(v2, v2.end);
    NotListed(v, v.end);
    ExceptAbsent(Order(v2), v2.end);
    ExceptAbsent(Order(v), v.end);
    ExceptFront(v.end, Order(v), v.end);
  }

  lemma NotListed(v: View, x: int)
    requires Listed(v) && x !in v.blocks
    ensures x !in Order(v)
  {
    FreeListExact(v);
  }

  /** The new block in front of the list, not merged yet. */
  lemma AppendedOrder(v: View, size: int, p: int)
    requires Sound(v) && size % 2 == 0 && MIN_BLOCK <= size && Touch(v, p, v.end)
    ensures v.end !in v.blocks && Listed(Grow(v, size))
    ensures var v2 := Push(Grow(v, size), v.end);
            && Tiled(v2) && Listed(v2) && IsFree(v2, v.end) && Order(v2) == [v.end] + Order(v) && v2.start == v.start && v2.start != v.end
            && Next(v2, v.end) == v2.end && v2.end !in v2.blocks && Touch(v2, p, v.end) && (IsFree(v2, p) <==> IsFree(v, p))
  {
    ExtendReady(v, size);
    var v1 := Grow(v, size);
    WalkSame(v, v1, v.first);
    assert Placed(v, p) && Placed(v, v.start);
    PushOrder(v1, v.end);
    PushListed(v1, v.end);
    forall b | b in v.blocks ensures b < v.end { assert Placed(v, b); }
  }

  /** What a used block is used for does not matter. */
  lemma RefitOrder(v: View, c: int, u: Use)
    requires Listed(v) && c in v.blocks && v.blocks[c].use.Used? && u.Used?
    ensures Listed(SetUse(v, c, u)) && Order(SetUse(v, c, u)) == Order(v)
  {
    ListedUse(v, c, u);
    WalkSame(v, SetUse(v, c, u), v.first);
  }
}
