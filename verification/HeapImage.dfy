/** How a view of the heap is laid out in memory: boundary tags, list pointers and padding. */
module HeapImage {
  import opened Memory
  import opened HeapView

  const USED_BIT := 0x8000_0000   // strongest bit of a tag word
  const HEADER_USED := 4          // sizeof(header_used_t) == sizeof(end_header_t)
  const HEADER_FREE := 12         // sizeof(header_free_t)
  const PREV := 4
  const NEXT := 8

  // ----- tag words: size / 2 in 31 bits, then the used bit -----

  function TagSize(w: Word): int { 2 * (w % USED_BIT) }

  predicate TagUsed(w: Word) { USED_BIT <= w }

  /** `set_size`: a 31-bit field receives size / 2, the used bit stays. */
  function WithSize(w: Word, size: Word): Word
  {
    size / 2 + if TagUsed(w) then USED_BIT else 0
  }

  function WithUsed(w: Word, used: bool): Word
  {
    w % USED_BIT + if used then USED_BIT else 0
  }

  function Tag(size: int, used: bool): int
  {
    size / 2 + if used then USED_BIT else 0
  }

  lemma TagRoundTrip(w: Word, size: Word, used: bool)
    requires size % 2 == 0
    ensures TagSize(WithSize(w, size)) == size && TagUsed(WithSize(w, size)) == TagUsed(w)
    ensures WithUsed(WithSize(w, size), used) == Tag(size, used)
    ensures TagSize(Tag(size, used)) == size && TagUsed(Tag(size, used)) == used
    ensures TagUsed(w) ==> WithSize(w, size) == Tag(size, true)
    ensures !TagUsed(w) ==> WithSize(w, size) == Tag(size, false)
  {
  }

  lemma ClearTag(size: Word)
    requires size % 2 == 0
    ensures WithUsed(Tag(size, true), false) == Tag(size, false)
  {
  }

  // ----- blocks in memory -----

  /** The bytes of block b at a. Only the head's used bit counts: the end tag's may be stale. */
  ghost predicate Stored(m: Mem, a: int, b: Block)
  {
    && 0 <= a && MIN_BLOCK <= b.size && a + b.size <= |m|
    && GetWord(m, a) == Tag(b.size, b.use.Used?)
    && TagSize(GetWord(m, a + b.size - 4)) == b.size
    && (b.use.Free? ==> GetWord(m, a + PREV) == b.use.prev && GetWord(m, a + NEXT) == b.use.next)
    && (b.use.Used? ==> a + 4 <= b.use.ptr <= a + b.size && forall x :: a + 4 <= x < b.use.ptr ==> m[x] == 0)
  }

  ghost predicate Image(m: Mem, v: View)
  {
    forall a {:trigger Stored(m, a, v.blocks[a])} :: a in v.blocks ==> Stored(m, a, v.blocks[a])
  }

  lemma StoredFrame(m: Mem, r: Mem, a: int, b: Block)
    requires Stored(m, a, b) && |r| == |m|
    requires forall x :: a <= x < a + b.size && !(b.use.Used? && b.use.ptr <= x < a + b.size - 4) ==> r[x] == m[x]
    ensures Stored(r, a, b)
  {
    SameBytesSameWord(m, r, a);
    SameBytesSameWord(m, r, a + b.size - 4);
    if b.use.Free? {
      SameBytesSameWord(m, r, a + PREV);
      SameBytesSameWord(m, r, a + NEXT);
    }
  }

  /** Writes inside one block leave the others alone. */
  lemma ImageAt(m: Mem, r: Mem, v: View, a: int, b: Block)
    requires Image(m, v) && Disjoint(v) && a in v.blocks && |r| == |m|
    requires forall x :: 0 <= x < |m| && !(a <= x < a + v.blocks[a].size) ==> r[x] == m[x]
    requires Stored(r, a, b)
    ensures Image(r, v.(blocks := v.blocks[a := b]))
  {
    var w := v.(blocks := v.blocks[a := b]);
    forall c | c in w.blocks ensures Stored(r, c, w.blocks[c]) {
      if c != a {
        assert Stored(m, c, v.blocks[c]) && Clear(v, a, c) && Clear(v, c, a);
        StoredFrame(m, r, c, v.blocks[c]);
      }
    }
  }

  // ----- what stays unchanged -----

  /** x lies in the block at a, outside its headers (and outside the pointers, unless the block is used). */
  ghost predicate Inside(v: View, a: int, x: int)
  {
    a in v.blocks && a + (if v.blocks[a].use.Used? then HEADER_USED else HEADER_FREE) <= x < a + v.blocks[a].size - 4
  }

  /** x lies in some block of the view, outside all headers. */
  ghost predicate Covered(v: View, x: int)
  {
    exists a :: Inside(v, a, x)
  }

  /** Nothing changed but headers, list pointers and end tags. */
  ghost predicate Kept(m: Mem, r: Mem, v: View)
  {
    && |r| == |m|
    && (forall x {:trigger Covered(v, x)} :: 0 <= x < |m| && Covered(v, x) ==> r[x] == m[x])
    && (forall x :: 0 <= x < |m| && !(v.start <= x < v.end) ==> r[x] == m[x])
  }

  /** The non-header bytes of v are non-header bytes of w. */
  ghost predicate Wider(v: View, w: View)
  {
    v.start == w.start && v.end == w.end && forall x {:trigger Covered(v, x)} :: Covered(v, x) ==> Covered(w, x)
  }

  lemma KeptTrans(m: Mem, r: Mem, t: Mem, v: View, w: View)
    requires Kept(m, r, v) && Kept(r, t, w) && Wider(v, w)
    ensures Kept(m, t, v)
  {
    forall x | 0 <= x < |m| && Covered(v, x) ensures t[x] == m[x] { assert Covered(w, x); }
  }

  lemma WiderTrans(u: View, v: View, w: View)
    requires Wider(u, v) && Wider(v, w)
    ensures Wider(u, w)
  {
    forall x | Covered(u, x) ensures Covered(w, x) { assert Covered(v, x); }
  }

  lemma KeptNarrow(m: Mem, r: Mem, v: View, w: View)
    requires Kept(m, r, w) && Wider(v, w)
    ensures Kept(m, r, v)
  {
    forall x | 0 <= x < |m| && Covered(v, x) ensures r[x] == m[x] { assert Covered(w, x); }
  }

  /** A loose block has fewer non-header bytes than a used one. */
  lemma WiderLoose(v: View, a: int)
    requires a in v.blocks
    ensures Wider(SetUse(v, a, Loose), v)
  {
    var w := SetUse(v, a, Loose);
    forall x | Covered(w, x) ensures Covered(v, x) {
      var b :| Inside(w, b, x);
      assert Inside(v, b, x);
    }
  }

  /** Views that differ in pointers, or in loose blocks becoming free or back, have the same non-header bytes. */
  lemma WiderUse(v: View, w: View)
    requires SameSizes(v, w) && forall a :: a in v.blocks ==> (v.blocks[a].use.Used? <==> w.blocks[a].use.Used?)
    ensures Wider(v, w)
  {
    forall x | Covered(v, x) ensures Covered(w, x) {
      var a :| Inside(v, a, x);
      assert Inside(w, a, x);
    }
  }

  /** A write into a header of block a touches no non-header byte. */
  lemma KeptAt(m: Mem, r: Mem, v: View, a: int)
    requires Tiled(v) && v.end <= |m| == |r| && a in v.blocks
    requires forall x :: 0 <= x < |m| && !(a <= x < a + v.blocks[a].size) ==> r[x] == m[x]
    requires forall x :: 0 <= x < |m| && Inside(v, a, x) ==> r[x] == m[x]
    ensures Kept(m, r, v)
  {
    assert Placed(v, a);
    forall x | 0 <= x < |m| && Covered(v, x) ensures r[x] == m[x] {
      var b :| Inside(v, b, x);
      assert Placed(v, b) && Clear(v, a, b) && Clear(v, b, a);
    }
  }

  // ----- the allocator's writes -----

  /** One word is stored in a header of block a, which becomes b. */
  lemma WriteImage(m: Mem, v: View, a: int, at: int, w: Word, b: Block)
    requires Image(m, v) && Tiled(v) && v.end <= |m| && a in v.blocks
    requires a <= at && at + 4 <= a + v.blocks[a].size
    requires at == a || at == a + PREV || at == a + NEXT || at == a + v.blocks[a].size - 4
    requires at == a + PREV || at == a + NEXT ==> !v.blocks[a].use.Used?
    requires 0 <= at && at + 4 <= |m| && Stored(PutWord(m, at, w), a, b)
    ensures Image(PutWord(m, at, w), v.(blocks := v.blocks[a := b]))
    ensures Kept(m, PutWord(m, at, w), v)
  {
    assert Placed(v, a) && Stored(m, a, v.blocks[a]);
    ImageAt(m, PutWord(m, at, w), v, a, b);
    KeptAt(m, PutWord(m, at, w), v, a);
  }

  lemma SetNextImage(m: Mem, v: View, a: int, n: Word)
    requires Image(m, v) && Tiled(v) && v.end <= |m| && IsFree(v, a)
    ensures 0 <= a && a + HEADER_FREE <= |m|
    ensures Image(PutWord(m, a + NEXT, n), SetNext(v, a, n)) && Kept(m, PutWord(m, a + NEXT, n), v)
  {
    assert Stored(m, a, v.blocks[a]);
    WriteImage(m, v, a, a + NEXT, n, WithNext(v.blocks[a], n));
  }

  lemma SetPrevImage(m: Mem, v: View, a: int, p: Word)
    requires Image(m, v) && Tiled(v) && v.end <= |m| && IsFree(v, a)
    ensures 0 <= a && a + HEADER_FREE <= |m|
    ensures Image(PutWord(m, a + PREV, p), SetPrev(v, a, p)) && Kept(m, PutWord(m, a + PREV, p), v)
  {
    assert Stored(m, a, v.blocks[a]);
    WriteImage(m, v, a, a + PREV, p, WithPrev(v.blocks[a], p));
  }

  /** `block->used = FALSE` in the head only: the end tag's used bit goes stale, its size stays. */
  lemma ReleaseImage(m: Mem, v: View, a: int)
    requires Image(m, v) && Tiled(v) && v.end <= |m| <= 0x1_0000_0000 && a in v.blocks && v.blocks[a].use.Used?
    ensures 0 <= a && a + 4 <= |m|
    ensures Image(PutWord(m, a, WithUsed(GetWord(m, a), false)), SetUse(v, a, Loose))
    ensures Kept(m, PutWord(m, a, WithUsed(GetWord(m, a), false)), v)
  {
    assert Stored(m, a, v.blocks[a]) && Placed(v, a);
    ClearTag(v.blocks[a].size);
    WriteImage(m, v, a, a, WithUsed(GetWord(m, a), false), v.blocks[a].(use := Loose));
  }

  /** A block leaves the list: no write. */
  lemma LooseImage(m: Mem, v: View, c: int)
    requires Image(m, v) && IsFree(v, c)
    ensures Image(m, SetUse(v, c, Loose))
  {
    var w := SetUse(v, c, Loose);
    forall a | a in w.blocks ensures Stored(m, a, w.blocks[a]) { assert Stored(m, a, v.blocks[a]); }
  }

  /** A loose block gets both its pointers. */
  lemma LinkImage(m: Mem, v: View, c: int, n: Word, rank: int)
    requires Image(m, v) && Tiled(v) && v.end <= |m| && c in v.blocks && v.blocks[c].use.Loose?
    ensures 0 <= c && c + HEADER_FREE <= |m|
    ensures var r := PutWord(PutWord(m, c + NEXT, n), c + PREV, 0);
            Image(r, SetUse(v, c, Free(0, n, rank))) && Kept(m, r, v)
  {
    assert Stored(m, c, v.blocks[c]) && Placed(v, c);
    var m1 := PutWord(m, c + NEXT, n);
    WriteImage(m, v, c, c + NEXT, n, v.blocks[c]);
    assert v.(blocks := v.blocks[c := v.blocks[c]]) == v;
    WriteImage(m1, v, c, c + PREV, 0, v.blocks[c].(use := Free(0, n, rank)));
    KeptTrans(m, m1, PutWord(m1, c + PREV, 0), v, v);
  }

  /** Block c is the same in both views, and lies outside [lo, hi). */
  ghost predicate Untouched(v: View, w: View, lo: int, hi: int, c: int)
  {
    && c in v.blocks && c in w.blocks && w.blocks[c] == v.blocks[c]
    && (c + v.blocks[c].size <= lo || hi <= c)
  }

  /** Writes in [lo, hi) leave the blocks outside alone; c and d are the blocks inside. */
  lemma ImageRange(m: Mem, r: Mem, v: View, w: View, lo: int, hi: int, c: int, d: int)
    requires Image(m, v) && |r| == |m| && forall x :: 0 <= x < |m| && !(lo <= x < hi) ==> r[x] == m[x]
    requires c in w.blocks && Stored(r, c, w.blocks[c]) && d in w.blocks && Stored(r, d, w.blocks[d])
    requires forall b {:trigger Untouched(v, w, lo, hi, b)} ::
               b in w.blocks && b != c && b != d ==> Untouched(v, w, lo, hi, b)
    ensures Image(r, w)
  {
    forall b | b in w.blocks ensures Stored(r, b, w.blocks[b]) {
      if b != c && b != d {
        assert Untouched(v, w, lo, hi, b) && Stored(m, b, v.blocks[b]);
        StoredFrame(m, r, b, v.blocks[b]);
      }
    }
  }

  /** Only the two tags of a block of this size changed. */
  ghost predicate OnlyTags(m: Mem, r: Mem, a: int, size: int)
  {
    |r| == |m| && forall x :: 0 <= x < |m| && !(a <= x < a + 4) && !(a + size - 4 <= x < a + size) ==> r[x] == m[x]
  }

  /** What `set_block` does. */
  ghost predicate IsBlockSet(m: Mem, r: Mem, b: int, size: int, used: bool)
    requires 0 <= b && 8 <= size && b + size <= |m|
  {
    && OnlyTags(m, r, b, size)
    && GetWord(r, b) == Tag(size, used) && GetWord(r, b + size - 4) == Tag(size, used)
  }

  /** What the two `set_size` of `merge_with_next` do: both sizes change, the used bits stay. */
  ghost predicate IsResized(m: Mem, r: Mem, a: int, size: int)
    requires 0 <= a && 8 <= size && a + size <= |m|
  {
    && OnlyTags(m, r, a, size)
    && GetWord(r, a) == Tag(size, TagUsed(GetWord(m, a)))
    && GetWord(r, a + size - 4) == Tag(size, TagUsed(GetWord(m, a + size - 4)))
  }

  /** A free block is enlarged over the bytes behind it. */
  lemma ResizeStored(m: Mem, r: Mem, a: int, b: Block, size: Word)
    requires Stored(m, a, b) && b.use.Free? && b.size % 2 == 0 && b.size + 4 <= size && a + size <= |m| && size % 2 == 0
    requires IsResized(m, r, a, size)
    ensures Stored(r, a, b.(size := size))
  {
    SameBytesSameWord(m, r, a + PREV);
    SameBytesSameWord(m, r, a + NEXT);
    TagRoundTrip(0, size, TagUsed(GetWord(m, a + size - 4)));
    TagRoundTrip(0, b.size, false);
  }

  lemma AbsorbKept(m: Mem, r: Mem, v: View, a: int)
    requires Tiled(v) && v.end <= |m| && IsFree(v, a) && Next(v, a) in v.blocks && v.blocks[Next(v, a)].use.Loose?
    requires OnlyTags(m, r, a, v.blocks[a].size + v.blocks[Next(v, a)].size)
    ensures Kept(m, r, v)
    ensures Wider(v, Absorb(v, a))
  {
    var n := Next(v, a);
    var w := Absorb(v, a);
    assert Placed(v, a) && Placed(v, n);
    forall x | 0 <= x < |m| && Covered(v, x) ensures r[x] == m[x] {
      var b :| Inside(v, b, x);
      assert Placed(v, b) && Clear(v, a, b) && Clear(v, b, a) && Clear(v, n, b) && Clear(v, b, n);
    }
    forall x | Covered(v, x) ensures Covered(w, x) {
      var b :| Inside(v, b, x);
      assert Inside(w, if b == n then a else b, x);
    }
  }

  lemma AbsorbImage(m: Mem, r: Mem, v: View, a: int)
    requires Image(m, v) && Tiled(v) && v.end <= |m| <= 0x1_0000_0000 && IsFree(v, a) && 0 < a
    requires Next(v, a) in v.blocks && v.blocks[Next(v, a)].use.Loose?
    requires 8 <= v.blocks[a].size + v.blocks[Next(v, a)].size && a + v.blocks[a].size + v.blocks[Next(v, a)].size <= |m|
    requires IsResized(m, r, a, v.blocks[a].size + v.blocks[Next(v, a)].size)
    ensures Image(r, Absorb(v, a))
  {
    var n := Next(v, a);
    var size := v.blocks[a].size + v.blocks[n].size;
    var w := Absorb(v, a);
    assert Placed(v, a) && Placed(v, n) && Stored(m, a, v.blocks[a]);
    ResizeStored(m, r, a, v.blocks[a], size);
    forall c | c in w.blocks && c != a ensures Untouched(v, w, a, a + size, c) {
      assert Clear(v, c, a) && Clear(v, a, c) && Clear(v, n, c) && Placed(v, c);
    }
    ImageRange(m, r, v, w, a, a + size, a, a);
  }

  /** The whole loose block is given to the user, without padding yet. */
  lemma TakeImage(m: Mem, r: Mem, v: View, c: int)
    requires Image(m, v) && Tiled(v) && v.end <= |m| <= 0x1_0000_0000 && c in v.blocks && v.blocks[c].use.Loose?
    requires 0 < c && 16 <= v.blocks[c].size && c + v.blocks[c].size <= |m|
    requires IsBlockSet(m, r, c, v.blocks[c].size, true)
    ensures Image(r, SetUse(v, c, Used(c + 4, 0)))
  {
    assert Placed(v, c) && Stored(m, c, v.blocks[c]);
    TagRoundTrip(0, v.blocks[c].size, true);
    ImageAt(m, r, v, c, v.blocks[c].(use := Used(c + 4, 0)));
  }

  lemma CarveStored(m: Mem, m1: Mem, r: Mem, c: int, size: int, all: int)
    requires 0 < c && MIN_BLOCK <= size <= all - MIN_BLOCK && size % 2 == 0 && all % 2 == 0 && c + all <= |m| <= 0x1_0000_0000
    requires IsBlockSet(m, m1, c, size, true) && IsBlockSet(m1, r, c + size, all - size, false)
    ensures Stored(r, c, Block(size, Used(c + 4, 0))) && Stored(r, c + size, Block(all - size, Loose))
  {
    TagRoundTrip(0, size, true);
    TagRoundTrip(0, all - size, false);
    SameBytesSameWord(m1, r, c);
    SameBytesSameWord(m1, r, c + size - 4);
  }

  /** The front of the loose block is given to the user, the rest becomes a loose block. */
  lemma CarveImage(m: Mem, m1: Mem, r: Mem, v: View, c: int, size: int)
    requires Image(m, v) && Tiled(v) && v.end <= |m| <= 0x1_0000_0000 && c in v.blocks && v.blocks[c].use.Loose?
    requires 0 < c && MIN_BLOCK <= size <= v.blocks[c].size - MIN_BLOCK && size % 2 == 0 && c + v.blocks[c].size <= |m|
    requires IsBlockSet(m, m1, c, size, true) && IsBlockSet(m1, r, c + size, v.blocks[c].size - size, false)
    ensures Image(r, SetUse(Carve(v, c, size), c, Used(c + 4, 0)))
  {
    assert Placed(v, c);
    var all := v.blocks[c].size;
    var w := SetUse(Carve(v, c, size), c, Used(c + 4, 0));
    CarveStored(m, m1, r, c, size, all);
    forall d | d in w.blocks && d != c && d != c + size ensures Untouched(v, w, c, c + all, d) {
      assert Clear(v, c, d) && Clear(v, d, c);
    }
    ImageRange(m, r, v, w, c, c + all, c, c + size);
  }

  /** A loose block is made of fresh memory at the end of the heap. */
  lemma GrowImage(m: Mem, r: Mem, v: View, size: int)
    requires Image(m, v) && Tiled(v) && v.end + size <= |m| <= 0x1_0000_0000 && MIN_BLOCK <= size && size % 2 == 0
    requires IsBlockSet(m, r, v.end, size, false)
    ensures Image(r, Grow(v, size))
  {
    TagRoundTrip(0, size, false);
    var w := Grow(v, size);
    forall d | d in w.blocks && d != v.end ensures Untouched(v, w, v.end, v.end + size, d) {
      assert Placed(v, d);
    }
    ImageRange(m, r, v, w, v.end, v.end + size, v.end, v.end);
  }

  /** The padding of a used block is zeroed and the address behind it handed out. */
  lemma PadImage(m: Mem, r: Mem, v: View, c: int, ptr: int, len: int)
    requires Image(m, v) && Tiled(v) && v.end <= |m| == |r| && c in v.blocks && v.blocks[c].use == Used(c + 4, 0)
    requires c + 4 <= ptr && 0 <= len && ptr + len <= c + v.blocks[c].size - 4
    requires forall x :: 0 <= x < |m| ==> r[x] == if c + 4 <= x < ptr then 0 else m[x]
    ensures Image(r, SetUse(v, c, Used(ptr, len)))
  {
    assert Stored(m, c, v.blocks[c]);
    SameBytesSameWord(m, r, c);
    SameBytesSameWord(m, r, c + v.blocks[c].size - 4);
    ImageAt(m, r, v, c, v.blocks[c].(use := Used(ptr, len)));
  }

  // ----- live data -----

  /** x lies between the two headers of a used block. */
  ghost predicate UsedByte(v: View, x: int)
  {
    exists a :: a in v.blocks && v.blocks[a].use.Used? && Inside(v, a, x)
  }

  /** Nothing between the headers of a used block changed, and nothing outside [v.start, end). */
  ghost predicate KeptUsed(m: Mem, r: Mem, v: View, end: int)
  {
    && |r| == |m|
    && (forall x {:trigger UsedByte(v, x)} :: 0 <= x < |m| && UsedByte(v, x) ==> r[x] == m[x])
    && (forall x :: 0 <= x < |m| && !(v.start <= x < end) ==> r[x] == m[x])
  }

  lemma KeptUsedFrom(m: Mem, r: Mem, v: View)
    requires Kept(m, r, v)
    ensures KeptUsed(m, r, v, v.end)
  {
    forall x | 0 <= x < |m| && UsedByte(v, x) ensures r[x] == m[x] { assert Covered(v, x); }
  }

  /** Used blocks of v, other than c, are used blocks of w. */
  lemma KeptUsedTrans(m: Mem, r: Mem, t: Mem, v: View, w: View, c: int, end: int)
    requires KeptUsed(m, r, v, end) && KeptUsed(r, t, w, end) && SameUsed(v, w, c) && w.start == v.start
    requires c in v.blocks ==> !v.blocks[c].use.Used?
    ensures KeptUsed(m, t, v, end)
  {
    forall x | 0 <= x < |m| && UsedByte(v, x) ensures t[x] == m[x] {
      var a :| a in v.blocks && v.blocks[a].use.Used? && Inside(v, a, x);
      assert a in w.blocks && w.blocks[a].use.Used? && Inside(w, a, x);
      assert UsedByte(w, x);
    }
  }

  /** Writes inside a block that is not used. */
  lemma KeptUsedAt(m: Mem, r: Mem, v: View, c: int)
    requires Tiled(v) && v.end <= |m| == |r| && c in v.blocks && !v.blocks[c].use.Used?
    requires forall x :: 0 <= x < |m| && !(c <= x < c + v.blocks[c].size) ==> r[x] == m[x]
    ensures KeptUsed(m, r, v, v.end)
  {
    assert Placed(v, c);
    forall x | 0 <= x < |m| && UsedByte(v, x) ensures r[x] == m[x] {
      var a :| a in v.blocks && v.blocks[a].use.Used? && Inside(v, a, x);
      assert Clear(v, a, c) && Clear(v, c, a);
    }
  }

  /** Writes behind the heap. */
  lemma KeptUsedGrow(m: Mem, r: Mem, v: View, end: int)
    requires Tiled(v) && v.end <= end <= |m| == |r|
    requires forall x :: 0 <= x < |m| && !(v.end <= x < end) ==> r[x] == m[x]
    ensures KeptUsed(m, r, v, end)
  {
    assert Placed(v, v.start);
    forall x | 0 <= x < |m| && UsedByte(v, x) ensures r[x] == m[x] {
      var a :| a in v.blocks && v.blocks[a].use.Used? && Inside(v, a, x);
      assert Placed(v, a);
    }
  }
}
