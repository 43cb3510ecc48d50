/** What reading and writing mean for inodes and files as a whole. */
module FileLaws {
  import opened Memory
  import opened FileData

  // ----- inodes -----

  /** The inode tables of two groups do not overlap. */
  ghost predicate TablesApart(g: Geometry)
  {
    forall i, j :: 0 <= i < |g.tables| && 0 <= j < |g.tables| && i != j ==> TableApart(g, i, j)
  }

  ghost predicate TableApart(g: Geometry, i: int, j: int)
    requires 0 <= i < |g.tables| && 0 <= j < |g.tables|
  {
    var a, b := g.BlockAt(g.tables[i]), g.BlockAt(g.tables[j]);
    a + INODE_SIZE * g.perGroup <= b || b + INODE_SIZE * g.perGroup <= a
  }

  lemma InodesApart(g: Geometry, k: nat, k': nat)
    requires TablesApart(g) && g.HasInode(k) && g.HasInode(k') && k != k'
    ensures g.InodeAt(k) + INODE_SIZE <= g.InodeAt(k') || g.InodeAt(k') + INODE_SIZE <= g.InodeAt(k)
  {
    var i, j := Quotient(k - 1, g.perGroup), Quotient(k' - 1, g.perGroup);
    Division(k - 1, g.perGroup);
    Division(k' - 1, g.perGroup);
    if i != j {
      assert TableApart(g, i, j);
    }
  }

  /** Updating an inode and reading it again gives what was written; all other inodes are as before. */
  lemma InodeRoundTrip(g: Geometry, disk: Mem, k: nat, bytes: Mem, k': nat)
    requires TablesApart(g) && InodeOk(g, disk, k) && InodeOk(g, disk, k') && |bytes| == INODE_SIZE
    ensures var r := Splice(disk, g.InodeAt(k), bytes);
            Stretch(r, g.InodeAt(k'), INODE_SIZE) == if k == k' then bytes else Stretch(disk, g.InodeAt(k'), INODE_SIZE)
  {
    if k != k' { InodesApart(g, k, k'); }
  }

  // ----- blocks -----

  lemma BlocksApart(g: Geometry, a: nat, b: nat)
    requires a < b
    ensures g.BlockAt(a) + g.BlockSize() <= g.BlockAt(b)
  {
    Distribute(g.factor, a, b - a);
    More(g.factor, b - a);
  }

  lemma More(f: nat, d: nat)
    requires d > 0
    ensures f <= f * d
  {
  }

  /** Block b is not on the way to block n of file k: it holds neither the inode nor, if that is used, the pointer. */
  ghost predicate OffPath(g: Geometry, disk: Mem, k: nat, n: nat, b: nat)
    requires PathOk(g, disk, k, n)
  {
    && (g.BlockAt(b) + g.BlockSize() <= g.InodeAt(k) || g.InodeAt(k) + INODE_SIZE <= g.BlockAt(b))
    && (n >= 12 ==> b != Indirect(g, disk, k))
  }

  /** Only bytes of block b differ. */
  ghost predicate OnlyIn(g: Geometry, disk: Mem, r: Mem, b: nat)
  {
    |r| == |disk| && forall x :: 0 <= x < |disk| && !(g.BlockAt(b) <= x < g.BlockAt(b) + g.BlockSize()) ==> r[x] == disk[x]
  }

  /** A change of block b does not lead the way to block n of file k elsewhere. */
  lemma SamePath(g: Geometry, disk: Mem, r: Mem, k: nat, n: nat, b: nat)
    requires PathOk(g, disk, k, n) && OffPath(g, disk, k, n, b) && OnlyIn(g, disk, r, b)
    ensures PathOk(g, r, k, n) && DataBlock(g, r, k, n) == DataBlock(g, disk, k, n)
  {
    assert forall a :: g.InodeAt(k) <= a < g.InodeAt(k) + INODE_SIZE ==> r[a] == disk[a];
    if n >= 12 {
      var i := Indirect(g, disk, k);
      if i < b { BlocksApart(g, i, b); } else { BlocksApart(g, b, i); }
    }
  }

  /** Another block keeps its contents. */
  lemma SameBlock(g: Geometry, disk: Mem, r: Mem, b: nat, c: nat)
    requires OnlyIn(g, disk, r, b) && b != c && g.OnDisk(disk, c)
    ensures Stretch(r, g.BlockAt(c), g.BlockSize()) == Stretch(disk, g.BlockAt(c), g.BlockSize())
  {
    if b < c { BlocksApart(g, b, c); } else { BlocksApart(g, c, b); }
  }

  // ----- files -----

  /** The data blocks of a file are all different, and none is used to find another. */
  ghost predicate LaidOut(g: Geometry, disk: Mem, k: nat, blocks: nat)
  {
    && (forall n: nat {:trigger DataOk(g, disk, k, n)} :: n < blocks ==> DataOk(g, disk, k, n))
    && forall n: nat, m: nat {:trigger Independent(g, disk, k, n, m)} :: n < blocks && m < blocks ==> Independent(g, disk, k, n, m)
  }

  ghost predicate Independent(g: Geometry, disk: Mem, k: nat, n: nat, m: nat)
    requires DataOk(g, disk, k, n) && DataOk(g, disk, k, m)
  {
    OffPath(g, disk, k, n, DataBlock(g, disk, k, m)) && (n != m ==> DataBlock(g, disk, k, n) != DataBlock(g, disk, k, m))
  }

  /** Block n of file k. */
  ghost function FileBlock(g: Geometry, disk: Mem, k: nat, n: nat): Mem
    requires DataOk(g, disk, k, n)
  {
    Stretch(disk, g.BlockAt(DataBlock(g, disk, k, n)), g.BlockSize())
  }

  /** The disk after `write_inode_data`. */
  ghost function Written(g: Geometry, disk: Mem, k: nat, offset: nat, bytes: Mem): (r: Mem)
    requires g.Valid() && DataOk(g, disk, k, Quotient(offset, g.BlockSize())) && |bytes| <= g.BlockSize() - Remainder(offset, g.BlockSize())
  {
    Splice(disk, DataAt(g, disk, k, offset), bytes)
  }

  lemma WrittenOnlyIn(g: Geometry, disk: Mem, k: nat, offset: nat, bytes: Mem)
    requires g.Valid() && DataOk(g, disk, k, Quotient(offset, g.BlockSize())) && |bytes| <= g.BlockSize() - Remainder(offset, g.BlockSize())
    ensures OnlyIn(g, disk, Written(g, disk, k, offset, bytes), DataBlock(g, disk, k, Quotient(offset, g.BlockSize())))
  {
  }

  /** A write inside a stretch of the disk, as seen there. */
  lemma SpliceInside(disk: Mem, at: nat, size: nat, i: nat, bytes: Mem)
    requires at + size <= |disk| && i + |bytes| <= size
    ensures Stretch(Splice(disk, at + i, bytes), at, size) == Splice(Stretch(disk, at, size), i, bytes)
  {
  }

  /** The block that is written. */
  lemma WriteHere(g: Geometry, disk: Mem, k: nat, offset: nat, bytes: Mem, n: nat, r: Mem)
    requires g.Valid() && n == Quotient(offset, g.BlockSize()) && DataOk(g, disk, k, n)
    requires |bytes| <= g.BlockSize() - Remainder(offset, g.BlockSize()) && r == Written(g, disk, k, offset, bytes)
    requires DataOk(g, r, k, n) && DataBlock(g, r, k, n) == DataBlock(g, disk, k, n)
    ensures FileBlock(g, r, k, n) == Splice(FileBlock(g, disk, k, n), Remainder(offset, g.BlockSize()), bytes)
  {
    SpliceInside(disk, g.BlockAt(DataBlock(g, disk, k, n)), g.BlockSize(), Remainder(offset, g.BlockSize()), bytes);
  }

  /**
   * A file is an array of bytes: after a write, its block m reads as before, with the new bytes in their place
   * if the write went to that block.
   */
  lemma WriteFile(g: Geometry, disk: Mem, k: nat, blocks: nat, offset: nat, bytes: Mem, m: nat)
    requires g.Valid() && LaidOut(g, disk, k, blocks) && Quotient(offset, g.BlockSize()) < blocks && m < blocks
    requires |bytes| <= g.BlockSize() - Remainder(offset, g.BlockSize())
    ensures DataOk(g, disk, k, m) && DataOk(g, disk, k, Quotient(offset, g.BlockSize()))
    ensures var r := Written(g, disk, k, offset, bytes);
            && DataOk(g, r, k, m) && DataBlock(g, r, k, m) == DataBlock(g, disk, k, m)
            && FileBlock(g, r, k, m) ==
               if m == Quotient(offset, g.BlockSize()) then Splice(FileBlock(g, disk, k, m), Remainder(offset, g.BlockSize()), bytes)
               else FileBlock(g, disk, k, m)
  {
    var n := Quotient(offset, g.BlockSize());
    assert DataOk(g, disk, k, n) && DataOk(g, disk, k, m) && Independent(g, disk, k, m, n);
    var r := Written(g, disk, k, offset, bytes);
    var b := DataBlock(g, disk, k, n);
    WrittenOnlyIn(g, disk, k, offset, bytes);
    SamePath(g, disk, r, k, m, b);
    if m != n {
      SameBlock(g, disk, r, b, DataBlock(g, disk, k, m));
    } else {
      WriteHere(g, disk, k, offset, bytes, n, r);
    }
  }

  /** A write keeps the file laid out well, so that one may follow another. */
  lemma WriteKeepsLayout(g: Geometry, disk: Mem, k: nat, blocks: nat, offset: nat, bytes: Mem)
    requires g.Valid() && LaidOut(g, disk, k, blocks) && Quotient(offset, g.BlockSize()) < blocks
    requires |bytes| <= g.BlockSize() - Remainder(offset, g.BlockSize())
    ensures DataOk(g, disk, k, Quotient(offset, g.BlockSize())) && LaidOut(g, Written(g, disk, k, offset, bytes), k, blocks)
  {
    assert DataOk(g, disk, k, Quotient(offset, g.BlockSize()));
    var r := Written(g, disk, k, offset, bytes);
    forall n: nat | n < blocks ensures StillThere(g, disk, r, k, n) {
      WriteFinds(g, disk, k, blocks, offset, bytes, n);
    }
    assert forall n: nat {:trigger DataOk(g, r, k, n)} :: n < blocks ==> StillThere(g, disk, r, k, n);
    forall n: nat, m: nat | n < blocks && m < blocks ensures Independent(g, r, k, n, m) {
      assert Independent(g, disk, k, n, m) && StillThere(g, disk, r, k, n) && StillThere(g, disk, r, k, m);
    }
  }

  ghost predicate StillThere(g: Geometry, disk: Mem, r: Mem, k: nat, n: nat)
  {
    && DataOk(g, disk, k, n) && DataOk(g, r, k, n) && DataBlock(g, r, k, n) == DataBlock(g, disk, k, n)
    && Indirect(g, r, k) == Indirect(g, disk, k)
  }

  lemma WriteFinds(g: Geometry, disk: Mem, k: nat, blocks: nat, offset: nat, bytes: Mem, n: nat)
    requires g.Valid() && LaidOut(g, disk, k, blocks) && Quotient(offset, g.BlockSize()) < blocks && n < blocks
    requires |bytes| <= g.BlockSize() - Remainder(offset, g.BlockSize()) && DataOk(g, disk, k, Quotient(offset, g.BlockSize()))
    ensures StillThere(g, disk, Written(g, disk, k, offset, bytes), k, n)
  {
    var t := Quotient(offset, g.BlockSize());
    assert DataOk(g, disk, k, n) && Independent(g, disk, k, n, t);
    WrittenOnlyIn(g, disk, k, offset, bytes);
    SamePath(g, disk, Written(g, disk, k, offset, bytes), k, n, DataBlock(g, disk, k, t));
    SameIndirect(g, disk, k, blocks, offset, bytes, n);
  }

  lemma SameIndirect(g: Geometry, disk: Mem, k: nat, blocks: nat, offset: nat, bytes: Mem, n: nat)
    requires g.Valid() && LaidOut(g, disk, k, blocks) && Quotient(offset, g.BlockSize()) < blocks && n < blocks
    requires |bytes| <= g.BlockSize() - Remainder(offset, g.BlockSize()) && DataOk(g, disk, k, Quotient(offset, g.BlockSize()))
    ensures InodeOk(g, disk, k) && InodeOk(g, Written(g, disk, k, offset, bytes), k)
    ensures Indirect(g, Written(g, disk, k, offset, bytes), k) == Indirect(g, disk, k)
  {
    assert DataOk(g, disk, k, n) && Independent(g, disk, k, n, Quotient(offset, g.BlockSize()));
    WrittenOnlyIn(g, disk, k, offset, bytes);
    var r := Written(g, disk, k, offset, bytes);
    assert forall a :: g.InodeAt(k) <= a < g.InodeAt(k) + INODE_SIZE ==> r[a] == disk[a];
  }

  /** A write to one file leaves every block of another alone, if the files share no block. */
  lemma WriteElsewhere(g: Geometry, disk: Mem, k: nat, offset: nat, bytes: Mem, k': nat, m: nat)
    requires g.Valid() && DataOk(g, disk, k, Quotient(offset, g.BlockSize())) && |bytes| <= g.BlockSize() - Remainder(offset, g.BlockSize())
    requires DataOk(g, disk, k', m) && OffPath(g, disk, k', m, DataBlock(g, disk, k, Quotient(offset, g.BlockSize())))
    requires DataBlock(g, disk, k', m) != DataBlock(g, disk, k, Quotient(offset, g.BlockSize()))
    ensures var r := Written(g, disk, k, offset, bytes);
            DataOk(g, r, k', m) && FileBlock(g, r, k', m) == FileBlock(g, disk, k', m)
  {
    var r := Written(g, disk, k, offset, bytes);
    var b := DataBlock(g, disk, k, Quotient(offset, g.BlockSize()));
    WrittenOnlyIn(g, disk, k, offset, bytes);
    SamePath(g, disk, r, k', m, b);
    SameBlock(g, disk, r, b, DataBlock(g, disk, k', m));
  }

  /** What was written is what is read: `read_inode_data` after `write_inode_data` at the same offset. */
  lemma DataRoundTrip(g: Geometry, disk: Mem, k: nat, offset: nat, bytes: Mem)
    requires g.Valid() && DataOk(g, disk, k, Quotient(offset, g.BlockSize())) && |bytes| <= g.BlockSize() - Remainder(offset, g.BlockSize())
    requires OffPath(g, disk, k, Quotient(offset, g.BlockSize()), DataBlock(g, disk, k, Quotient(offset, g.BlockSize())))
    ensures var r := Written(g, disk, k, offset, bytes);
            && DataOk(g, r, k, Quotient(offset, g.BlockSize()))
            && Stretch(r, DataAt(g, r, k, offset), |bytes|) == bytes
  {
    var n := Quotient(offset, g.BlockSize());
    WrittenOnlyIn(g, disk, k, offset, bytes);
    SamePath(g, disk, Written(g, disk, k, offset, bytes), k, n, DataBlock(g, disk, k, n));
  }

  // ----- whole files -----

  /** Every byte up to `size` can be found. */
  ghost predicate Readable(g: Geometry, disk: Mem, k: nat, size: nat)
  {
    g.Valid() && forall x: nat {:trigger DataOk(g, disk, k, Quotient(x, g.BlockSize()))} :: x < size ==> DataOk(g, disk, k, Quotient(x, g.BlockSize()))
  }

  /** The contents of the file: byte x is where the inode leads to for x. */
  ghost function Contents(g: Geometry, disk: Mem, k: nat, size: nat): Mem
    requires Readable(g, disk, k, size)
  {
    seq(size, x requires 0 <= x < size => assert DataOk(g, disk, k, Quotient(x, g.BlockSize())); disk[DataAt(g, disk, k, x)])
  }

  /** What one read delivers is a piece of the contents. */
  lemma PieceOf(g: Geometry, disk: Mem, k: nat, size: nat, offset: nat, width: nat)
    requires Readable(g, disk, k, size) && offset + width <= size && width <= g.BlockSize() - Remainder(offset, g.BlockSize()) && width > 0
    ensures DataOk(g, disk, k, Quotient(offset, g.BlockSize()))
    ensures Stretch(disk, DataAt(g, disk, k, offset), width) == Contents(g, disk, k, size)[offset..offset + width]
  {
    assert DataOk(g, disk, k, Quotient(offset, g.BlockSize()));
    var c := Contents(g, disk, k, size);
    forall j | 0 <= j < width ensures Stretch(disk, DataAt(g, disk, k, offset), width)[j] == c[offset + j] {
      SameRow(offset, j, g.BlockSize());
    }
  }

  /** Every byte of a file is in the block that the inode leads to for it. */
  lemma Found(g: Geometry, disk: Mem, k: nat, size: nat)
    requires Readable(g, disk, k, size)
    ensures forall x: nat :: x < size ==> FoundAt(g, disk, disk, k, x, [Contents(g, disk, k, size)[x]])
  {
    var c := Contents(g, disk, k, size);
    forall x: nat | x < size ensures FoundAt(g, disk, disk, k, x, [c[x]]) {
      assert DataOk(g, disk, k, Quotient(x, g.BlockSize()));
      FoundIs(g, disk, disk, k, x, [c[x]]);
    }
  }

  lemma SameRow(a: nat, j: nat, b: nat)
    requires b > 0 && Remainder(a, b) + j < b
    ensures Quotient(a + j, b) == Quotient(a, b) && Remainder(a + j, b) == Remainder(a, b) + j
  {
    Division(a, b);
    var q, r := Quotient(a, b), Remainder(a, b) + j;
    assert a + j == b * q + r;
    Unique(a + j, b, q, r);
  }

  lemma Unique(a: nat, b: nat, q: nat, r: nat)
    requires r < b && a == b * q + r
    ensures Quotient(a, b) == q && Remainder(a, b) == r
  {
    Division(a, b);
    var d := Quotient(a, b) - q;
    assert b * d == r - Remainder(a, b);
    Cancel(b, d);
  }

  lemma Cancel(b: int, d: int)
    requires 0 < b && -b < b * d < b
    ensures d == 0
  {
  }

  /** The loop of `load_code`: reads until the whole file is in the buffer. */
  method LoadFile(fs: FileSystem, k: nat, size: nat) returns (buffer: array<Byte>)
    requires fs.Valid() && Readable(fs.g, fs.drive.disk, k, size)
    modifies fs.drive`pos, fs.drive`left, fs.stdBuf, fs.stdInode
    ensures fs.Valid() && buffer[..] == Contents(fs.g, fs.drive.disk, k, size)
    ensures forall x: nat :: x < size ==> FoundAt(fs.g, fs.drive.disk, fs.drive.disk, k, x, [buffer[x]])
  {
    buffer := new Byte[size](_ => 0);
    ghost var c := Contents(fs.g, fs.drive.disk, k, size);
    var current := 0;
    while current < size
      invariant fs.Valid() && 0 <= current <= size && buffer[..current] == c[..current]
    {
      assert DataOk(fs.g, fs.drive.disk, k, Quotient(current, fs.g.BlockSize()));
      Division(current, fs.g.BlockSize());
      ghost var before := buffer[..current];
      var done := fs.ReadInodeData(k, buffer, current, current, size - current);
      PieceOf(fs.g, fs.drive.disk, k, size, current, done);
      assert buffer[..current] == before;
      assert buffer[..current + done] == buffer[..current] + buffer[current..current + done];
      current := current + done;
    }
    assert buffer[..current] == buffer[..];
    Found(fs.g, fs.drive.disk, k, size);
    assert c == buffer[..];
  }
}
