/** All directories on the disk at once: removing an entry from one leaves the others alone. */
module DirBlocks {
  import opened Memory
  import opened FileData
  import opened FileLaws
  import opened Directory

  /** The entries of every directory. */
  type Dirs = map<int, seq<Item>>

  /** The block of directory d holds its entries. */
  ghost predicate OnDisk(g: Geometry, disk: Mem, dirs: Dirs, d: int)
    requires d in dirs
  {
    d > 0 && Lists(g, disk, d, dirs[d])
  }

  /** The block of directory e is not on the way to that of d, and no other directory's. */
  ghost predicate Separate(g: Geometry, disk: Mem, d: int, e: int)
  {
    && d > 0 && e > 0 && DataOk(g, disk, d, 0) && DataOk(g, disk, e, 0)
    && OffPath(g, disk, d, 0, DataBlock(g, disk, e, 0))
    && (d != e ==> DataBlock(g, disk, d, 0) != DataBlock(g, disk, e, 0))
  }

  ghost predicate AllOnDisk(g: Geometry, disk: Mem, dirs: Dirs)
  {
    && TablesApart(g)
    && (forall d {:trigger OnDisk(g, disk, dirs, d)} :: d in dirs ==> OnDisk(g, disk, dirs, d))
    && forall d, e {:trigger Separate(g, disk, d, e)} :: d in dirs && e in dirs ==> Separate(g, disk, d, e)
  }

  /** What a removal from directory `dir` writes is not on the way to another directory, nor in its block. */
  lemma OtherBytes(g: Geometry, disk: Mem, dir: nat, e: nat, x: int)
    requires TablesApart(g) && Separate(g, disk, e, dir) && Separate(g, disk, dir, e) && e != dir && Within(g, disk, dir, x)
    ensures !(g.InodeAt(e) <= x < g.InodeAt(e) + INODE_SIZE)
    ensures var b := g.BlockAt(DataBlock(g, disk, e, 0)); !(b <= x < b + g.BlockSize())
  {
    InodesApart(g, dir, e);
    var b, c := DataBlock(g, disk, dir, 0), DataBlock(g, disk, e, 0);
    if b < c { BlocksApart(g, b, c); } else { BlocksApart(g, c, b); }
  }

  lemma OtherKept(g: Geometry, disk: Mem, r: Mem, dir: nat, isDir: bool, e: nat)
    requires TablesApart(g) && Separate(g, disk, e, dir) && Separate(g, disk, dir, e) && e != dir && RemovedOnly(g, disk, r, dir, isDir)
    ensures DataOk(g, r, e, 0) && DataBlock(g, r, e, 0) == DataBlock(g, disk, e, 0)
    ensures FileBlock(g, r, e, 0) == FileBlock(g, disk, e, 0)
  {
    var a, b := g.InodeAt(e), g.BlockAt(DataBlock(g, disk, e, 0));
    forall x | a <= x < a + INODE_SIZE || b <= x < b + g.BlockSize() ensures r[x] == disk[x] {
      if Within(g, disk, dir, x) { OtherBytes(g, disk, dir, e, x); }
    }
    SameFrom(g, disk, r, e);
  }

  lemma SameFrom(g: Geometry, disk: Mem, r: Mem, e: nat)
    requires DataOk(g, disk, e, 0) && |r| == |disk|
    requires forall x :: g.InodeAt(e) <= x < g.InodeAt(e) + INODE_SIZE ==> r[x] == disk[x]
    requires var b := g.BlockAt(DataBlock(g, disk, e, 0)); forall x :: b <= x < b + g.BlockSize() ==> r[x] == disk[x]
    ensures DataOk(g, r, e, 0) && DataBlock(g, r, e, 0) == DataBlock(g, disk, e, 0)
    ensures FileBlock(g, r, e, 0) == FileBlock(g, disk, e, 0)
  {
  }

  /** After the removal all directories are on the disk, one of them with other entries. */
  lemma RemovalKeeps(g: Geometry, disk: Mem, r: Mem, dirs: Dirs, dir: nat, isDir: bool, items: seq<Item>)
    requires AllOnDisk(g, disk, dirs) && dir in dirs && dir > 0 && RemovedOnly(g, disk, r, dir, isDir) && Lists(g, r, dir, items)
    ensures AllOnDisk(g, r, dirs[dir := items])
  {
    var dirs' := dirs[dir := items];
    forall e | e in dirs ensures e > 0 && DataOk(g, r, e, 0) && DataBlock(g, r, e, 0) == DataBlock(g, disk, e, 0) {
      assert OnDisk(g, disk, dirs, e) && Separate(g, disk, e, dir) && Separate(g, disk, dir, e);
      if e != dir { OtherKept(g, disk, r, dir, isDir, e); }
    }
    forall e | e in dirs' ensures OnDisk(g, r, dirs', e) {
      assert OnDisk(g, disk, dirs, e) && Separate(g, disk, e, dir) && Separate(g, disk, dir, e);
      if e != dir { OtherKept(g, disk, r, dir, isDir, e); }
    }
    forall d, e | d in dirs' && e in dirs' ensures Separate(g, r, d, e) { assert Separate(g, disk, d, e); }
  }

  lemma Forget(g: Geometry, disk: Mem, dirs: Dirs, x: int)
    requires AllOnDisk(g, disk, dirs)
    ensures AllOnDisk(g, disk, dirs - {x})
  {
    forall d | d in dirs - {x} ensures OnDisk(g, disk, dirs - {x}, d) { assert OnDisk(g, disk, dirs, d); }
  }
}
