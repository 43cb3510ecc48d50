/** The chain of entries in a directory block, and the removal of one (src/filesystem.c). */
module Directory {
  import opened Memory
  import opened FileData
  import opened FileLaws

  const HEAD := 8        // an entry's inode, size, name length and type
  const LINKS := 26      // the offset of the number of hard links in an inode
  const FILE_DIR := 2    // the bit of an entry's type that says "directory"

  /** A directory entry; `size` reaches to the next one. */
  datatype Item = Item(inode: Word, size: int, kind: Byte, name: Mem)
  {
    /** The test against FILE_DIR, which is one bit. */
    predicate IsDir() { kind / FILE_DIR % 2 == 1 }
  }

  function SizeAt(m: Mem, p: nat): nat
    requires p + HEAD <= |m|
  {
    ShortAt(m, p + 4)
  }

  function InodeOf(m: Mem, p: nat): Word
    requires p + HEAD <= |m|
  {
    WordAt(m, p)
  }

  /** An entry of the given size starts at p. */
  ghost predicate Holds(m: Mem, p: nat, item: Item)
  {
    && HEAD + |item.name| <= item.size && p + item.size <= |m|
    && InodeOf(m, p) == item.inode && SizeAt(m, p) == item.size && m[p + 6] == |item.name| && m[p + 7] == item.kind
    && m[p + HEAD..p + HEAD + |item.name|] == item.name
  }

  /** An entry on the disk: 4 bytes of inode, 2 of size, 1 of name length, 1 of type, and the name. */
  lemma HoldsMeans(m: Mem, p: nat, item: Item)
    requires p + 8 <= |m|
    ensures Holds(m, p, item) <==>
              && Value(m[p..p + 4]) == item.inode && Value(m[p + 4..p + 6]) == item.size && m[p + 6] == |item.name| && m[p + 7] == item.kind
              && 8 + |item.name| <= item.size && p + item.size <= |m| && m[p + 8..p + 8 + |item.name|] == item.name
  {
    WordValue(m, p);
    ShortValue(m, p + 4);
  }

  /** The number of hard links in the inode at a. */
  ghost function Links(disk: Mem, a: nat): nat
    requires a + INODE_SIZE <= |disk|
  {
    Value(disk[a + 26..a + 28])
  }

  /** From p to the end, the block is tiled by these entries. */
  ghost predicate Chain(m: Mem, p: nat, items: seq<Item>)
    decreases |items|
  {
    if items == [] then p == |m| else Holds(m, p, items[0]) && Chain(m, p + items[0].size, items[1..])
  }

  /** Item k leaves, and its predecessor takes its room. */
  function Dropped(items: seq<Item>, k: int): seq<Item>
    requires 0 < k < |items|
  {
    items[..k - 1] + [items[k - 1].(size := items[k - 1].size + items[k].size)] + items[k + 1..]
  }

  function Offset(items: seq<Item>, k: int): int
    requires 0 <= k <= |items|
  {
    if k == 0 then 0 else items[0].size + Offset(items[1..], k - 1)
  }

  lemma {:induction false} SameChain(m: Mem, r: Mem, p: nat, items: seq<Item>)
    requires Chain(m, p, items) && |r| == |m| && forall x :: p <= x < |m| ==> r[x] == m[x]
    ensures Chain(r, p, items)
    decreases |items|
  {
    if items != [] {
      SameItem(m, r, p, items[0]);
      SameChain(m, r, p + items[0].size, items[1..]);
    }
  }

  lemma SameItem(m: Mem, r: Mem, p: nat, item: Item)
    requires Holds(m, p, item) && |r| == |m| && forall x :: p <= x < p + item.size ==> r[x] == m[x]
    ensures Holds(r, p, item)
  {
    assert r[p + HEAD..p + HEAD + |item.name|] == m[p + HEAD..p + HEAD + |item.name|];
  }

  /** r is m with the size of the entry at `prec` changed to s. */
  ghost predicate Resized(m: Mem, r: Mem, prec: nat, s: int)
  {
    && |r| == |m| && prec + HEAD <= |m| && SizeAt(r, prec) == s
    && forall x :: 0 <= x < |m| && x != prec + 4 && x != prec + 5 ==> r[x] == m[x]
  }

  lemma DropSecond(m: Mem, r: Mem, p: nat, items: seq<Item>)
    requires Chain(m, p, items) && 1 < |items| && Resized(m, r, p, items[0].size + items[1].size)
    ensures Chain(r, p, Dropped(items, 1))
  {
    var tail, s := items[1..], items[0].size + items[1].size;
    assert tail[0] == items[1] && tail[1..] == items[2..];
    assert Holds(m, p + items[0].size, items[1]);
    SameChain(m, r, p + s, items[2..]);
    assert r[p + HEAD..p + HEAD + |items[0].name|] == m[p + HEAD..p + HEAD + |items[0].name|];
    assert Holds(r, p, items[0].(size := s));
    var d := Dropped(items, 1);
    assert d[0] == items[0].(size := s) && d[1..] == items[2..];
  }

  /** The chain of the block after the removal: the other entries, in order, with their names. */
  lemma {:induction false} DropKeepsChain(m: Mem, r: Mem, p: nat, items: seq<Item>, k: int, prec: nat)
    requires Chain(m, p, items) && 0 < k < |items| && prec == p + Offset(items, k - 1)
    requires Resized(m, r, prec, items[k - 1].size + items[k].size)
    ensures Chain(r, p, Dropped(items, k))
    decreases |items|
  {
    if k == 1 {
      DropSecond(m, r, p, items);
    } else {
      var tail := items[1..];
      ChainAt(m, p + items[0].size, tail, k - 2);
      DropKeepsChain(m, r, p + items[0].size, tail, k - 1, prec);
      SameItem(m, r, p, items[0]);
      DroppedTail(items, k);
    }
  }

  lemma DroppedTail(items: seq<Item>, k: int)
    requires 1 < k < |items|
    ensures Dropped(items, k)[0] == items[0] && Dropped(items, k)[1..] == Dropped(items[1..], k - 1)
  {
  }

  lemma {:induction false} OffsetStep(items: seq<Item>, k: int)
    requires 0 <= k < |items|
    ensures Offset(items, k + 1) == Offset(items, k) + items[k].size
  {
    if k > 0 {
      OffsetStep(items[1..], k - 1);
    } else {
      assert Offset(items[1..], 0) == 0;
    }
  }

  /** The first entry after "." and ".." with that inode, |items| if there is none. */
  ghost predicate FirstWith(items: seq<Item>, inode: int, k: int)
  {
    2 <= k <= |items| && (k < |items| ==> items[k].inode == inode) && forall i :: 2 <= i < k ==> items[i].inode != inode
  }

  /** What the walk reads of an entry. */
  ghost predicate Head(m: Mem, p: nat, item: Item)
  {
    HEAD <= item.size && p + item.size <= |m| && InodeOf(m, p) == item.inode && SizeAt(m, p) == item.size && m[p + 7] == item.kind
  }

  /** Entry k of the chain is at at[k]. */
  ghost predicate StandsAt(m: Mem, items: seq<Item>, at: seq<int>, k: int)
    requires |at| == |items| + 1 && 0 <= k <= |items|
  {
    0 <= at[k] && if k < |items| then Head(m, at[k], items[k]) && at[k + 1] == at[k] + items[k].size else at[k] == |m|
  }

  /** The places of all entries. */
  ghost predicate Places(m: Mem, items: seq<Item>, at: seq<int>)
  {
    && |at| == |items| + 1 && at[0] == 0
    && forall k {:trigger StandsAt(m, items, at, k)} :: 0 <= k <= |items| ==> StandsAt(m, items, at, k)
  }

  /** A walk along the sizes finds these entries. */
  ghost predicate Walkable(m: Mem, items: seq<Item>)
  {
    |items| >= 2 && exists at :: Places(m, items, at)
  }

  lemma ChainPlaces(m: Mem, items: seq<Item>) returns (at: seq<int>)
    requires Chain(m, 0, items)
    ensures Places(m, items, at) && forall k :: 0 <= k <= |items| ==> at[k] == Offset(items, k)
  {
    at := seq(|items| + 1, k requires 0 <= k <= |items| => Offset(items, k));
    forall k | 0 <= k <= |items| ensures StandsAt(m, items, at, k) {
      ChainAt(m, 0, items, k);
      if k < |items| { OffsetStep(items, k); }
    }
  }

  /** The walk along the entries; `prec` stays one behind. */
  method FindEntry(buf: array<Byte>, inode: int, ghost items: seq<Item>, ghost at: seq<int>) returns (prec: nat, entry: nat, ghost k: int)
    requires Places(buf[..], items, at) && |items| >= 2
    ensures FirstWith(items, inode, k) && prec == at[k - 1] && entry == at[k] && (entry < buf.Length <==> k < |items|)
  {
    ghost var m := buf[..];
    assert StandsAt(m, items, at, 0) && StandsAt(m, items, at, 1) && StandsAt(m, items, at, 2);
    prec := ReadSize(buf, 0);
    var next := ReadSize(buf, prec);
    entry := prec + next;
    k := 2;
    while entry < buf.Length
      invariant 2 <= k <= |items| && prec == at[k - 1] && entry == at[k] && (k == |items| ==> entry == |m|)
      invariant forall i :: 2 <= i < k ==> items[i].inode != inode
      decreases |items| - k
    {
      assert StandsAt(m, items, at, k - 1) && StandsAt(m, items, at, k) && StandsAt(m, items, at, k + 1);
      var found := ReadInode(buf, entry);
      if found == inode {
        break;
      }
      next := ReadSize(buf, prec);
      prec := prec + next;
      next := ReadSize(buf, entry);
      entry := entry + next;
      k := k + 1;
    }
    if k < |items| { assert StandsAt(m, items, at, k); }
  }

  method ReadSize(buf: array<Byte>, p: nat) returns (s: nat)
    requires p + HEAD <= buf.Length
    ensures s == SizeAt(buf[..], p)
  {
    s := SizeAt(buf[..], p);
  }

  method ReadInode(buf: array<Byte>, p: nat) returns (i: Word)
    requires p + HEAD <= buf.Length
    ensures i == InodeOf(buf[..], p)
  {
    i := InodeOf(buf[..], p);
  }

  /** Entry k is where the sizes of the ones before it lead, and after the last one the block ends. */
  lemma {:induction false} ChainAt(m: Mem, p: nat, items: seq<Item>, k: int)
    requires Chain(m, p, items) && 0 <= k <= |items|
    ensures p <= p + Offset(items, k) && if k < |items| then Holds(m, p + Offset(items, k), items[k]) else p + Offset(items, k) == |m|
    decreases k
  {
    if k > 0 { ChainAt(m, p + items[0].size, items[1..], k - 1); }
  }

  method WriteSize(buf: array<Byte>, prec: nat, s: int)
    requires prec + HEAD <= buf.Length && 0 <= s < 0x1_0000
    modifies buf
    ensures Resized(old(buf[..]), buf[..], prec, s)
  {
    buf[prec + 4], buf[prec + 5] := s % 256, s / 256;
  }

  /** `prec->size += entry->size` */
  method Merge(buf: array<Byte>, prec: nat, entry: nat, ghost items: seq<Item>, ghost k: int)
    requires Chain(buf[..], 0, items) && 2 <= k < |items| && buf.Length <= 0x1_0000
    requires prec == Offset(items, k - 1) && entry == Offset(items, k)
    modifies buf
    ensures Chain(buf[..], 0, Dropped(items, k)) && entry + HEAD <= buf.Length && buf[entry + 7] == items[k].kind
  {
    ghost var m := buf[..];
    MergeReady(m, items, k, prec, entry);
    var a := ReadSize(buf, prec);
    var b := ReadSize(buf, entry);
    WriteSize(buf, prec, a + b);
    assert buf[..][entry + 7] == m[entry + 7];
    DropKeepsChain(m, buf[..], 0, items, k, prec);
  }

  /** What is known about the two entries before they are merged. */
  lemma MergeReady(m: Mem, items: seq<Item>, k: int, prec: nat, entry: nat)
    requires Chain(m, 0, items) && 2 <= k < |items| && |m| <= 0x1_0000 && prec == Offset(items, k - 1) && entry == Offset(items, k)
    ensures prec + HEAD <= entry && entry + HEAD <= |m| && m[entry + 7] == items[k].kind
    ensures SizeAt(m, prec) == items[k - 1].size && SizeAt(m, entry) == items[k].size && items[k - 1].size + items[k].size < 0x1_0000
  {
    ChainAt(m, 0, items, k - 1);
    ChainAt(m, 0, items, k);
    OffsetStep(items, k - 1);
    Positive(m, items, k - 1);
  }

  /** Only the first entry starts at 0. */
  lemma Positive(m: Mem, items: seq<Item>, k: int)
    requires Chain(m, 0, items) && 0 < k <= |items|
    ensures Offset(items, k) > 0
  {
    ChainAt(m, items[0].size, items[1..], k - 1);
  }

  // ----- on the disk -----

  /** The directory's block on the disk is tiled by these entries. */
  ghost predicate Lists(g: Geometry, disk: Mem, dir: nat, items: seq<Item>)
  {
    DataOk(g, disk, dir, 0) && Chain(FileBlock(g, disk, dir, 0), 0, items) && |items| >= 2
  }

  /** An inode's bytes but for the number of links. */
  ghost predicate SameButLinks(a: Mem, b: Mem)
  {
    |a| == |b| && forall x :: 0 <= x < |a| && x != LINKS && x != LINKS + 1 ==> a[x] == b[x]
  }

  /** `hard_links--`, in 16 bits. */
  method DropLink(inode: array<Byte>)
    requires inode.Length == INODE_SIZE
    modifies inode
    ensures SameButLinks(old(inode[..]), inode[..]) && ShortAt(inode[..], LINKS) == (ShortAt(old(inode[..]), LINKS) + 0xFFFF) % 0x1_0000
  {
    var links := (ShortAt(inode[..], LINKS) + 0xFFFF) % 0x1_0000;
    inode[LINKS], inode[LINKS + 1] := links % 256, links / 256;
  }

  /**
   * `remove_file`: the entry leaves the chain of its directory, all other entries stay, in order, and no other byte
   * of the disk changes than those of the directory's block and its link count.
   */
  method RemoveFile(fs: FileSystem, dir: nat, inode: int, ghost items: seq<Item>) returns (res: int, ghost k: int)
    requires fs.Valid() && fs.g.BlockSize() <= 0x1_0000
    requires dir != 0 ==> Lists(fs.g, fs.drive.disk, dir, items) && OffPath(fs.g, fs.drive.disk, dir, 0, DataBlock(fs.g, fs.drive.disk, dir, 0))
    modifies fs.drive, fs.stdBuf, fs.stdInode
    ensures fs.Valid()
    ensures res == if dir == 0 then 4 else if inode == 0 then 5 else if k == |items| then 1 else 0
    ensures dir != 0 && inode != 0 ==> FirstWith(items, inode, k)
    ensures res != 0 ==> fs.drive.disk == old(fs.drive.disk)
    ensures res == 0 ==> Lists(fs.g, fs.drive.disk, dir, Dropped(items, k))
    ensures res == 0 ==> RemovedOnly(fs.g, old(fs.drive.disk), fs.drive.disk, dir, items[k].IsDir())
    ensures res == 0 ==> var n := Links(old(fs.drive.disk), fs.g.InodeAt(dir));
              Links(fs.drive.disk, fs.g.InodeAt(dir)) == if items[k].kind % 4 < FILE_DIR then n else if n == 0 then 0xFFFF else n - 1
  {
    k := 0;
    if dir == 0 {
      return 4, 0;
    }
    if inode == 0 {
      return 5, 0;
    }
    LoadDir(fs, dir);
    var found, isDir;
    found, isDir, k := Unlink(fs.stdBuf, inode, items);
    if !found {
      return 1, k;
    }
    ghost var disk := fs.drive.disk;
    StoreDir(fs, dir, isDir, Dropped(items, k));
    res := 0;
    CountLinks(fs.g, disk, fs.drive.disk, dir, items[k]);
  }

  /** One link less for a directory, whose type has the bit FILE_DIR; in 16 bits. */
  lemma CountLinks(g: Geometry, disk: Mem, r: Mem, dir: nat, item: Item)
    requires RemovedOnly(g, disk, r, dir, item.IsDir())
    ensures var n := Links(disk, g.InodeAt(dir));
            Links(r, g.InodeAt(dir)) == if item.kind % 4 < FILE_DIR then n else if n == 0 then 0xFFFF else n - 1
  {
    var a := g.InodeAt(dir);
    DirBit(item);
    LinksRead(disk, a);
    LinksRead(r, a);
    OneLess(Links(disk, a));
  }

  lemma LinksRead(m: Mem, a: nat)
    requires a + INODE_SIZE <= |m|
    ensures ShortAt(m, a + LINKS) == Links(m, a) < 0x1_0000
  {
    ShortValue(m, a + LINKS);
  }

  lemma DirBit(item: Item)
    ensures item.IsDir() <==> item.kind % 4 >= FILE_DIR
  {
  }

  lemma OneLess(n: nat)
    requires n < 0x1_0000
    ensures (n + 0xFFFF) % 0x1_0000 == if n == 0 then 0xFFFF else n - 1
    ensures n % 0x1_0000 == n
  {
  }

  /** The removal in the buffer. */
  method Unlink(buf: array<Byte>, inode: int, ghost items: seq<Item>) returns (found: bool, isDir: bool, ghost k: int)
    requires Chain(buf[..], 0, items) && |items| >= 2 && buf.Length <= 0x1_0000
    modifies buf
    ensures FirstWith(items, inode, k) && (found <==> k < |items|)
    ensures found ==> Chain(buf[..], 0, Dropped(items, k)) && isDir == items[k].IsDir()
    ensures !found ==> buf[..] == old(buf[..])
  {
    ghost var at := ChainPlaces(buf[..], items);
    var prec, entry;
    prec, entry, k := FindEntry(buf, inode, items, at);
    found, isDir := entry < buf.Length, false;
    if found {
      Merge(buf, prec, entry, items, k);
      isDir := buf[entry + 7] / FILE_DIR % 2 == 1;
    }
  }

  /** x is a byte of the directory's block or of its link count. */
  ghost predicate Within(g: Geometry, disk: Mem, dir: nat, x: int)
    requires DataOk(g, disk, dir, 0)
  {
    var a := g.BlockAt(DataBlock(g, disk, dir, 0));
    a <= x < a + g.BlockSize() || x == g.InodeAt(dir) + LINKS || x == g.InodeAt(dir) + LINKS + 1
  }

  /** Only the block of the directory and its link count changed. */
  ghost predicate RemovedOnly(g: Geometry, disk: Mem, r: Mem, dir: nat, isDir: bool)
  {
    && DataOk(g, disk, dir, 0) && DataOk(g, r, dir, 0) && |r| == |disk|
    && DataBlock(g, r, dir, 0) == DataBlock(g, disk, dir, 0)
    && (forall x :: 0 <= x < |disk| && !Within(g, disk, dir, x) ==> r[x] == disk[x])
    && ShortAt(r, g.InodeAt(dir) + LINKS) == (ShortAt(disk, g.InodeAt(dir) + LINKS) + if isDir then 0xFFFF else 0) % 0x1_0000
  }

  method LoadDir(fs: FileSystem, dir: nat)
    requires fs.Valid() && DataOk(fs.g, fs.drive.disk, dir, 0)
    modifies fs.drive`pos, fs.drive`left, fs.stdBuf, fs.stdInode
    ensures fs.Valid() && fs.stdBuf[..] == FileBlock(fs.g, fs.drive.disk, dir, 0)
    ensures fs.stdInode[..] == Stretch(fs.drive.disk, fs.g.InodeAt(dir), INODE_SIZE)
  {
    Small(0, fs.g.BlockSize());
    var width := fs.ReadInodeData(dir, fs.stdBuf, 0, 0, fs.g.BlockSize());
    assert fs.stdBuf[0..width] == fs.stdBuf[..];
  }

  method StoreDir(fs: FileSystem, dir: nat, isDir: bool, ghost items: seq<Item>)
    requires fs.Valid() && DataOk(fs.g, fs.drive.disk, dir, 0)
    requires OffPath(fs.g, fs.drive.disk, dir, 0, DataBlock(fs.g, fs.drive.disk, dir, 0))
    requires Chain(fs.stdBuf[..], 0, items) && |items| >= 2
    requires fs.stdInode[..] == Stretch(fs.drive.disk, fs.g.InodeAt(dir), INODE_SIZE)
    modifies fs.drive, fs.stdBuf, fs.stdInode
    ensures fs.Valid() && Lists(fs.g, fs.drive.disk, dir, items) && RemovedOnly(fs.g, old(fs.drive.disk), fs.drive.disk, dir, isDir)
  {
    ghost var disk := fs.drive.disk;
    StoreBlock(fs, dir);
    if isDir {
      StoreLink(fs, dir, disk);
    }
  }

  method StoreBlock(fs: FileSystem, dir: nat)
    requires fs.Valid() && DataOk(fs.g, fs.drive.disk, dir, 0)
    requires OffPath(fs.g, fs.drive.disk, dir, 0, DataBlock(fs.g, fs.drive.disk, dir, 0))
    requires fs.stdInode[..] == Stretch(fs.drive.disk, fs.g.InodeAt(dir), INODE_SIZE)
    modifies fs.drive
    ensures fs.Valid() && RemovedOnly(fs.g, old(fs.drive.disk), fs.drive.disk, dir, false)
    ensures FileBlock(fs.g, fs.drive.disk, dir, 0) == fs.stdBuf[..]
    ensures fs.stdInode[..] == Stretch(fs.drive.disk, fs.g.InodeAt(dir), INODE_SIZE)
  {
    ghost var disk, bytes := fs.drive.disk, fs.stdBuf[..];
    var block := FirstBlock(fs, dir);
    fs.WriteBlock(block);
    BlockStored(fs.g, disk, fs.drive.disk, dir, bytes);
  }

  /** `std_inode->dbp[0]` */
  method FirstBlock(fs: FileSystem, dir: nat) returns (block: nat)
    requires fs.Valid() && DataOk(fs.g, fs.drive.disk, dir, 0)
    requires fs.stdInode[..] == Stretch(fs.drive.disk, fs.g.InodeAt(dir), INODE_SIZE)
    ensures block == DataBlock(fs.g, fs.drive.disk, dir, 0)
  {
    ghost var a := fs.g.InodeAt(dir);
    assert forall x :: 0 <= x < INODE_SIZE ==> fs.stdInode[..][x] == fs.drive.disk[a + x];
    block := WordAt(fs.stdInode[..], DIRECT);
  }

  method StoreLink(fs: FileSystem, dir: nat, ghost disk: Mem)
    requires fs.Valid() && RemovedOnly(fs.g, disk, fs.drive.disk, dir, false)
    requires OffPath(fs.g, disk, dir, 0, DataBlock(fs.g, disk, dir, 0))
    requires fs.stdInode[..] == Stretch(fs.drive.disk, fs.g.InodeAt(dir), INODE_SIZE)
    modifies fs.drive, fs.stdBuf, fs.stdInode
    ensures fs.Valid() && RemovedOnly(fs.g, disk, fs.drive.disk, dir, true)
    ensures FileBlock(fs.g, fs.drive.disk, dir, 0) == FileBlock(fs.g, old(fs.drive.disk), dir, 0)
  {
    ghost var disk1 := fs.drive.disk;
    DropLink(fs.stdInode);
    ghost var inode := fs.stdInode[..];
    fs.UpdateInode(dir, fs.stdInode);
    LinkStored(fs.g, disk, disk1, fs.drive.disk, dir, inode);
  }

  lemma BlockStored(g: Geometry, disk: Mem, r: Mem, dir: nat, bytes: Mem)
    requires DataOk(g, disk, dir, 0) && OffPath(g, disk, dir, 0, DataBlock(g, disk, dir, 0)) && |bytes| == g.BlockSize()
    requires r == Splice(disk, g.BlockAt(DataBlock(g, disk, dir, 0)), bytes)
    ensures RemovedOnly(g, disk, r, dir, false) && FileBlock(g, r, dir, 0) == bytes
    ensures Stretch(r, g.InodeAt(dir), INODE_SIZE) == Stretch(disk, g.InodeAt(dir), INODE_SIZE)
  {
    var b := DataBlock(g, disk, dir, 0);
    SplicedOnlyIn(g, disk, r, b, bytes);
    SamePath(g, disk, r, dir, 0, b);
    SameInode(g, disk, r, dir, b);
    BlockOnly(g, disk, r, dir);
  }

  lemma BlockOnly(g: Geometry, disk: Mem, r: Mem, dir: nat)
    requires DataOk(g, disk, dir, 0) && DataOk(g, r, dir, 0) && DataBlock(g, r, dir, 0) == DataBlock(g, disk, dir, 0)
    requires OnlyIn(g, disk, r, DataBlock(g, disk, dir, 0)) && ShortAt(r, g.InodeAt(dir) + LINKS) == ShortAt(disk, g.InodeAt(dir) + LINKS)
    ensures RemovedOnly(g, disk, r, dir, false)
  {
    forall x | 0 <= x < |disk| && !Within(g, disk, dir, x) ensures r[x] == disk[x] {}
  }

  lemma SplicedOnlyIn(g: Geometry, disk: Mem, r: Mem, b: nat, bytes: Mem)
    requires g.OnDisk(disk, b) && |bytes| == g.BlockSize() && r == Splice(disk, g.BlockAt(b), bytes)
    ensures OnlyIn(g, disk, r, b) && Stretch(r, g.BlockAt(b), g.BlockSize()) == bytes
  {
  }

  lemma SameInode(g: Geometry, disk: Mem, r: Mem, dir: nat, b: nat)
    requires PathOk(g, disk, dir, 0) && OffPath(g, disk, dir, 0, b) && OnlyIn(g, disk, r, b)
    ensures Stretch(r, g.InodeAt(dir), INODE_SIZE) == Stretch(disk, g.InodeAt(dir), INODE_SIZE)
    ensures ShortAt(r, g.InodeAt(dir) + LINKS) == ShortAt(disk, g.InodeAt(dir) + LINKS)
  {
    var a := g.InodeAt(dir);
    assert forall x :: a <= x < a + INODE_SIZE ==> r[x] == disk[x];
  }

  lemma LinkStored(g: Geometry, disk: Mem, disk1: Mem, r: Mem, dir: nat, inode: Mem)
    requires RemovedOnly(g, disk, disk1, dir, false) && |inode| == INODE_SIZE && r == Splice(disk1, g.InodeAt(dir), inode)
    requires OffPath(g, disk, dir, 0, DataBlock(g, disk, dir, 0))
    requires var was := Stretch(disk1, g.InodeAt(dir), INODE_SIZE);
             SameButLinks(was, inode) && ShortAt(inode, LINKS) == (ShortAt(was, LINKS) + 0xFFFF) % 0x1_0000
    ensures RemovedOnly(g, disk, r, dir, true) && FileBlock(g, r, dir, 0) == FileBlock(g, disk1, dir, 0)
  {
    var a := g.InodeAt(dir);
    InodeBytes(disk1, r, a, inode);
    LinksBelow(disk, a + LINKS);
    assert forall x :: 0 <= x < |disk| && !Within(g, disk, dir, x) ==> r[x] == disk1[x];
  }

  lemma LinksBelow(m: Mem, a: nat)
    requires a + 2 <= |m|
    ensures ShortAt(m, a) % 0x1_0000 == ShortAt(m, a)
  {
  }

  lemma InodeBytes(disk: Mem, r: Mem, a: nat, inode: Mem)
    requires |inode| == INODE_SIZE && a + INODE_SIZE <= |disk| && r == Splice(disk, a, inode)
    requires SameButLinks(Stretch(disk, a, INODE_SIZE), inode)
    ensures forall x :: 0 <= x < |disk| && x != a + LINKS && x != a + LINKS + 1 ==> r[x] == disk[x]
    ensures ShortAt(r, a + LINKS) == ShortAt(inode, LINKS)
  {
    assert forall y :: 0 <= y < INODE_SIZE ==> r[a + y] == inode[y] && Stretch(disk, a, INODE_SIZE)[y] == disk[a + y];
  }
}
