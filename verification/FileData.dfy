/** Inodes and file data on the disk (src/filesystem.c). */
module FileData {
  import opened Memory
  import opened AtaPio

  const INODE_SIZE := 128
  const DIRECT := 40      // the offset of the twelve direct block pointers in an inode
  const INDIRECT := 88    // the offset of the single indirect block pointer

  function Quotient(a: nat, b: nat): nat requires b > 0 { a / b }

  function Remainder(a: nat, b: nat): nat requires b > 0 { a % b }

  /** Sectors per block, inodes per group, and the block of each group's inode table. */
  datatype Geometry = Geometry(factor: nat, perGroup: nat, tables: seq<nat>)
  {
    ghost predicate Valid() { 0 < factor < 256 && perGroup > 0 }

    function BlockSize(): nat { SECTOR * factor }

    /** The place of block n on the disk. */
    function BlockAt(n: nat): nat { SECTOR * (VOLUME + factor * n) }

    ghost predicate OnDisk(disk: Mem, n: nat) { BlockAt(n) + BlockSize() <= |disk| }

    predicate HasInode(k: nat) { k > 0 && perGroup > 0 && Quotient(k - 1, perGroup) < |tables| }

    /** Where the inode table of inode k's group starts, and where k is in it. */
    function Table(k: nat): nat requires HasInode(k) { tables[Quotient(k - 1, perGroup)] }

    function Index(k: nat): nat requires HasInode(k) { Remainder(k - 1, perGroup) }

    function InodeAt(k: nat): nat requires HasInode(k) { BlockAt(Table(k)) + INODE_SIZE * Index(k) }

    /** The number of the block that holds inode k. */
    function InodeBlock(k: nat): nat requires Valid() && HasInode(k) { Table(k) + Quotient(INODE_SIZE * Index(k), BlockSize()) }
  }

  /** Block t plus some bytes is another block plus fewer bytes. */
  lemma InBlock(g: Geometry, t: nat, o: nat)
    requires g.Valid()
    ensures g.BlockAt(t + Quotient(o, g.BlockSize())) + Remainder(o, g.BlockSize()) == g.BlockAt(t) + o
  {
    var q := Quotient(o, g.BlockSize());
    Distribute(g.factor, t, q);
    Division(o, g.BlockSize());
    Associate(SECTOR, g.factor, q);
  }

  lemma Division(a: nat, b: nat)
    requires b > 0
    ensures a == b * Quotient(a, b) + Remainder(a, b) && Remainder(a, b) < b
  {
  }

  lemma Associate(a: nat, b: nat, c: nat)
    ensures a * (b * c) == (a * b) * c
  {
  }

  lemma Distribute(a: nat, b: nat, c: nat)
    ensures a * (b + c) == a * b + a * c
  {
  }

  lemma Aligned(i: nat, c: nat)
    requires c > 0
    ensures INODE_SIZE * i % (INODE_SIZE * c) + INODE_SIZE <= INODE_SIZE * c
  {
    var o, bs := INODE_SIZE * i, INODE_SIZE * c;
    var q := o / bs;
    assert o % bs == INODE_SIZE * (i - c * q);
  }

  /** An inode does not reach over the end of its block. */
  lemma InodeInBlock(g: Geometry, disk: Mem, k: nat)
    requires g.Valid() && g.HasInode(k) && g.OnDisk(disk, g.InodeBlock(k))
    ensures var r := Remainder(INODE_SIZE * g.Index(k), g.BlockSize());
            g.InodeAt(k) == g.BlockAt(g.InodeBlock(k)) + r && r + INODE_SIZE <= g.BlockSize() && g.InodeAt(k) + INODE_SIZE <= |disk|
  {
    InBlock(g, g.Table(k), INODE_SIZE * g.Index(k));
    Aligned(g.Index(k), 4 * g.factor);
    assert INODE_SIZE * (4 * g.factor) == g.BlockSize();
  }

  // ----- the way to a block of data -----

  ghost predicate InodeOk(g: Geometry, disk: Mem, k: nat)
  {
    g.Valid() && g.HasInode(k) && g.OnDisk(disk, g.InodeBlock(k)) && g.InodeAt(k) + INODE_SIZE <= |disk|
  }

  function Indirect(g: Geometry, disk: Mem, k: nat): nat
    requires InodeOk(g, disk, k)
  {
    WordAt(disk, g.InodeAt(k) + INDIRECT)
  }

  /** Block n of the file is direct, or in reach of the single indirect block. */
  ghost predicate PathOk(g: Geometry, disk: Mem, k: nat, n: nat)
  {
    InodeOk(g, disk, k) && (n >= 12 ==> 4 * (n - 12) + 4 <= g.BlockSize() && g.OnDisk(disk, Indirect(g, disk, k)))
  }

  function DataBlock(g: Geometry, disk: Mem, k: nat, n: nat): nat
    requires PathOk(g, disk, k, n)
  {
    if n < 12 then WordAt(disk, g.InodeAt(k) + DIRECT + 4 * n) else WordAt(disk, g.BlockAt(Indirect(g, disk, k)) + 4 * (n - 12))
  }

  /** Where on the disk inode k starts: 128 bytes each, in the table of its group. */
  ghost predicate InodePlace(g: Geometry, k: nat, a: nat)
    requires g.HasInode(k)
  {
    a == 512 * (2048 + g.factor * g.tables[(k - 1) / g.perGroup]) + 128 * ((k - 1) % g.perGroup)
  }

  /** The bytes from a on stand for the number b. */
  ghost predicate NumberAt(disk: Mem, a: nat, b: nat)
  {
    a + 4 <= |disk| && Value(disk[a..a + 4]) == b
  }

  /** The inode at a names block b for the n-th of the file: by its n-th pointer, or by one in the block of pointers. */
  ghost predicate NamesBlock(g: Geometry, disk: Mem, a: nat, n: nat, b: nat)
  {
    if n < 12 then NumberAt(disk, a + 40 + 4 * n, b)
    else exists i: nat :: NumberAt(disk, a + 88, i) && NumberAt(disk, 512 * (2048 + g.factor * i) + 4 * (n - 12), b)
  }

  /** Inode k leads to block b for the n-th of the file. */
  ghost predicate LeadsTo(g: Geometry, disk: Mem, k: nat, n: nat, b: nat)
  {
    g.HasInode(k) && exists a: nat :: InodePlace(g, k, a) && NamesBlock(g, disk, a, n, b)
  }

  /** The bytes s are on the disk, from byte `from` of block b on. */
  ghost predicate InBlockAt(g: Geometry, disk: Mem, b: nat, from: nat, s: Mem)
  {
    var a := 512 * (2048 + g.factor * b) + from;
    a + |s| <= |disk| && disk[a..a + |s|] == s
  }

  lemma PlaceIs(g: Geometry, k: nat, a: nat)
    requires g.HasInode(k)
    ensures InodePlace(g, k, a) <==> a == g.InodeAt(k)
  {
  }

  lemma BlockPlace(g: Geometry, n: nat)
    ensures g.BlockAt(n) == 512 * (2048 + g.factor * n)
  {
  }

  lemma NumberIs(disk: Mem, a: nat, b: nat)
    requires a + 4 <= |disk|
    ensures NumberAt(disk, a, b) <==> b == WordAt(disk, a)
  {
    WordValue(disk, a);
  }

  lemma DirectIs(g: Geometry, disk: Mem, a: nat, n: nat, b: nat)
    requires n < 12 && a + INODE_SIZE <= |disk|
    ensures NamesBlock(g, disk, a, n, b) <==> b == WordAt(disk, a + DIRECT + 4 * n)
  {
    NumberIs(disk, a + 40 + 4 * n, b);
  }

  lemma IndirectIs(g: Geometry, disk: Mem, a: nat, n: nat, b: nat)
    requires n >= 12 && a + INODE_SIZE <= |disk| && g.BlockAt(WordAt(disk, a + INDIRECT)) + 4 * (n - 12) + 4 <= |disk|
    ensures NamesBlock(g, disk, a, n, b) <==> b == WordAt(disk, g.BlockAt(WordAt(disk, a + INDIRECT)) + 4 * (n - 12))
  {
    var i: nat := WordAt(disk, a + INDIRECT);
    var at := a + 88;
    BlockPlace(g, i);
    forall j: nat ensures NumberAt(disk, at, j) <==> j == i { NumberIs(disk, at, j); }
    NumberIs(disk, 512 * (2048 + g.factor * i) + 4 * (n - 12), b);
  }

  /** The block that inode k leads to is the one that is read and written. */
  lemma LeadsToOne(g: Geometry, disk: Mem, k: nat, n: nat, b: nat)
    requires PathOk(g, disk, k, n)
    ensures LeadsTo(g, disk, k, n, b) <==> b == DataBlock(g, disk, k, n)
  {
    var a := g.InodeAt(k);
    forall c: nat ensures InodePlace(g, k, c) <==> c == a { PlaceIs(g, k, c); }
    if n < 12 { DirectIs(g, disk, a, n, b); } else { IndirectIs(g, disk, a, n, b); }
  }

  /** Disk r holds the bytes s where `disk` says that byte `offset` of file k is. */
  ghost predicate FoundAt(g: Geometry, disk: Mem, r: Mem, k: nat, offset: nat, s: Mem)
    requires g.Valid()
  {
    exists b: nat :: LeadsTo(g, disk, k, Quotient(offset, g.BlockSize()), b) && InBlockAt(g, r, b, Remainder(offset, g.BlockSize()), s)
  }

  lemma FoundIs(g: Geometry, disk: Mem, r: Mem, k: nat, offset: nat, s: Mem)
    requires g.Valid() && PathOk(g, disk, k, Quotient(offset, g.BlockSize())) && DataAt(g, disk, k, offset) + |s| <= |r|
    ensures FoundAt(g, disk, r, k, offset, s) <==> Stretch(r, DataAt(g, disk, k, offset), |s|) == s
  {
    var n, from := Quotient(offset, g.BlockSize()), Remainder(offset, g.BlockSize());
    var b := DataBlock(g, disk, k, n);
    forall c: nat ensures LeadsTo(g, disk, k, n, c) <==> c == b { LeadsToOne(g, disk, k, n, c); }
    InBlockIs(g, r, b, from, s);
    assert FoundAt(g, disk, r, k, offset, s) <==> InBlockAt(g, r, b, from, s);
  }

  lemma InBlockIs(g: Geometry, r: Mem, b: nat, from: nat, s: Mem)
    requires g.BlockAt(b) + from + |s| <= |r|
    ensures InBlockAt(g, r, b, from, s) <==> Stretch(r, g.BlockAt(b) + from, |s|) == s
  {
    BlockPlace(g, b);
  }

  ghost predicate DataOk(g: Geometry, disk: Mem, k: nat, n: nat)
  {
    PathOk(g, disk, k, n) && g.OnDisk(disk, DataBlock(g, disk, k, n))
  }

  class FileSystem {
    const drive: Drive
    const g: Geometry
    const stdBuf: array<Byte>
    const stdInode: array<Byte>

    ghost predicate Valid()
      reads drive
    {
      g.Valid() && drive.left == 0 && stdBuf.Length == g.BlockSize() && stdInode.Length == INODE_SIZE && stdBuf != stdInode
    }

    constructor (drive: Drive, g: Geometry)
      requires g.Valid() && drive.left == 0
      ensures Valid() && this.drive == drive && this.g == g && fresh(stdBuf) && fresh(stdInode)
    {
      this.drive := drive;
      this.g := g;
      stdBuf := new Byte[g.BlockSize()](_ => 0);
      stdInode := new Byte[INODE_SIZE](_ => 0);
    }

    /** `update_block`: read, modify, write; only the given bytes of the disk change. */
    method UpdateBlock(buffer: array<Byte>, offset: nat, length: nat, block: nat)
      requires Valid() && buffer != stdBuf && length <= buffer.Length
      requires Remainder(offset, g.BlockSize()) + length <= g.BlockSize()
      requires g.OnDisk(drive.disk, block + Quotient(offset, g.BlockSize()))
      modifies drive, stdBuf
      ensures Valid() && g.BlockAt(block) + offset + length <= |drive.disk| == |old(drive.disk)|
      ensures drive.disk == Splice(old(drive.disk), g.BlockAt(block) + offset, buffer[..length])
    {
      InBlock(g, block, offset);
      Distribute(g.factor, block, Quotient(offset, g.BlockSize()));
      var address := g.factor * block + g.factor * Quotient(offset, g.BlockSize());
      var ofs := Remainder(offset, g.BlockSize());
      Rewrite(buffer, ofs, length, address);
    }

    method Rewrite(buffer: array<Byte>, ofs: nat, length: nat, address: nat)
      requires Valid() && buffer != stdBuf && length <= buffer.Length && ofs + length <= g.BlockSize()
      requires SECTOR * (VOLUME + address + g.factor) <= |drive.disk|
      modifies drive, stdBuf
      ensures Valid() && |drive.disk| == |old(drive.disk)|
      ensures drive.disk == Splice(old(drive.disk), SECTOR * (VOLUME + address) + ofs, buffer[..length])
    {
      drive.ReadLba(address, g.factor, stdBuf);
      assert stdBuf[..SECTOR * g.factor] == stdBuf[..];
      Overwrite(buffer, ofs, length);
      SpliceInside(drive.disk, SECTOR * (VOLUME + address), g.BlockSize(), ofs, buffer[..length]);
      drive.WriteLba(address, g.factor, stdBuf);
      assert stdBuf[..SECTOR * g.factor] == stdBuf[..];
    }

    method Overwrite(buffer: array<Byte>, ofs: nat, length: nat)
      requires buffer != stdBuf && length <= buffer.Length && ofs + length <= stdBuf.Length
      modifies stdBuf
      ensures stdBuf[..] == Splice(old(stdBuf[..]), ofs, buffer[..length])
    {
      var pos := ofs;
      while pos < ofs + length
        invariant ofs <= pos <= ofs + length && stdBuf[..] == Splice(old(stdBuf[..]), ofs, buffer[..pos - ofs])
      {
        stdBuf[pos] := buffer[pos - ofs];
        pos := pos + 1;
        assert buffer[..pos - ofs] == buffer[..pos - 1 - ofs] + [buffer[pos - 1 - ofs]];
      }
    }

    /** `set_inode` */
    method SetInode(k: nat, buffer: array<Byte>)
      requires Valid() && InodeOk(g, drive.disk, k) && buffer.Length == INODE_SIZE
      modifies drive`pos, drive`left, buffer
      ensures Valid() && InodePlace(g, k, g.InodeAt(k)) && buffer[..] == Stretch(drive.disk, g.InodeAt(k), INODE_SIZE)
    {
      var i := g.Index(k);
      InodeInBlock(g, drive.disk, k);
      OneSector(i);
      SectorOnDisk(g, drive.disk, k);
      var ok := drive.ReadPio(g.factor * g.Table(k), INODE_SIZE * i, INODE_SIZE, buffer, 0);
      assert buffer[0..INODE_SIZE] == buffer[..];
    }

    /** `update_inode` */
    method UpdateInode(k: nat, buffer: array<Byte>)
      requires Valid() && InodeOk(g, drive.disk, k) && buffer.Length == INODE_SIZE && buffer != stdBuf
      modifies drive, stdBuf
      ensures Valid() && |drive.disk| == |old(drive.disk)| && drive.disk == Splice(old(drive.disk), g.InodeAt(k), buffer[..])
      ensures InodePlace(g, k, g.InodeAt(k))
    {
      InodeInBlock(g, drive.disk, k);
      UpdateBlock(buffer, INODE_SIZE * g.Index(k), INODE_SIZE, g.Table(k));
      assert buffer[..INODE_SIZE] == buffer[..];
    }

    /** The block where byte `offset` of the file lies; `std_inode` and `std_buf` are overwritten on the way. */
    method FindBlock(k: nat, n: nat) returns (block: nat)
      requires Valid() && PathOk(g, drive.disk, k, n)
      modifies drive`pos, drive`left, stdBuf, stdInode
      ensures Valid() && block == DataBlock(g, drive.disk, k, n) && stdInode[..] == Stretch(drive.disk, g.InodeAt(k), INODE_SIZE)
    {
      SetInode(k, stdInode);
      if n < 12 {
        WordInside(drive.disk, g.InodeAt(k), INODE_SIZE, DIRECT + 4 * n);
        block := WordAt(stdInode[..], DIRECT + 4 * n);
      } else {
        WordInside(drive.disk, g.InodeAt(k), INODE_SIZE, INDIRECT);
        var indirect: nat := WordAt(stdInode[..], INDIRECT);
        ReadBlock(indirect);
        WordInside(drive.disk, g.BlockAt(indirect), g.BlockSize(), 4 * (n - 12));
        block := WordAt(stdBuf[..], 4 * (n - 12));
      }
    }

    method ReadBlock(block: nat)
      requires Valid() && g.OnDisk(drive.disk, block)
      modifies drive`pos, drive`left, stdBuf
      ensures Valid() && stdBuf[..] == Stretch(drive.disk, g.BlockAt(block), g.BlockSize())
    {
      assert Sectors(0, g.BlockSize()) == g.factor;
      var ok := drive.ReadPio(g.factor * block, 0, g.BlockSize(), stdBuf, 0);
      assert stdBuf[0..g.BlockSize()] == stdBuf[..];
    }

    /** A whole block from `std_buf`. */
    method WriteBlock(block: nat)
      requires Valid() && g.OnDisk(drive.disk, block)
      modifies drive
      ensures Valid() && |drive.disk| == |old(drive.disk)| && drive.disk == Splice(old(drive.disk), g.BlockAt(block), stdBuf[..])
    {
      drive.WriteLba(g.factor * block, g.factor, stdBuf);
      assert stdBuf[..SECTOR * g.factor] == stdBuf[..];
    }

    /**
     * `read_inode_data`, for direct and single-indirect blocks: up to the end of the block. The bytes are those of the
     * block that the pointers in inode k lead to.
     */
    method ReadInodeData(k: nat, buffer: array<Byte>, at: nat, offset: nat, length: nat) returns (width: nat)
      requires Valid() && buffer != stdInode && DataOk(g, drive.disk, k, Quotient(offset, g.BlockSize()))
      requires at + length <= buffer.Length
      modifies drive`pos, drive`left, stdBuf, stdInode, buffer
      ensures Valid() && width == Width(g, offset, length)
      ensures buffer[at..at + width] == Stretch(drive.disk, DataAt(g, drive.disk, k, offset), width)
      ensures FoundAt(g, drive.disk, drive.disk, k, offset, buffer[at..at + width])
      ensures stdInode[..] == Stretch(drive.disk, g.InodeAt(k), INODE_SIZE)
      ensures buffer != stdBuf ==> forall j :: 0 <= j < buffer.Length && !(at <= j < at + width) ==> buffer[j] == old(buffer[j])
    {
      var ofs := Remainder(offset, g.BlockSize());
      width := Width(g, offset, length);
      var block := FindBlock(k, Quotient(offset, g.BlockSize()));
      ReadData(block, ofs, width, buffer, at);
      FoundIs(g, drive.disk, drive.disk, k, offset, buffer[at..at + width]);
    }

    method ReadData(block: nat, ofs: nat, width: nat, buffer: array<Byte>, at: nat)
      requires Valid() && g.OnDisk(drive.disk, block) && ofs + width <= g.BlockSize() && at + width <= buffer.Length
      modifies drive`pos, drive`left, buffer
      ensures Valid() && buffer[at..at + width] == Stretch(drive.disk, g.BlockAt(block) + ofs, width)
      ensures forall j :: 0 <= j < buffer.Length && !(at <= j < at + width) ==> buffer[j] == old(buffer[j])
    {
      if width > 0 { FewSectors(g, ofs, width); }
      var ok := drive.ReadPio(g.factor * block, ofs, width, buffer, at);
    }

    /** `write_inode_data`, likewise: the bytes go to the block that the pointers lead to, and nowhere else. */
    method WriteInodeData(k: nat, buffer: array<Byte>, offset: nat, length: nat) returns (width: nat)
      requires Valid() && buffer != stdInode && buffer != stdBuf && DataOk(g, drive.disk, k, Quotient(offset, g.BlockSize()))
      requires length <= buffer.Length
      modifies drive, stdBuf, stdInode
      ensures Valid() && width == Width(g, offset, length) && |drive.disk| == |old(drive.disk)|
      ensures drive.disk == Splice(old(drive.disk), DataAt(g, old(drive.disk), k, offset), buffer[..width])
      ensures FoundAt(g, old(drive.disk), drive.disk, k, offset, buffer[..width])
      ensures stdInode[..] == Stretch(old(drive.disk), g.InodeAt(k), INODE_SIZE)
    {
      var ofs := Remainder(offset, g.BlockSize());
      width := Width(g, offset, length);
      var block := FindBlock(k, Quotient(offset, g.BlockSize()));
      ghost var disk := drive.disk;
      WriteData(block, ofs, width, buffer);
      FoundIs(g, disk, drive.disk, k, offset, buffer[..width]);
    }

    method WriteData(block: nat, ofs: nat, width: nat, buffer: array<Byte>)
      requires Valid() && g.OnDisk(drive.disk, block) && ofs < g.BlockSize() && ofs + width <= g.BlockSize() && width <= buffer.Length && buffer != stdBuf
      modifies drive, stdBuf
      ensures Valid() && |drive.disk| == |old(drive.disk)| && drive.disk == Splice(old(drive.disk), g.BlockAt(block) + ofs, buffer[..width])
    {
      Small(ofs, g.BlockSize());
      UpdateBlock(buffer, ofs, width, block);
    }
  }

  function Width(g: Geometry, offset: nat, length: nat): (w: nat)
    requires g.Valid()
    ensures w <= length && Remainder(offset, g.BlockSize()) + w <= g.BlockSize() && (length > 0 ==> w > 0)
    ensures w == length || Remainder(offset, g.BlockSize()) + w == g.BlockSize()
  {
    var room := g.BlockSize() - Remainder(offset, g.BlockSize());
    if length > room then room else length
  }

  /** Where byte `offset` of file k lies on the disk. */
  function DataAt(g: Geometry, disk: Mem, k: nat, offset: nat): (a: nat)
    requires g.Valid() && PathOk(g, disk, k, Quotient(offset, g.BlockSize()))
  {
    g.BlockAt(DataBlock(g, disk, k, Quotient(offset, g.BlockSize()))) + Remainder(offset, g.BlockSize())
  }

  lemma Small(a: nat, b: nat)
    requires a < b
    ensures Quotient(a, b) == 0 && Remainder(a, b) == a
  {
  }

  lemma WordInside(m: Mem, start: nat, length: nat, o: nat)
    requires start + length <= |m| && o + 4 <= length
    ensures WordAt(Stretch(m, start, length), o) == WordAt(m, start + o)
  {
  }

  lemma FewSectors(g: Geometry, ofs: nat, width: nat)
    requires g.Valid() && 0 < width && ofs + width <= g.BlockSize()
    ensures ofs / SECTOR + Sectors(ofs, width) <= g.factor
  {
  }

  lemma OneSector(i: nat)
    ensures Sectors(INODE_SIZE * i, INODE_SIZE) == 1
  {
  }

  lemma SectorOnDisk(g: Geometry, disk: Mem, k: nat)
    requires InodeOk(g, disk, k)
    ensures SECTOR * (VOLUME + g.factor * g.Table(k) + INODE_SIZE * g.Index(k) / SECTOR + 1) <= |disk|
  {
    InodeInBlock(g, disk, k);
    var o := INODE_SIZE * g.Index(k);
    var r := Remainder(o, g.BlockSize());
    var q := Quotient(o, g.BlockSize());
    Division(o, g.BlockSize());
    Associate(SECTOR, g.factor, q);
    Distribute(g.factor, g.Table(k), q);
    assert o == SECTOR * (g.factor * q) + r;
    assert o / SECTOR == g.factor * q + r / SECTOR;
  }
}
