/** Reading and writing an ATA drive through its data port (src/ata_pio.c). */
module AtaPio {
  import opened Memory

  const SECTOR := 512
  const VOLUME := 0x800   // the first sector of the volume

  /** The number of sectors that hold `length` bytes from `offset` on. */
  function Sectors(offset: nat, length: nat): nat
    requires length > 0
  {
    1 + (offset % SECTOR + length - 1) / SECTOR
  }

  /** The same number as `readPIO` computes it, in 32 and then 16 bits. */
  function Announced(offset: nat, length: nat): nat
    requires length > 0
  {
    (1 + (offset % SECTOR + length - 1) % 0x1_0000_0000 / SECTOR) % 0x1_0000
  }

  /** The 16-bit count is right exactly as long as it can be. */
  lemma AnnouncedExact(offset: nat, length: nat)
    requires 0 < length < 0x1_0000_0000
    ensures Announced(offset, length) == Sectors(offset, length) <==> Sectors(offset, length) < 0x1_0000
  {
    var last := offset % SECTOR + length - 1;
    if last >= 0x1_0000_0000 {
      assert last / SECTOR >= 0x1_0000_0000 / SECTOR;
    }
  }

  /** 32 megabytes pass the test against reading more than 256 sectors. */
  lemma CountWraps()
    ensures Sectors(0, 0x200_0000) == 0x1_0000 && Announced(0, 0x200_0000) == 0
  {
  }

  /** A sector count of 0 stands for 256. */
  function Number(count: nat): nat { if count == 0 then 256 else count }

  /** The drive: a transfer of `left` words is under way at byte `pos`. */
  class Drive {
    var disk: Mem
    var pos: int
    var left: int

    constructor (disk: Mem)
      ensures this.disk == disk && left == 0
    {
      this.disk := disk;
      pos, left := 0, 0;
    }

    /** A READ SECTORS or WRITE SECTORS command. */
    method Command(lba: int, count: int)
      requires left == 0 && 0 <= count < 256
      modifies this`pos, this`left
      ensures pos == SECTOR * lba && left == 256 * Number(count)
    {
      pos := SECTOR * lba;
      left := 256 * Number(count);
    }

    /** One word from the data port; there must be one. */
    method Inw() returns (low: Byte, high: Byte)
      requires left > 0 && 0 <= pos && pos + 2 <= |disk|
      modifies this`pos, this`left
      ensures low == disk[old(pos)] && high == disk[old(pos) + 1]
      ensures pos == old(pos) + 2 && left == old(left) - 1
    {
      low, high := disk[pos], disk[pos + 1];
      pos, left := pos + 2, left - 1;
    }

    /** One word to the data port. */
    method Outw(low: Byte, high: Byte)
      requires left > 0 && 0 <= pos && pos + 2 <= |disk|
      modifies this
      ensures disk == Splice(old(disk), old(pos), [low, high]) && pos == old(pos) + 2 && left == old(left) - 1
    {
      disk := Splice(disk, pos, [low, high]);
      pos, left := pos + 2, left - 1;
    }

    /**
     * `readPIO`: exactly the requested bytes arrive, at `at` in the buffer, whatever the parity of offset
     * and length; the drive delivered every word it was asked for, so it is ready for the next command.
     */
    method ReadPio(lba: nat, offset: nat, length: nat, buffer: array<Byte>, at: nat) returns (ok: bool)
      requires left == 0 && at + length <= buffer.Length
      requires length > 0 ==> Sectors(offset, length) < 0x1_0000
      requires length > 0 ==> SECTOR * (VOLUME + lba + offset / SECTOR + Sectors(offset, length)) <= |disk|
      modifies this`pos, this`left, buffer
      ensures ok <==> length == 0 || Sectors(offset, length) <= 256
      ensures left == 0
      ensures forall j :: 0 <= j < buffer.Length && !(at <= j < at + length) ==> buffer[j] == old(buffer[j])
      ensures ok && length > 0 ==>
                var start := SECTOR * (VOLUME + lba) + offset;
                start + length <= |disk| && buffer[at..at + length] == Stretch(disk, start, length)
      ensures !ok ==> buffer[..] == old(buffer[..])
    {
      ok := true;
      if length == 0 {
        return;
      }
      var sector := VOLUME + lba + offset / SECTOR;
      var ofs := offset % SECTOR;
      var count := Announced(offset, length);
      AnnouncedExact(offset, length);
      if count > 256 {
        ok := false;   // "Too much data to read"
        return;
      }
      Command(sector, if count == 256 then 0 else count);
      Fits(ofs, length, count);
      var i, w := Body(sector, count, ofs, length, buffer, at);
      assert buffer[at..at + length] == buffer[..][at..at + length];
      Skip(i + ofs, count, w, SECTOR * sector);
      assert SECTOR * sector + ofs == SECTOR * (VOLUME + lba) + offset;
    }

    /** The loop that fills the buffer, and the odd byte at the end. */
    method Body(sector: nat, count: nat, ofs: nat, length: nat, buffer: array<Byte>, at: nat) returns (i: int, ghost w: nat)
      requires 0 < length && ofs + length <= SECTOR * count && at + length <= buffer.Length
      requires pos == SECTOR * sector && left == 256 * count && SECTOR * (sector + count) <= |disk|
      modifies this`pos, this`left, buffer
      ensures length <= i <= length + 1 && i + ofs == 2 * w <= SECTOR * count
      ensures pos == SECTOR * sector + ofs + i && left == 256 * count - w
      ensures forall j :: 0 <= j < buffer.Length && !(at <= j < at + length) ==> buffer[j] == old(buffer[j])
      ensures SECTOR * sector + ofs + length <= |disk| && buffer[..][at..at + length] == Stretch(disk, SECTOR * sector + ofs, length)
    {
      i, w := Whole(SECTOR * sector, count, ofs, length, buffer, at);
      if (length + ofs) % 2 != 0 {
        var low, high := Inw();
        buffer[at + i] := low;
        i, w := i + 2, w + 1;
      }
      SameStretch(buffer[..], at, disk, SECTOR * sector + ofs, length);
    }

    /** The whole words: all requested bytes, or all but the last. */
    method Whole(start: nat, count: nat, ofs: nat, length: nat, buffer: array<Byte>, at: nat) returns (i: int, ghost w: nat)
      requires 0 < length && ofs + length <= SECTOR * count && at + length <= buffer.Length
      requires pos == start && left == 256 * count && start + SECTOR * count <= |disk|
      modifies this`pos, this`left, buffer
      ensures length - 1 <= i <= length && i + ofs == 2 * w && pos == start + ofs + i && left == 256 * count - w
      ensures forall j :: 0 <= j < buffer.Length && !(at <= j < at + length) ==> buffer[j] == old(buffer[j])
      ensures forall j :: at <= j < at + i ==> buffer[j] == disk[start + ofs - at + j]
    {
      ghost var base := start + ofs - at;
      i, w := 0 - ofs, 0;
      while i < length - 1
        invariant i <= length && i + ofs == 2 * w
        invariant pos == start + ofs + i && left == 256 * count - w
        invariant forall j :: 0 <= j < buffer.Length && !(at <= j < at + length) ==> buffer[j] == old(buffer[j])
        invariant forall j :: at <= j < at + i ==> buffer[j] == disk[base + j]
      {
        OneWord(i, buffer, at);
        i, w := i + 2, w + 1;
      }
    }

    /** One word goes to bytes i and i + 1, as far as they are requested. */
    method OneWord(i: int, buffer: array<Byte>, at: nat)
      requires left > 0 && 0 <= pos && pos + 2 <= |disk| && at + i + 2 <= buffer.Length
      requires i >= -1 ==> at < buffer.Length
      modifies this`pos, this`left, buffer
      ensures pos == old(pos) + 2 && left == old(left) - 1
      ensures forall j :: 0 <= j < buffer.Length ==>
                buffer[j] == if at <= j && at + i <= j < at + i + 2 then disk[old(pos) + j - at - i] else old(buffer[j])
    {
      var low, high := Inw();
      if i < -1 {
        // before the requested bytes
      } else if i == -1 {
        buffer[at] := high;
      } else {
        buffer[at + i] := low;
        buffer[at + i + 1] := high;
      }
    }

    /** The rest of the last sector is thrown away; w0 words have been read before. */
    method Skip(from: int, count: nat, ghost w0: nat, ghost start: int)
      requires 0 <= from <= SECTOR * count < from + SECTOR && from == 2 * w0
      requires 0 <= start && pos == start + from && left == 256 * count - w0 && start + SECTOR * count <= |disk|
      modifies this`pos, this`left
      ensures left == 0
    {
      var i := from;
      ghost var w := w0;
      while i % SECTOR != 0
        invariant from <= i <= SECTOR * count && i == 2 * w && pos == start + i && left == 256 * count - w
        decreases SECTOR * count - i
      {
        BeforeEnd(i, count, w);
        var low, high := Inw();
        i, w := i + 2, w + 1;
      }
      AtEnd(i, count);
    }

    /** `readLBA`: whole sectors. */
    method ReadLba(lba: nat, count: nat, buffer: array<Byte>)
      requires left == 0 && count < 256 && SECTOR * Number(count) <= buffer.Length && SECTOR * (VOLUME + lba + Number(count)) <= |disk|
      modifies this`pos, this`left, buffer
      ensures left == 0 && buffer[..SECTOR * Number(count)] == Stretch(disk, SECTOR * (VOLUME + lba), SECTOR * Number(count))
      ensures buffer[SECTOR * Number(count)..] == old(buffer[SECTOR * Number(count)..])
    {
      Command(VOLUME + lba, count);
      var n, start := Number(count), SECTOR * (VOLUME + lba);
      var i := 0;
      while i < n
        invariant 0 <= i <= n && pos == start + SECTOR * i && left == 256 * (n - i)
        invariant buffer[..SECTOR * i] == disk[start..start + SECTOR * i]
        invariant buffer[SECTOR * n..] == old(buffer[SECTOR * n..])
      {
        ReadSector(buffer, SECTOR * i, start);
        i := i + 1;
      }
    }

    method ReadSector(buffer: array<Byte>, at: nat, ghost start: nat)
      requires left >= 256 && at + SECTOR <= buffer.Length && pos == start + at && pos + SECTOR <= |disk|
      requires buffer[..at] == disk[start..start + at]
      modifies this`pos, this`left, buffer
      ensures pos == old(pos) + SECTOR && left == old(left) - 256
      ensures buffer[..at + SECTOR] == disk[start..start + at + SECTOR] && buffer[at + SECTOR..] == old(buffer[at + SECTOR..])
    {
      var j := 0;
      while j < 256
        invariant 0 <= j <= 256 && pos == start + at + 2 * j && left == old(left) - j
        invariant buffer[..at + 2 * j] == disk[start..start + at + 2 * j]
        invariant buffer[at + SECTOR..] == old(buffer[at + SECTOR..])
      {
        var low, high := Inw();
        ghost var before := buffer[..at + 2 * j];
        buffer[at + 2 * j] := low;
        buffer[at + 2 * j + 1] := high;
        assert buffer[..at + 2 * j + 2] == before + [low, high];
        assert disk[start..start + at + 2 * j + 2] == disk[start..start + at + 2 * j] + [low, high];
        j := j + 1;
      }
    }

    /** `writeLBA`: whole sectors, and nothing else on the disk changes. */
    method WriteLba(lba: nat, count: nat, buffer: array<Byte>)
      requires left == 0 && count < 256 && SECTOR * Number(count) <= buffer.Length && SECTOR * (VOLUME + lba + Number(count)) <= |disk|
      modifies this
      ensures left == 0 && disk == Splice(old(disk), SECTOR * (VOLUME + lba), buffer[..SECTOR * Number(count)])
    {
      Command(VOLUME + lba, count);
      var n, start := Number(count), SECTOR * (VOLUME + lba);
      var i := 0;
      while i < n
        invariant 0 <= i <= n && pos == start + SECTOR * i && left == 256 * (n - i)
        invariant disk == Splice(old(disk), start, buffer[..SECTOR * i])
      {
        WriteSector(buffer, SECTOR * i, start, old(disk));
        i := i + 1;
      }
    }

    method WriteSector(buffer: array<Byte>, at: nat, ghost start: nat, ghost before: Mem)
      requires left >= 256 && at + SECTOR <= buffer.Length && pos == start + at && pos + SECTOR <= |disk| == |before|
      requires disk == Splice(before, start, buffer[..at])
      modifies this
      ensures pos == old(pos) + SECTOR && left == old(left) - 256 && disk == Splice(before, start, buffer[..at + SECTOR])
    {
      var j := 0;
      while j < 256
        invariant 0 <= j <= 256 && pos == start + at + 2 * j && left == old(left) - j
        invariant |disk| == |before| && disk == Splice(before, start, buffer[..at + 2 * j])
      {
        SpliceMore(before, start, buffer[..at + 2 * j], [buffer[at + 2 * j], buffer[at + 2 * j + 1]]);
        assert buffer[..at + 2 * j] + [buffer[at + 2 * j], buffer[at + 2 * j + 1]] == buffer[..at + 2 * (j + 1)];
        Outw(buffer[at + 2 * j], buffer[at + 2 * j + 1]);
        j := j + 1;
      }
    }
  }

  /** Bytes that agree one by one are equal stretches. */
  lemma SameStretch(b: Mem, at: nat, m: Mem, start: int, length: nat)
    requires 0 <= start && at + length <= |b| && start + length <= |m|
    requires forall j :: at <= j < at + length ==> b[j] == m[start - at + j]
    ensures b[at..at + length] == Stretch(m, start, length)
  {
    forall k | 0 <= k < length ensures b[at..at + length][k] == Stretch(m, start, length)[k] {
      assert b[at + k] == m[start - at + (at + k)];
    }
  }

  lemma BeforeEnd(i: int, count: nat, w: nat)
    requires i % SECTOR != 0 && i == 2 * w && i <= SECTOR * count
    ensures i + 2 <= SECTOR * count
  {
    WholeSectors(count);
    assert i != SECTOR * count;
    HalfBelow(w, count);
  }

  lemma WholeSectors(count: nat)
    ensures SECTOR * count % SECTOR == 0
  {
  }

  lemma HalfBelow(w: nat, count: nat)
    requires 2 * w < SECTOR * count
    ensures 2 * w + 2 <= SECTOR * count
  {
  }

  lemma AtEnd(i: int, count: nat)
    requires i % SECTOR == 0 && SECTOR * count - SECTOR < i <= SECTOR * count
    ensures i == SECTOR * count
  {
  }

  lemma Fits(ofs: nat, length: nat, count: nat)
    requires 0 < length && count == 1 + (ofs + length - 1) / SECTOR
    ensures ofs + length <= SECTOR * count < ofs + length + SECTOR
  {
  }
}
