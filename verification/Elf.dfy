/** Loading an ELF executable into scattered pages (src/elf.c). */
module Elf {
  import opened Memory
  import opened PageDir

  const WINDOW := 0x1_0000        // from there to the end of the address space
  const LOAD := 1
  const SEGMENT := 32             // the size of a program header entry

  /** The kernel addresses of the pages of the code window: apart from each other, and in memory. */
  ghost predicate PagesOk(length: int, virtuals: seq<nat>)
  {
    && |virtuals| == WINDOW / PAGE
    && (forall i :: 0 <= i < |virtuals| ==> virtuals[i] + PAGE <= length)
    && forall i, j :: 0 <= i < j < |virtuals| ==> virtuals[i] + PAGE <= virtuals[j] || virtuals[j] + PAGE <= virtuals[i]
  }

  /** The kernel address of byte x of the window. */
  function Adr(virtuals: seq<nat>, x: nat): nat
    requires |virtuals| == WINDOW / PAGE && x < WINDOW
  {
    virtuals[x / PAGE] + x % PAGE
  }

  lemma AdrDistinct(length: int, virtuals: seq<nat>, x: nat, y: nat)
    requires PagesOk(length, virtuals) && x < WINDOW && y < WINDOW && x != y
    ensures Adr(virtuals, x) != Adr(virtuals, y)
  {
    if x / PAGE != y / PAGE {
      var i, j := x / PAGE, y / PAGE;
      assert virtuals[i] + PAGE <= virtuals[j] || virtuals[j] + PAGE <= virtuals[i];
    }
  }

  /** The code window as the process sees it. */
  ghost function Code(m: Mem, virtuals: seq<nat>): Mem
    requires PagesOk(|m|, virtuals)
  {
    seq(WINDOW, x requires 0 <= x < WINDOW => m[Adr(virtuals, x)])
  }

  ghost predicate InPages(virtuals: seq<nat>, y: int)
  {
    exists i :: 0 <= i < |virtuals| && virtuals[i] <= y < virtuals[i] + PAGE
  }

  /** Bytes outside the pages are the same. */
  ghost predicate SameElsewhere(m: Mem, r: Mem, virtuals: seq<nat>)
  {
    |r| == |m| && forall y :: 0 <= y < |m| && !InPages(virtuals, y) ==> r[y] == m[y]
  }

  /** Writing one byte through the page array writes one byte of the window. */
  lemma WriteByte(m: Mem, r: Mem, virtuals: seq<nat>, x: nat, b: Byte)
    requires PagesOk(|m|, virtuals) && x < WINDOW && r == m[Adr(virtuals, x) := b]
    ensures SameElsewhere(m, r, virtuals) && Code(r, virtuals) == Code(m, virtuals)[x := b]
  {
    forall y: nat | y < WINDOW && y != x ensures r[Adr(virtuals, y)] == m[Adr(virtuals, y)] { AdrDistinct(|m|, virtuals, x, y); }
    var i := x / PAGE;
    assert virtuals[i] <= Adr(virtuals, x) < virtuals[i] + PAGE;
  }

  /** The end of a splice, byte by byte. */
  lemma SpliceByte(m: Mem, a: nat, s: Mem, b: Byte)
    requires a + |s| < |m|
    ensures Splice(m, a, s + [b]) == Splice(m, a, s)[a + |s| := b]
  {
  }

  function Zeros(n: nat): Mem { seq(n, _ => 0) }

  /** `mem_set_page` with 0. */
  method ClearPages(mem: array<Byte>, va: nat, length: nat, virtuals: seq<nat>)
    requires PagesOk(mem.Length, virtuals) && USER_CODE <= va && va - USER_CODE + length <= WINDOW
    modifies mem
    ensures Code(mem[..], virtuals) == Splice(old(Code(mem[..], virtuals)), va - USER_CODE, Zeros(length))
    ensures SameElsewhere(old(mem[..]), mem[..], virtuals)
  {
    var i := 0;
    while i < length
      invariant 0 <= i <= length && SameElsewhere(old(mem[..]), mem[..], virtuals)
      invariant Code(mem[..], virtuals) == Splice(old(Code(mem[..], virtuals)), va - USER_CODE, Zeros(i))
    {
      ghost var before := mem[..];
      mem[Adr(virtuals, va + i - USER_CODE)] := 0;
      WriteByte(before, mem[..], virtuals, va + i - USER_CODE, 0);
      SpliceByte(old(Code(mem[..], virtuals)), va - USER_CODE, Zeros(i), 0);
      assert Zeros(i + 1) == Zeros(i) + [0];
      i := i + 1;
    }
  }

  /** `mem_copy_page` */
  method CopyPages(mem: array<Byte>, va: nat, src: Mem, virtuals: seq<nat>)
    requires PagesOk(mem.Length, virtuals) && USER_CODE <= va && va - USER_CODE + |src| <= WINDOW
    modifies mem
    ensures Code(mem[..], virtuals) == Splice(old(Code(mem[..], virtuals)), va - USER_CODE, src)
    ensures SameElsewhere(old(mem[..]), mem[..], virtuals)
  {
    var i := 0;
    while i < |src|
      invariant 0 <= i <= |src| && SameElsewhere(old(mem[..]), mem[..], virtuals)
      invariant Code(mem[..], virtuals) == Splice(old(Code(mem[..], virtuals)), va - USER_CODE, src[..i])
    {
      ghost var before := mem[..];
      mem[Adr(virtuals, va + i - USER_CODE)] := src[i];
      WriteByte(before, mem[..], virtuals, va + i - USER_CODE, src[i]);
      SpliceByte(old(Code(mem[..], virtuals)), va - USER_CODE, src[..i], src[i]);
      assert src[..i + 1] == src[..i] + [src[i]];
      i := i + 1;
    }
    assert src[..i] == src;
  }

  // ----- the file -----

  datatype Segment = Segment(kind: Word, offset: Word, va: Word, inFile: Word, inMemory: Word)

  const HEADER := 52

  function Entry(file: Mem): Word requires |file| >= HEADER { WordAt(file, 24) }

  function Count(file: Mem): nat requires |file| >= HEADER { ShortAt(file, 44) }

  function SegmentAt(file: Mem, n: nat): nat requires |file| >= HEADER { WordAt(file, 28) + n * ShortAt(file, 42) }

  function GetSegment(file: Mem, n: nat): Segment
    requires |file| >= HEADER && SegmentAt(file, n) + SEGMENT <= |file|
  {
    var a := SegmentAt(file, n);
    Segment(WordAt(file, a), WordAt(file, a + 4), WordAt(file, a + 8), WordAt(file, a + 16), WordAt(file, a + 20))
  }

  /** What `check_and_load` refuses, in this order; 0 is a file that it accepts. */
  function Check(file: Mem): nat
    requires |file| >= HEADER
  {
    if !(file[0] == 0x7F && file[1] == 0x45 && file[2] == 0x4C && file[3] == 0x46) then 1    // "Not a ELF file"
    else if file[4] != 1 then 2             // "Not a 32 bits executable"
    else if file[5] != 1 then 3             // "Not a little endian executable"
    else if ShortAt(file, 16) != 2 then 4     // "Not an executable"
    else if ShortAt(file, 18) != 3 then 5     // "Not a x86 executable"
    else if Entry(file) < USER_CODE then 6      // "Wrong entry point"
    else 0
  }

  /** The i-th test of the header, on its bytes. */
  ghost predicate HeaderTest(file: Mem, i: int)
    requires |file| >= HEADER
  {
    match i
    case 1 => file[..4] == [0x7F, 0x45, 0x4C, 0x46]
    case 2 => file[4] == 1
    case 3 => file[5] == 1
    case 4 => Value(file[16..18]) == 2
    case 5 => Value(file[18..20]) == 3
    case 6 => Value(file[24..28]) >= 0xFFFF_0000
    case _ => true
  }

  /** The error names the first test that fails; there is none exactly if all succeed. */
  ghost predicate FirstFailure(file: Mem, error: nat)
    requires |file| >= HEADER
  {
    && error <= 6 && (error != 0 ==> !HeaderTest(file, error))
    && forall i {:trigger HeaderTest(file, i)} :: 1 <= i < (if error == 0 then 7 else error) ==> HeaderTest(file, i)
  }

  lemma CheckMeans(file: Mem, error: nat)
    requires |file| >= HEADER
    ensures FirstFailure(file, error) <==> error == Check(file)
  {
    ShortValue(file, 16);
    ShortValue(file, 18);
    WordValue(file, 24);
    assert file[..4] == [file[0], file[1], file[2], file[3]];
    var e := Check(file);
    assert FirstFailure(file, e);
  }

  /** The four bytes at a as a number. */
  ghost function Field(file: Mem, a: nat): nat
    requires a + 4 <= |file|
  {
    Value(file[a..a + 4])
  }

  /** Byte x of the code window holds b, seen through the array of pages. */
  ghost predicate SeenAt(m: Mem, virtuals: seq<nat>, x: int, b: Byte)
  {
    && 0 <= x < 0x1_0000 && x / 0x1000 < |virtuals| && virtuals[x / 0x1000] + x % 0x1000 < |m|
    && m[virtuals[x / 0x1000] + x % 0x1000] == b
  }

  /** Byte i of a segment from address va on: a byte of the file, or zero behind those. */
  ghost predicate ByteShown(file: Mem, m: Mem, virtuals: seq<nat>, offset: nat, va: nat, inFile: nat, i: nat)
  {
    offset + inFile <= |file| && SeenAt(m, virtuals, va - 0xFFFF_0000 + i, if i < inFile then file[offset + i] else 0)
  }

  ghost predicate BytesShown(file: Mem, m: Mem, virtuals: seq<nat>, offset: nat, va: nat, inFile: nat, inMemory: nat)
  {
    forall i: nat {:trigger ByteShown(file, m, virtuals, offset, va, inFile, i)} :: i < inMemory ==> ByteShown(file, m, virtuals, offset, va, inFile, i)
  }

  /** Entry n of the program header table, if it is of type LOAD, says which bytes of the file come to which address; there they are. */
  ghost predicate SegmentShown(file: Mem, m: Mem, virtuals: seq<nat>, n: nat)
    requires |file| >= HEADER
  {
    var a := Field(file, 28) + n * Value(file[42..44]);
    a + 32 <= |file|
    && (Field(file, a) == 1 ==> BytesShown(file, m, virtuals, Field(file, a + 4), Field(file, a + 8), Field(file, a + 16), Field(file, a + 20)))
  }

  /** The file holds segment n, and the window has room for it, if it is to be loaded. */
  ghost predicate SegmentOk(file: Mem, n: nat)
    requires |file| >= HEADER
  {
    && SegmentAt(file, n) + SEGMENT <= |file|
    && var s := GetSegment(file, n);
       s.kind == LOAD ==> USER_CODE <= s.va && s.inFile <= s.inMemory && s.va - USER_CODE + s.inMemory <= WINDOW && s.offset + s.inFile <= |file|
  }

  ghost predicate FileOk(file: Mem)
  {
    |file| >= HEADER && forall n: nat {:trigger SegmentOk(file, n)} :: n < Count(file) ==> SegmentOk(file, n)
  }

  /** What a loaded segment should look like: its bytes in the file, then zeros. */
  ghost function Image(file: Mem, n: nat): Mem
    requires |file| >= HEADER && SegmentOk(file, n) && GetSegment(file, n).kind == LOAD
  {
    var s := GetSegment(file, n);
    file[s.offset..s.offset + s.inFile] + Zeros(s.inMemory - s.inFile)
  }

  /** Segments n and k, if both are to be loaded, do not overlap. */
  ghost predicate Disjoint(file: Mem, n: nat, k: nat)
    requires |file| >= HEADER && SegmentOk(file, n) && SegmentOk(file, k)
  {
    var s, t := GetSegment(file, n), GetSegment(file, k);
    s.kind == LOAD && t.kind == LOAD ==> s.va + s.inMemory <= t.va || t.va + t.inMemory <= s.va
  }

  /** The window holds the image of segment n, if it is to be loaded. */
  ghost predicate Loaded(code: Mem, file: Mem, n: nat)
    requires |file| >= HEADER && SegmentOk(file, n) && |code| == WINDOW
  {
    var s := GetSegment(file, n);
    s.kind == LOAD ==> code[s.va - USER_CODE..s.va - USER_CODE + s.inMemory] == Image(file, n)
  }

  lemma SegmentFields(file: Mem, a: nat)
    requires a + SEGMENT <= |file|
    ensures WordAt(file, a) == Field(file, a) && WordAt(file, a + 4) == Field(file, a + 4) && WordAt(file, a + 8) == Field(file, a + 8)
    ensures WordAt(file, a + 16) == Field(file, a + 16) && WordAt(file, a + 20) == Field(file, a + 20)
  {
    WordValue(file, a);
    WordValue(file, a + 4);
    WordValue(file, a + 8);
    WordValue(file, a + 16);
    WordValue(file, a + 20);
  }

  lemma TablePlace(file: Mem, n: nat)
    requires |file| >= HEADER
    ensures SegmentAt(file, n) == Field(file, 28) + n * Value(file[42..44])
  {
    WordValue(file, 28);
    ShortValue(file, 42);
  }

  lemma CodeSeen(m: Mem, virtuals: seq<nat>, x: nat)
    requires PagesOk(|m|, virtuals) && x < WINDOW
    ensures SeenAt(m, virtuals, x, Code(m, virtuals)[x])
  {
  }

  lemma LoadedSeen(file: Mem, m: Mem, virtuals: seq<nat>, n: nat, i: nat)
    requires PagesOk(|m|, virtuals) && |file| >= HEADER && SegmentOk(file, n) && Loaded(Code(m, virtuals), file, n)
    requires var s := GetSegment(file, n); s.kind == LOAD && i < s.inMemory
    ensures var s := GetSegment(file, n); ByteShown(file, m, virtuals, s.offset, s.va, s.inFile, i)
  {
    var s, code := GetSegment(file, n), Code(m, virtuals);
    assert code[s.va - USER_CODE..s.va - USER_CODE + s.inMemory][i] == Image(file, n)[i];
    CodeSeen(m, virtuals, s.va - USER_CODE + i);
  }

  lemma Shown(file: Mem, m: Mem, virtuals: seq<nat>, n: nat)
    requires PagesOk(|m|, virtuals) && |file| >= HEADER && SegmentOk(file, n) && Loaded(Code(m, virtuals), file, n)
    ensures SegmentShown(file, m, virtuals, n)
  {
    var s, a := GetSegment(file, n), SegmentAt(file, n);
    TablePlace(file, n);
    SegmentFields(file, a);
    if s.kind == LOAD {
      forall i: nat | i < s.inMemory ensures ByteShown(file, m, virtuals, s.offset, s.va, s.inFile, i) {
        LoadedSeen(file, m, virtuals, n, i);
      }
    }
  }

  /** Loading a segment: clearing and copying make its image, and leave the disjoint ones alone. */
  lemma LoadOne(code: Mem, file: Mem, n: nat, bytes: Mem, r: Mem)
    requires |file| >= HEADER && SegmentOk(file, n) && GetSegment(file, n).kind == LOAD && |code| == WINDOW
    requires var s := GetSegment(file, n);
             bytes == file[s.offset..s.offset + s.inFile]
             && r == Splice(Splice(code, s.va - USER_CODE, Zeros(s.inMemory)), s.va - USER_CODE, bytes)
    ensures |r| == WINDOW && Loaded(r, file, n)
    ensures forall k: nat {:trigger Loaded(r, file, k)} :: SegmentOk(file, k) && Disjoint(file, k, n) && Loaded(code, file, k) ==> Loaded(r, file, k)
  {
    ImageMade(code, file, n, r);
    forall k: nat | SegmentOk(file, k) && Disjoint(file, k, n) && Loaded(code, file, k) ensures Loaded(r, file, k) {
      OtherKept(code, file, n, r, k);
    }
  }

  lemma ImageMade(code: Mem, file: Mem, n: nat, r: Mem)
    requires |file| >= HEADER && SegmentOk(file, n) && GetSegment(file, n).kind == LOAD && |code| == WINDOW
    requires var s := GetSegment(file, n);
             r == Splice(Splice(code, s.va - USER_CODE, Zeros(s.inMemory)), s.va - USER_CODE, file[s.offset..s.offset + s.inFile])
    ensures |r| == WINDOW && Loaded(r, file, n)
  {
    var s := GetSegment(file, n);
    var a := s.va - USER_CODE;
    assert r[a..a + s.inMemory] == Image(file, n);
  }

  lemma OtherKept(code: Mem, file: Mem, n: nat, r: Mem, k: nat)
    requires |file| >= HEADER && SegmentOk(file, n) && GetSegment(file, n).kind == LOAD && |code| == WINDOW
    requires var s := GetSegment(file, n);
             r == Splice(Splice(code, s.va - USER_CODE, Zeros(s.inMemory)), s.va - USER_CODE, file[s.offset..s.offset + s.inFile])
    requires SegmentOk(file, k) && Disjoint(file, k, n) && Loaded(code, file, k)
    ensures Loaded(r, file, k)
  {
    var t := GetSegment(file, k);
    if t.kind == LOAD {
      var b := t.va - USER_CODE;
      assert r[b..b + t.inMemory] == code[b..b + t.inMemory];
    }
  }

  /**
   * `check_and_load`: the error names the first test of the header that fails. A file without one is loaded: each of the
   * segments that its header counts, if of type LOAD, appears in the process's code window as its bytes in the file, then
   * zeros, although the pages are scattered; no other memory changes.
   */
  method CheckAndLoad(file: Mem, mem: array<Byte>, virtuals: seq<nat>) returns (error: nat, entry: nat)
    requires FileOk(file) && PagesOk(mem.Length, virtuals)
    requires forall n: nat, k: nat {:trigger Disjoint(file, n, k)} :: n < k < Count(file) ==> SegmentOk(file, n) && SegmentOk(file, k) ==> Disjoint(file, n, k)
    modifies mem
    ensures SameElsewhere(old(mem[..]), mem[..], virtuals)
    ensures error != 0 ==> mem[..] == old(mem[..])
    ensures FirstFailure(file, error)
    ensures error == 0 ==> entry == Field(file, 24) && forall n: nat :: n < Value(file[44..46]) ==> SegmentShown(file, mem[..], virtuals, n)
  {
    entry := 0;
    error := Check(file);
    CheckMeans(file, error);
    if error != 0 {
      return;
    }
    var n := 0;
    while n < Count(file)
      invariant 0 <= n <= Count(file) && SameElsewhere(old(mem[..]), mem[..], virtuals)
      invariant forall k: nat {:trigger Loaded(Code(mem[..], virtuals), file, k)} :: k < n && SegmentOk(file, k) ==> Loaded(Code(mem[..], virtuals), file, k)
    {
      assert SegmentOk(file, n);
      ghost var code := Code(mem[..], virtuals);
      LoadSegment(file, mem, virtuals, n);
      forall k: nat | k < n + 1 && SegmentOk(file, k) ensures Loaded(Code(mem[..], virtuals), file, k) {
        if k < n { assert Loaded(code, file, k) && Disjoint(file, k, n); }
      }
      n := n + 1;
    }
    entry := Entry(file);
    WordValue(file, 24);
    ShortValue(file, 44);
    forall k: nat | k < Count(file) ensures SegmentShown(file, mem[..], virtuals, k) {
      assert SegmentOk(file, k);
      Shown(file, mem[..], virtuals, k);
    }
  }

  method LoadSegment(file: Mem, mem: array<Byte>, virtuals: seq<nat>, n: nat)
    requires |file| >= HEADER && SegmentOk(file, n) && PagesOk(mem.Length, virtuals)
    modifies mem
    ensures SameElsewhere(old(mem[..]), mem[..], virtuals)
    ensures var code, r := old(Code(mem[..], virtuals)), Code(mem[..], virtuals);
            Loaded(r, file, n) && forall k: nat {:trigger Loaded(r, file, k)} :: SegmentOk(file, k) && Disjoint(file, k, n) && Loaded(code, file, k) ==> Loaded(r, file, k)
  {
    var s := GetSegment(file, n);
    if s.kind == LOAD {
      ghost var code := Code(mem[..], virtuals);
      var bytes := file[s.offset..s.offset + s.inFile];
      ClearAndCopy(mem, s.va, s.inMemory, bytes, virtuals);
      LoadOne(code, file, n, bytes, Code(mem[..], virtuals));
    }
  }

  method ClearAndCopy(mem: array<Byte>, va: nat, length: nat, src: Mem, virtuals: seq<nat>)
    requires PagesOk(mem.Length, virtuals) && USER_CODE <= va && va - USER_CODE + length <= WINDOW && |src| <= length
    modifies mem
    ensures Code(mem[..], virtuals) == Splice(Splice(old(Code(mem[..], virtuals)), va - USER_CODE, Zeros(length)), va - USER_CODE, src)
    ensures SameElsewhere(old(mem[..]), mem[..], virtuals)
  {
    ClearPages(mem, va, length, virtuals);
    CopyPages(mem, va, src, virtuals);
  }
}
