/** Byte-addressed memory with little-endian 32-bit words, as the kernel sees it. */
module Memory {

  type Byte = b: int | 0 <= b < 0x100
  type Word = w: int | 0 <= w < 0x1_0000_0000

  /** A range of memory starting at address 0. */
  type Mem = seq<Byte>

  function Join(b0: Byte, b1: Byte, b2: Byte, b3: Byte): (w: Word)
  {
    var i0: int, i1: int, i2: int, i3: int := b0, b1, b2, b3;
    i0 + 0x100 * i1 + 0x1_0000 * i2 + 0x100_0000 * i3
  }

  /** The little-endian word, and half word, at a. */
  function WordAt(m: Mem, a: nat): Word
    requires a + 4 <= |m|
  {
    Join(m[a], m[a + 1], m[a + 2], m[a + 3])
  }

  function ShortAt(m: Mem, a: nat): nat
    requires a + 2 <= |m|
  {
    var low: int, high: int := m[a], m[a + 1];
    low + 256 * high
  }

  /** The number that a row of bytes stands for, least significant first. */
  ghost function Value(s: Mem): nat
  {
    if s == [] then 0 else var low: int := s[0]; low + 0x100 * Value(s[1..])
  }

  lemma WordValue(m: Mem, a: nat)
    requires a + 4 <= |m|
    ensures WordAt(m, a) == Value(m[a..a + 4])
  {
    var s := m[a..a + 4];
    assert s[1..][1..] == s[2..] && s[2..][1..] == s[3..] && s[3..][1..] == [];
    assert Value(s[3..]) == s[3] && Value(s[2..]) == s[2] + 0x100 * Value(s[3..]) && Value(s[1..]) == s[1] + 0x100 * Value(s[2..]);
  }

  lemma ShortValue(m: Mem, a: nat)
    requires a + 2 <= |m|
    ensures ShortAt(m, a) == Value(m[a..a + 2])
  {
    var s := m[a..a + 2];
    assert s[1..][1..] == [] && Value(s[1..]) == s[1];
  }

  /** The k-th byte of a word, least significant first. */
  function ByteOf(w: Word, k: int): (b: Byte)
    requires 0 <= k < 4
  {
    if k == 0 then w % 0x100
    else if k == 1 then w / 0x100 % 0x100
    else if k == 2 then w / 0x1_0000 % 0x100
    else w / 0x100_0000
  }

  lemma JoinBytes(w: Word)
    ensures Join(ByteOf(w, 0), ByteOf(w, 1), ByteOf(w, 2), ByteOf(w, 3)) == w
  {
    assert w / 0x100 / 0x100 == w / 0x1_0000;
    assert w / 0x1_0000 / 0x100 == w / 0x100_0000;
  }

  // Proofs about headers only need to know when two words are equal, not how a word is made of
  // bytes: that part of the definition is available where Bytes(0) is mentioned.

  predicate Bytes(k: int) { true }

  ghost predicate IsWord(m: Mem, a: int, w: Word)
    requires 0 <= a && a + 4 <= |m|
  {
    forall k {:trigger Bytes(k)} :: Bytes(k) ==> w == WordAt(m, a)
  }

  /** The word at address a, closed: the same as WordAt, see WordBytes. */
  ghost function GetWord(m: Mem, a: int): (w: Word)
    requires 0 <= a && a + 4 <= |m|
    ensures IsWord(m, a, w)
  {
    assert IsWord(m, a, WordAt(m, a));
    var w: Word :| IsWord(m, a, w);
    w
  }

  lemma WordBytes(m: Mem, a: int)
    requires 0 <= a && a + 4 <= |m|
    ensures GetWord(m, a) == WordAt(m, a)
  {
    assert Bytes(0);
  }

  /** The word at `a` depends on its four bytes only. */
  lemma SameBytesSameWord(m: Mem, r: Mem, a: int)
    requires 0 <= a && a + 4 <= |m| == |r|
    requires forall x :: a <= x < a + 4 ==> r[x] == m[x]
    ensures GetWord(r, a) == GetWord(m, a)
  {
    WordBytes(m, a);
    WordBytes(r, a);
    assert r[a] == m[a] && r[a + 1] == m[a + 1] && r[a + 2] == m[a + 2] && r[a + 3] == m[a + 3];
  }

  /** Words that share no byte. */
  predicate Apart(a: int, b: int) { a + 4 <= b || b + 4 <= a }

  /** Storing a word changes its four bytes only, and loading it gives it back. */
  function PutWord(m: Mem, a: int, w: Word): (r: Mem)
    requires 0 <= a && a + 4 <= |m|
    ensures |r| == |m|
    ensures GetWord(r, a) == w
    ensures forall x :: 0 <= x < |m| && !(a <= x < a + 4) ==> r[x] == m[x]
    ensures forall b {:trigger GetWord(r, b)} :: 0 <= b && b + 4 <= |m| && Apart(a, b) ==> GetWord(r, b) == GetWord(m, b)
  {
    var r := m[a := ByteOf(w, 0)][a + 1 := ByteOf(w, 1)][a + 2 := ByteOf(w, 2)][a + 3 := ByteOf(w, 3)];
    PutGet(m, a, w, r);
    r
  }

  lemma PutGet(m: Mem, a: int, w: Word, r: Mem)
    requires 0 <= a && a + 4 <= |m| == |r|
    requires r[a] == ByteOf(w, 0) && r[a + 1] == ByteOf(w, 1) && r[a + 2] == ByteOf(w, 2) && r[a + 3] == ByteOf(w, 3)
    requires forall x :: 0 <= x < |m| && !(a <= x < a + 4) ==> r[x] == m[x]
    ensures GetWord(r, a) == w
    ensures forall b {:trigger GetWord(r, b)} :: 0 <= b && b + 4 <= |m| && Apart(a, b) ==> GetWord(r, b) == GetWord(m, b)
  {
    JoinBytes(w);
    WordBytes(r, a);
    forall b | 0 <= b && b + 4 <= |m| && Apart(a, b) ensures GetWord(r, b) == GetWord(m, b) {
      SameBytesSameWord(m, r, b);
    }
  }

  // ----- stretches of bytes -----

  /** The bytes from `start` on. */
  function Stretch(m: Mem, start: int, length: int): Mem
    requires 0 <= start && 0 <= length && start + length <= |m|
  {
    m[start..start + length]
  }

  /** The memory with some bytes replaced. */
  function Splice(m: Mem, start: int, bytes: Mem): (r: Mem)
    requires 0 <= start && start + |bytes| <= |m|
    ensures |r| == |m| && Stretch(r, start, |bytes|) == bytes
    ensures forall x :: 0 <= x < |m| && !(start <= x < start + |bytes|) ==> r[x] == m[x]
  {
    m[..start] + bytes + m[start + |bytes|..]
  }

  /** Two adjacent splices are one. */
  lemma SpliceMore(m: Mem, start: int, a: Mem, b: Mem)
    requires 0 <= start && start + |a| + |b| <= |m|
    ensures Splice(Splice(m, start, a), start + |a|, b) == Splice(m, start, a + b)
  {
  }

  /** Replacing bytes inside a stretch that is then written back is replacing them in the whole. */
  lemma SpliceInside(m: Mem, start: nat, size: nat, r: nat, bytes: Mem)
    requires start + size <= |m| && r + |bytes| <= size
    ensures Splice(m, start, Splice(Stretch(m, start, size), r, bytes)) == Splice(m, start + r, bytes)
  {
  }
}
