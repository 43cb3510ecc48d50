/** A set of bit numbers packed into 32-bit words (src/bitset.c). */
module Bitset {

  const NONE := 0xFFFF_FFFF   // (u_int32)(-1)

  // ----- one word -----

  /** 1 << j, one doubling at a time. */
  function Mask(j: int): bv32
    requires 0 <= j < 32
    decreases j
  {
    if j == 0 then 1 else Mask(j - 1) << 1
  }

  predicate Test(w: bv32, x: bv32) { w & x != 0 }

  predicate Bit(w: bv32, j: int)
    requires 0 <= j < 32
  {
    Test(w, Mask(j))
  }

  /** (w & ~x) | (value ? x : 0) */
  function Overwrite(w: bv32, x: bv32, value: bool): bv32
  {
    if value then (w & !x) | x else (w & !x) | 0
  }

  /** (w & ~(1 << j)) | (value << j) */
  function Assign(w: bv32, j: int, value: bool): bv32
    requires 0 <= j < 32
  {
    Overwrite(w, Mask(j), value)
  }

  lemma ShiftLow(x: bv32)
    ensures 1 & (x << 1) == 0
    ensures (x << 1) & 1 == 0
  {
  }

  lemma ShiftBoth(x: bv32, y: bv32)
    requires x & y == 0
    ensures (x << 1) & (y << 1) == 0
  {
  }

  lemma {:induction false} MasksDisjoint(j: int, k: int)
    requires 0 <= j < 32 && 0 <= k < 32 && j != k
    ensures Mask(j) & Mask(k) == 0
    decreases j
  {
    if j == 0 {
      ShiftLow(Mask(k - 1));
    } else if k == 0 {
      ShiftLow(Mask(j - 1));
    } else {
      MasksDisjoint(j - 1, k - 1);
      ShiftBoth(Mask(j - 1), Mask(k - 1));
    }
  }

  lemma MaskTable()
    ensures Mask(0) == 0x1 && Mask(1) == 0x2 && Mask(2) == 0x4 && Mask(3) == 0x8 && Mask(4) == 0x10 && Mask(5) == 0x20 && Mask(6) == 0x40 && Mask(7) == 0x80
    ensures Mask(8) == 0x100 && Mask(9) == 0x200 && Mask(10) == 0x400 && Mask(11) == 0x800 && Mask(12) == 0x1000 && Mask(13) == 0x2000 && Mask(14) == 0x4000 && Mask(15) == 0x8000
    ensures Mask(16) == 0x10000 && Mask(17) == 0x20000 && Mask(18) == 0x40000 && Mask(19) == 0x80000 && Mask(20) == 0x100000 && Mask(21) == 0x200000 && Mask(22) == 0x400000 && Mask(23) == 0x800000
    ensures Mask(24) == 0x1000000 && Mask(25) == 0x2000000 && Mask(26) == 0x4000000 && Mask(27) == 0x8000000 && Mask(28) == 0x10000000 && Mask(29) == 0x20000000 && Mask(30) == 0x40000000 && Mask(31) == 0x80000000
  {
  }

  lemma ShiftZero(x: bv32)
    requires x == 0
    ensures x << 1 == 0
  {
  }

  lemma {:induction false} MaskNonzero(j: int)
    requires 0 <= j < 32
    ensures Mask(j) != 0
    decreases 32 - j
  {
    if j == 31 {
      MaskTable();
    } else {
      MaskNonzero(j + 1);
      if Mask(j) == 0 { ShiftZero(Mask(j)); }
    }
  }

  lemma SetSame(w: bv32, x: bv32)
    ensures ((w & !x) | x) & x == x
  {
  }

  lemma ClearSame(w: bv32, x: bv32)
    ensures ((w & !x) | 0) & x == 0
  {
  }

  lemma SetOther(w: bv32, x: bv32, y: bv32)
    requires x & y == 0
    ensures ((w & !x) | x) & y == w & y
  {
  }

  lemma ClearOther(w: bv32, x: bv32, y: bv32)
    requires x & y == 0
    ensures ((w & !x) | 0) & y == w & y
  {
  }

  lemma OverwriteAnd(w: bv32, x: bv32, y: bv32, value: bool)
    requires x & y == 0
    ensures Overwrite(w, x, value) & y == w & y
  {
    if value { SetOther(w, x, y); } else { ClearOther(w, x, y); }
  }

  lemma TestSame(w: bv32, r: bv32, y: bv32)
    requires r & y == w & y
    ensures Test(r, y) == Test(w, y)
  {
  }

  lemma OverwriteTest(w: bv32, x: bv32, y: bv32, value: bool)
    requires x & y == 0
    ensures Test(Overwrite(w, x, value), y) == Test(w, y)
  {
    OverwriteAnd(w, x, y, value);
    TestSame(w, Overwrite(w, x, value), y);
  }

  lemma AssignSame(w: bv32, j: int, value: bool)
    requires 0 <= j < 32
    ensures Bit(Assign(w, j, value), j) == value
  {
    if value { SetSame(w, Mask(j)); MaskNonzero(j); } else { ClearSame(w, Mask(j)); }
  }

  lemma AssignOther(w: bv32, j: int, value: bool, k: int)
    requires 0 <= j < 32 && 0 <= k < 32 && j != k
    ensures Bit(Assign(w, j, value), k) == Bit(w, k)
  {
    MasksDisjoint(j, k);
    OverwriteTest(w, Mask(j), Mask(k), value);
  }

  lemma AllTests(w: bv32)
    requires Test(w, 0x1) && Test(w, 0x2) && Test(w, 0x4) && Test(w, 0x8) && Test(w, 0x10) && Test(w, 0x20) && Test(w, 0x40) && Test(w, 0x80)
    requires Test(w, 0x100) && Test(w, 0x200) && Test(w, 0x400) && Test(w, 0x800) && Test(w, 0x1000) && Test(w, 0x2000) && Test(w, 0x4000) && Test(w, 0x8000)
    requires Test(w, 0x10000) && Test(w, 0x20000) && Test(w, 0x40000) && Test(w, 0x80000) && Test(w, 0x100000) && Test(w, 0x200000) && Test(w, 0x400000) && Test(w, 0x800000)
    requires Test(w, 0x1000000) && Test(w, 0x2000000) && Test(w, 0x4000000) && Test(w, 0x8000000) && Test(w, 0x10000000) && Test(w, 0x20000000) && Test(w, 0x40000000) && Test(w, 0x80000000)
    ensures w == 0xFFFF_FFFF
  {
  }

  /** A word has all its bits set exactly if it is 0xFFFFFFFF. */
  lemma FullWord(w: bv32)
    ensures w == 0xFFFF_FFFF <==> forall j :: 0 <= j < 32 ==> Bit(w, j)
  {
    if w == 0xFFFF_FFFF {
      forall j | 0 <= j < 32 ensures Bit(w, j) { OnesFull(j); }
    }
    if forall j :: 0 <= j < 32 ==> Bit(w, j) { AllBits(w); }
  }

  lemma AllBits(w: bv32)
    requires forall j :: 0 <= j < 32 ==> Bit(w, j)
    ensures w == 0xFFFF_FFFF
  {
    MaskTable();
    assert Bit(w, 0) && Bit(w, 1) && Bit(w, 2) && Bit(w, 3) && Bit(w, 4) && Bit(w, 5) && Bit(w, 6) && Bit(w, 7);
    assert Bit(w, 8) && Bit(w, 9) && Bit(w, 10) && Bit(w, 11) && Bit(w, 12) && Bit(w, 13) && Bit(w, 14) && Bit(w, 15);
    assert Bit(w, 16) && Bit(w, 17) && Bit(w, 18) && Bit(w, 19) && Bit(w, 20) && Bit(w, 21) && Bit(w, 22) && Bit(w, 23);
    assert Bit(w, 24) && Bit(w, 25) && Bit(w, 26) && Bit(w, 27) && Bit(w, 28) && Bit(w, 29) && Bit(w, 30) && Bit(w, 31);
    AllTests(w);
  }

  lemma OnesAnd(x: bv32)
    ensures 0xFFFF_FFFF & x == x
  {
  }

  lemma OnesFull(j: int)
    requires 0 <= j < 32
    ensures Bit(0xFFFF_FFFF, j)
  {
    MaskNonzero(j);
    OnesAnd(Mask(j));
  }

  // ----- the packed set -----

  predicate Has(ws: seq<bv32>, i: int)
    requires 0 <= i < 32 * |ws|
  {
    Bit(ws[i / 32], i % 32)
  }

  /** `set_bit` on the words: one number changes, no other. */
  lemma AssignHas(ws: seq<bv32>, bit: int, value: bool, i: int)
    requires 0 <= bit < 32 * |ws| && 0 <= i < 32 * |ws|
    ensures Has(ws[bit / 32 := Assign(ws[bit / 32], bit % 32, value)], i) == if i == bit then value else Has(ws, i)
  {
    var w, j, k := ws[bit / 32], bit % 32, i % 32;
    if i == bit { AssignSame(w, j, value); } else if i / 32 == bit / 32 { AssignOther(w, j, value, k); }
  }

  lemma WordHas(ws: seq<bv32>, k: int, j: int)
    requires 0 <= k < |ws| && 0 <= j < 32
    ensures Has(ws, 32 * k + j) == Bit(ws[k], j)
  {
    assert (32 * k + j) / 32 == k && (32 * k + j) % 32 == j;
  }

  /** Every number in [from, to) is a member. */
  ghost predicate AllIn(ws: seq<bv32>, from: int, to: int)
    requires 0 <= from && to <= 32 * |ws|
  {
    forall i :: from <= i < to ==> Has(ws, i)
  }

  lemma FullHas(ws: seq<bv32>, k: int)
    requires 0 <= k < |ws| && ws[k] == 0xFFFF_FFFF
    ensures AllIn(ws, 32 * k, 32 * k + 32)
  {
    forall i | 32 * k <= i < 32 * k + 32 ensures Has(ws, i) {
      OnesFull(i - 32 * k);
      WordHas(ws, k, i - 32 * k);
    }
  }

  /** r is the least missing number from `first` on, or NONE if there is none. */
  ghost predicate LeastMissing(ws: seq<bv32>, first: int, r: int)
    requires 0 <= first
  {
    if r == NONE then AllIn(ws, first, 32 * |ws|)
    else first <= r < 32 * |ws| && !Has(ws, r) && AllIn(ws, first, r)
  }

  class Bitset {
    const bits: array<bv32>

    constructor (length: nat)
      ensures fresh(bits) && bits.Length == (length + 31) / 32
      ensures forall i :: 0 <= i < 32 * bits.Length ==> !Has(bits[..], i)
    {
      bits := new bv32[(length + 31) / 32](_ => 0);
    }

    /** One number enters or leaves the set; no other bit changes. */
    method SetBit(bit: int, value: bool)
      requires 0 <= bit < 32 * bits.Length
      modifies bits
      ensures forall i :: 0 <= i < 32 * bits.Length ==> Has(bits[..], i) == if i == bit then value else old(Has(bits[..], i))
    {
      ghost var ws := bits[..];
      bits[bit / 32] := Assign(bits[bit / 32], bit % 32, value);
      assert bits[..] == ws[bit / 32 := Assign(ws[bit / 32], bit % 32, value)];
      forall i | 0 <= i < 32 * bits.Length ensures Has(bits[..], i) == if i == bit then value else Has(ws, i) {
        AssignHas(ws, bit, value, i);
      }
    }

    method GetBit(bit: int) returns (r: bool)
      requires 0 <= bit < 32 * bits.Length
      ensures r == Has(bits[..], bit)
    {
      r := Test(bits[bit / 32], Mask(bit % 32));
    }

    /** The least number that is not in the set. */
    method FirstFalseBit() returns (r: int)
      requires 32 * bits.Length <= NONE
      ensures LeastMissing(bits[..], 0, r)
    {
      var i := 0;
      while i < bits.Length
        invariant 0 <= i <= bits.Length
        invariant AllIn(bits[..], 0, 32 * i)
      {
        if bits[i] != 0xFFFF_FFFF {
          var j := 0;
          while j < 32
            invariant 0 <= j <= 32
            invariant forall k :: 0 <= k < j ==> Bit(bits[i], k)
            invariant AllIn(bits[..], 0, 32 * i + j)
          {
            WordHas(bits[..], i, j);
            if !Test(bits[i], Mask(j)) {
              return 32 * i + j;
            }
            j := j + 1;
          }
          FullWord(bits[i]);
        }
        FullHas(bits[..], i);
        i := i + 1;
      }
      return NONE;
    }

    /**
     * `param_ffb` keeps the bit offset of `first` until the first word that is not full, so a
     * clear bit below that offset in a later word is missed. Its result is the least missing
     * number from `first` on exactly when there is no such bit.
     */
    method ParamFfb(first: int) returns (r: int)
      requires 0 <= first && 32 * bits.Length <= NONE
      ensures LeastMissing(bits[..], first, r) <==> !Skips(bits[..], first)
    {
      var j := first % 32;
      var i := first / 32;
      ghost var ws := bits[..];
      ghost var w0 := first / 32;
      ghost var full := true;   // every word so far was full
      while i < bits.Length
        invariant w0 <= i && 0 <= j < 32 && (i <= bits.Length || i == w0)
        invariant full ==> j == first % 32 && (i <= bits.Length ==> AllIn(ws, 32 * w0, 32 * i))
        invariant !full ==> j == 0 && w0 < i <= bits.Length && Skips(ws, first) == !AllIn(ws, first, 32 * i)
      {
        if bits[i] != 0xFFFF_FFFF {
          ghost var from := j;
          while j < 32
            invariant from <= j <= 32
            invariant forall k :: from <= k < j ==> Bit(ws[i], k)
          {
            if !Test(bits[i], Mask(j)) {
              Found(ws, first, i, from, j, full);
              return 32 * i + j;
            }
            j := j + 1;
          }
          Passed(ws, first, i, from, full);
          j := 0;
          full := false;
        } else {
          FullHas(ws, i);
        }
        i := i + 1;
      }
      return NONE;
    }
  }

  /** In word k, behind the one `first` lies in and after full words only, bit b below first's offset is clear. */
  ghost predicate SkipAt(ws: seq<bv32>, first: int, k: int, b: int)
    requires 0 <= first
  {
    first / 32 < k < |ws| && AllIn(ws, 32 * (first / 32), 32 * k) && 0 <= b < first % 32 && !Has(ws, 32 * k + b)
  }

  ghost predicate Skips(ws: seq<bv32>, first: int)
    requires 0 <= first
  {
    exists k, b :: SkipAt(ws, first, k, b)
  }

  /** A word other than 0xFFFFFFFF has a clear bit. */
  lemma ClearBit(ws: seq<bv32>, i: int) returns (b: int)
    requires 0 <= i < |ws| && ws[i] != 0xFFFF_FFFF
    ensures 0 <= b < 32 && !Bit(ws[i], b) && !Has(ws, 32 * i + b)
  {
    if forall j :: 0 <= j < 32 ==> Bit(ws[i], j) { FullWord(ws[i]); }
    b :| 0 <= b < 32 && !Bit(ws[i], b);
    WordHas(ws, i, b);
  }

  /** After full words up to i, only word i can be the one skipped in. */
  lemma SkipOnlyAt(ws: seq<bv32>, first: int, i: int, k: int, b: int)
    requires 0 <= first && first / 32 <= i < |ws| && AllIn(ws, 32 * (first / 32), 32 * i)
    requires ws[i] != 0xFFFF_FFFF && SkipAt(ws, first, k, b)
    ensures k == i
  {
    var c := ClearBit(ws, i);
  }

  lemma Found(ws: seq<bv32>, first: int, i: int, from: int, j: int, full: bool)
    requires 0 <= first && first / 32 <= i < |ws| && 32 * |ws| <= NONE && 0 <= from <= j < 32
    requires !Bit(ws[i], j) && forall k :: from <= k < j ==> Bit(ws[i], k)
    requires full ==> from == first % 32 && AllIn(ws, 32 * (first / 32), 32 * i)
    requires !full ==> from == 0 && first / 32 < i && Skips(ws, first) == !AllIn(ws, first, 32 * i)
    ensures LeastMissing(ws, first, 32 * i + j) <==> !Skips(ws, first)
  {
    WordHas(ws, i, j);
    forall x | 32 * i + from <= x < 32 * i + j ensures Has(ws, x) { WordHas(ws, i, x - 32 * i); }
    if full {
      if Skips(ws, first) {
        var k, b :| SkipAt(ws, first, k, b);
        OnesNot(ws, i, j);
        SkipOnlyAt(ws, first, i, k, b);
        assert !Has(ws, 32 * k + b);
      } else if i > first / 32 {
        forall x | 32 * i <= x < 32 * i + from ensures Has(ws, x) { assert !SkipAt(ws, first, i, x - 32 * i); }
      }
    }
  }

  lemma OnesNot(ws: seq<bv32>, i: int, j: int)
    requires 0 <= i < |ws| && 0 <= j < 32 && !Bit(ws[i], j)
    ensures ws[i] != 0xFFFF_FFFF
  {
    OnesFull(j);
  }

  lemma Passed(ws: seq<bv32>, first: int, i: int, from: int, full: bool)
    requires 0 <= first && first / 32 <= i < |ws| && 0 <= from < 32
    requires ws[i] != 0xFFFF_FFFF && forall k :: from <= k < 32 ==> Bit(ws[i], k)
    requires full ==> from == first % 32 && AllIn(ws, 32 * (first / 32), 32 * i)
    requires !full ==> from == 0 && first / 32 < i && Skips(ws, first) == !AllIn(ws, first, 32 * i)
    ensures Skips(ws, first) == !AllIn(ws, first, 32 * i + 32)
  {
    var c := ClearBit(ws, i);
    forall x | 32 * i + from <= x < 32 * i + 32 ensures Has(ws, x) { WordHas(ws, i, x - 32 * i); }
    if full {
      if i > first / 32 {
        assert SkipAt(ws, first, i, c);
      } else {
        forall k, b | SkipAt(ws, first, k, b) ensures false { SkipOnlyAt(ws, first, i, k, b); }
      }
    }
  }

  lemma LastBitsOf()
    ensures 0xFFFF_FFFE & (1 as bv32) == 0
  {
  }

  /** With the first word full and bit 32 clear, a search from bit 1 jumps over bit 32. */
  lemma SkipHappens()
    ensures Skips([0xFFFF_FFFF, 0xFFFF_FFFE], 1)
  {
    var ws: seq<bv32> := [0xFFFF_FFFF, 0xFFFF_FFFE];
    FullHas(ws, 0);
    LastBitsOf();
    WordHas(ws, 1, 0);
    assert SkipAt(ws, 1, 1, 0);
  }
}
