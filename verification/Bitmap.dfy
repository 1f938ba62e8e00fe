/**
 The 64-byte bitmap of each block (bitmap.c), bit by bit over bytes, and the
 arithmetic that takes an object address to its bit.
 */
module Bitmap {
  import opened Config
  import opened SmallMachine
  import opened SmallRuns

  const SLOT_BITS: nat := 8 * BITMAP_BYTES_COUNT

  // ----- From addresses to bits -----

  /** The block an address of the heap lies in. */
  function BlockOf(start: nat, a: nat): nat
    requires start <= a
  {
    (a - start) / BLOCK_SIZE
  }

  function ObjectsAddr(start: nat, b: nat): nat { start + BLOCK_SIZE * b + BLOCK_HEADER_SIZE }

  /** `object_index`: which slot of block `b` an address lies in. */
  function IndexOf(start: nat, a: nat, b: nat, size: nat): nat
    requires ObjectsAddr(start, b) <= a && SizeOk(size)
  {
    Quotient(a - ObjectsAddr(start, b), Align(size))
  }

  lemma DivUnique(d: nat, q: nat, r: nat)
    requires r < d
    ensures (d * q + r) / d == q && (d * q + r) % d == r
  {
    DivAtLeast(d * q + r, d, q);
    MulNext(d, q);
    DivBelow(d * q + r, d, q + 1);
  }

  /** Every address inside a slot, whole or partial, leads back to its block and slot. */
  lemma AddressOfSlot(start: nat, b: nat, size: nat, i: nat, a: nat)
    requires SizeOk(size) && InSlot(start, b, size, i, a)
    ensures start <= a && BlockOf(start, a) == b && ObjectsAddr(start, b) <= a && IndexOf(start, a, b, size) == i
    ensures (a - ObjectsAddr(start, b)) % Align(size) == a - SlotAddr(start, b, size, i)
  {
    DivUnique(BLOCK_SIZE, b, a - start - BLOCK_SIZE * b);
    DivUnique(Align(size), i, a - SlotAddr(start, b, size, i));
  }

  /** Every object index of a block, even of a partial slot at its end, has a bit. */
  lemma IndexFits(start: nat, a: nat, b: nat, size: nat)
    requires SizeOk(size) && ObjectsAddr(start, b) <= a < start + BLOCK_SIZE * (b + 1)
    ensures IndexOf(start, a, b, size) < SLOT_BITS
  {
    DivBelow(a - ObjectsAddr(start, b), Align(size), SLOT_BITS);
  }

  /** The loop test of the scan: the slot fits in the block exactly when it is a whole one. */
  lemma FitsIff(start: nat, b: nat, size: nat, i: nat)
    requires SizeOk(size)
    ensures SlotAddr(start, b, size, i) + Align(size) <= start + BLOCK_SIZE * (b + 1) <==> i < Slots(size)
  {
    var (d, q) := (Align(size), Slots(size));
    MulNext(d, i);
    MulNext(d, q);
    DivBounds(OBJECT_AREA, d);
    if i < q { MulLe(d, i + 1, q); } else { MulLe(d, q + 1, i + 1); }
  }

  // ----- One byte -----

  predicate BitOf(v: bv8, k: nat)
    requires k < 8
  {
    (v >> k) & 1 == 1
  }

  function Flip(v: bv8, k: nat): bv8
    requires k < 8
  {
    v ^ ((1 as bv8) << k)
  }

  /** XOR with a shifted one changes the reading of that bit and of no other. */
  lemma FlipBit(v: bv8, k: nat, j: nat)
    requires k < 8 && j < 8
    ensures BitOf(Flip(v, k), j) == if j == k then !BitOf(v, k) else BitOf(v, j)
  {
    if k < 4 { FlipBitLow(v, k, j); } else { FlipBitHigh(v, k, j); }
  }

  lemma FlipBitLow(v: bv8, k: nat, j: nat)
    requires k < 4 && j < 8
    ensures BitOf(Flip(v, k), j) == if j == k then !BitOf(v, k) else BitOf(v, j)
  {
    if k == 0 {} else if k == 1 {} else if k == 2 {} else {}
  }

  lemma FlipBitHigh(v: bv8, k: nat, j: nat)
    requires 4 <= k < 8 && j < 8
    ensures BitOf(Flip(v, k), j) == if j == k then !BitOf(v, k) else BitOf(v, j)
  {
    if k == 4 {} else if k == 5 {} else if k == 6 {} else {}
  }

  lemma ZeroByte(v: bv8)
    ensures v == 0 <==> forall k: nat :: k < 8 ==> !BitOf(v, k)
  {
    if v == 0 {
      forall k: nat | k < 8 ensures !BitOf(v, k) {
        if k == 0 {} else if k == 1 {} else if k == 2 {} else if k == 3 {}
        else if k == 4 {} else if k == 5 {} else if k == 6 {} else {}
      }
    } else {
      NonZeroByte(v);
    }
  }

  lemma NonZeroByte(v: bv8)
    requires v != 0
    ensures exists k: nat :: k < 8 && BitOf(v, k)
  {
    assert BitOf(v, 0) || BitOf(v, 1) || BitOf(v, 2) || BitOf(v, 3) || BitOf(v, 4) || BitOf(v, 5) || BitOf(v, 6) || BitOf(v, 7);
  }

  // ----- One machine word of the bitmap -----

  /** The value of eight bytes read as a little-endian `size_t`. */
  function Word(s: seq<bv8>): nat {
    if s == [] then 0 else s[0] as nat + 256 * Word(s[1..])
  }

  lemma {:induction false} WordZero(s: seq<bv8>)
    ensures Word(s) == 0 <==> forall i :: 0 <= i < |s| ==> s[i] == 0
  {
    if s != [] {
      WordZero(s[1..]);
      assert forall i :: 0 < i < |s| ==> s[i] == s[1..][i - 1];
      if forall i :: 0 <= i < |s| ==> s[i] == 0 {
        assert s[0] == 0;
      }
    }
  }

  // ----- The bitmaps of all blocks -----

  /** Bit `i` of block `b` in the bytes of all bitmaps. */
  predicate BitAt(bytes: seq<bv8>, b: nat, i: nat)
    requires i < SLOT_BITS && BITMAP_BYTES_COUNT * (b + 1) <= |bytes|
  {
    BitOf(bytes[BITMAP_BYTES_COUNT * b + i / 8], i % 8)
  }

  /** The bytes and the set of marked slots say the same. */
  ghost predicate Represents(bytes: seq<bv8>, blocks: nat, marks: set<Slot>) {
    && |bytes| == BITMAP_BYTES_COUNT * blocks
    && (forall x :: x in marks ==> x.block < blocks && x.index < SLOT_BITS)
    && (forall b: nat, i: nat :: b < blocks && i < SLOT_BITS ==>
          BITMAP_BYTES_COUNT * (b + 1) <= |bytes| && (BitAt(bytes, b, i) <==> Slot(b, i) in marks))
  }

  class Bitmaps {
    const bytes: array<bv8>
    const blocks: nat
    ghost var marks: set<Slot>

    ghost predicate Valid()
      reads this, bytes
    {
      Represents(bytes[..], blocks, marks)
    }

    constructor (blocks: nat)
      ensures Valid() && this.blocks == blocks && marks == {} && fresh(bytes)
    {
      this.blocks := blocks;
      bytes := new bv8[BITMAP_BYTES_COUNT * blocks](_ => 0);
      marks := {};
      new;
      forall b: nat, i: nat | b < blocks && i < SLOT_BITS
        ensures BITMAP_BYTES_COUNT * (b + 1) <= bytes.Length && !BitAt(bytes[..], b, i)
      {
        ZeroByte(0);
        assert bytes[BITMAP_BYTES_COUNT * b + i / 8] == 0;
      }
    }

    /** The bit test of `get_bit_by_address`. */
    function Get(b: nat, i: nat): (r: bool)
      requires Valid() && b < blocks && i < SLOT_BITS
      reads this, bytes
      ensures r <==> Slot(b, i) in marks
    {
      assert BitAt(bytes[..], b, i) <==> Slot(b, i) in marks;
      BitOf(bytes[BITMAP_BYTES_COUNT * b + i / 8], i % 8)
    }

    /** The update of `set_bit_by_address`: toggles the bit when it differs. */
    method Set(b: nat, i: nat, bit: bool)
      requires Valid() && b < blocks && i < SLOT_BITS
      modifies this`marks, bytes
      ensures Valid()
      ensures marks == if bit then old(marks) + {Slot(b, i)} else old(marks) - {Slot(b, i)}
    {
      var position := BITMAP_BYTES_COUNT * b + i / 8;
      assert BitAt(bytes[..], b, i) <==> Slot(b, i) in marks;
      if BitOf(bytes[position], i % 8) != bit {
        ghost var before := bytes[..];
        bytes[position] := Flip(bytes[position], i % 8);
        marks := if bit then marks + {Slot(b, i)} else marks - {Slot(b, i)};
        FlipOne(before, bytes[..], blocks, old(marks), marks, b, i);
      }
    }

    /** `is_bitmap_empty`: eight words, each compared with zero. */
    method IsEmpty(b: nat) returns (empty: bool)
      requires Valid() && b < blocks
      ensures empty <==> NoMarks(marks, b)
    {
      var base := BITMAP_BYTES_COUNT * b;
      ZeroBytesNoMarks(bytes[..], blocks, marks, b);
      var j := 0;
      while j < BITMAP_BYTES_COUNT / 8
        invariant 0 <= j <= BITMAP_BYTES_COUNT / 8
        invariant ZeroBetween(bytes[..], base, base + 8 * j)
      {
        var word := bytes[base + 8 * j..base + 8 * j + 8];
        WordZero(word);
        if Word(word) != 0 {
          ghost var i :| 0 <= i < 8 && word[i] != 0;
          assert bytes[..][base + 8 * j + i] != 0;
          return false;
        }
        forall q | base + 8 * j <= q < base + 8 * (j + 1) ensures bytes[..][q] == 0 {
          assert bytes[q] == word[q - (base + 8 * j)];
        }
        j := j + 1;
      }
      empty := true;
    }

    /** The clearing loop of `init_header` and `fill_all_bitmaps_with_zeros`. */
    method Clear(b: nat)
      requires Valid() && b < blocks
      modifies this`marks, bytes
      ensures Valid() && marks == set x | x in old(marks) && x.block != b
    {
      ghost var before := bytes[..];
      var base := BITMAP_BYTES_COUNT * b;
      var j := 0;
      while j < BITMAP_BYTES_COUNT / 8
        invariant 0 <= j <= BITMAP_BYTES_COUNT / 8
        invariant marks == old(marks)
        invariant ZeroBetween(bytes[..], base, base + 8 * j)
        invariant forall q :: 0 <= q < bytes.Length && !(base <= q < base + BITMAP_BYTES_COUNT) ==> bytes[q] == before[q]
      {
        forall q | base + 8 * j <= q < base + 8 * j + 8 { bytes[q] := 0; }
        j := j + 1;
      }
      ClearBlock(before, bytes[..], blocks, marks, b);
      marks := set x | x in marks && x.block != b;
    }
  }

  predicate ZeroBetween(bytes: seq<bv8>, lo: nat, hi: nat)
    requires hi <= |bytes|
  {
    forall q :: lo <= q < hi ==> bytes[q] == 0
  }

  /** Block `b` has no marked slot. */
  ghost predicate NoMarks(marks: set<Slot>, b: nat) {
    forall i: nat :: i < SLOT_BITS ==> Slot(b, i) !in marks
  }

  lemma ZeroBytesNoMarks(bytes: seq<bv8>, blocks: nat, marks: set<Slot>, b: nat)
    requires Represents(bytes, blocks, marks) && b < blocks
    ensures BITMAP_BYTES_COUNT * (b + 1) <= |bytes|
    ensures ZeroBetween(bytes, BITMAP_BYTES_COUNT * b, BITMAP_BYTES_COUNT * (b + 1)) <==> NoMarks(marks, b)
  {
    var base := BITMAP_BYTES_COUNT * b;
    if ZeroBetween(bytes, base, BITMAP_BYTES_COUNT * (b + 1)) {
      forall i: nat | i < SLOT_BITS ensures Slot(b, i) !in marks {
        ZeroByte(bytes[base + i / 8]);
        assert BitAt(bytes, b, i) <==> Slot(b, i) in marks;
      }
    } else {
      var q :| base <= q < base + BITMAP_BYTES_COUNT && bytes[q] != 0;
      ZeroByte(bytes[q]);
      var k: nat :| k < 8 && BitOf(bytes[q], k);
      var i := 8 * (q - base) + k;
      assert i / 8 == q - base && i % 8 == k;
      assert BitAt(bytes, b, i) <==> Slot(b, i) in marks;
    }
  }

  lemma ClearBlock(before: seq<bv8>, after: seq<bv8>, blocks: nat, marks: set<Slot>, b: nat)
    requires Represents(before, blocks, marks) && b < blocks && |after| == |before|
    requires ZeroBetween(after, BITMAP_BYTES_COUNT * b, BITMAP_BYTES_COUNT * (b + 1))
    requires forall q :: 0 <= q < |before| && !(BITMAP_BYTES_COUNT * b <= q < BITMAP_BYTES_COUNT * (b + 1)) ==>
      after[q] == before[q]
    ensures Represents(after, blocks, set x | x in marks && x.block != b)
  {
    var marks' := set x | x in marks && x.block != b;
    forall c: nat, j: nat | c < blocks && j < SLOT_BITS
      ensures BITMAP_BYTES_COUNT * (c + 1) <= |after| && (BitAt(after, c, j) <==> Slot(c, j) in marks')
    {
      assert BitAt(before, c, j) <==> Slot(c, j) in marks;
      if c == b {
        assert after[BITMAP_BYTES_COUNT * b + j / 8] == 0;
        ZeroByte(after[BITMAP_BYTES_COUNT * b + j / 8]);
      } else {
        var q := BITMAP_BYTES_COUNT * c + j / 8;
        assert !(BITMAP_BYTES_COUNT * b <= q < BITMAP_BYTES_COUNT * (b + 1));
      }
    }
  }

  lemma FlipOne(before: seq<bv8>, after: seq<bv8>, blocks: nat, marks: set<Slot>, marks': set<Slot>, b: nat, i: nat)
    requires Represents(before, blocks, marks) && b < blocks && i < SLOT_BITS
    requires var p := BITMAP_BYTES_COUNT * b + i / 8; p < |before| && after == before[p := Flip(before[p], i % 8)]
    requires marks' == if Slot(b, i) in marks then marks - {Slot(b, i)} else marks + {Slot(b, i)}
    ensures Represents(after, blocks, marks')
  {
    forall c: nat, j: nat | c < blocks && j < SLOT_BITS
      ensures BITMAP_BYTES_COUNT * (c + 1) <= |after| && (BitAt(after, c, j) <==> Slot(c, j) in marks')
    {
      assert BitAt(before, c, j) <==> Slot(c, j) in marks;
      assert BitAt(before, b, i) <==> Slot(b, i) in marks;
      if BITMAP_BYTES_COUNT * c + j / 8 == BITMAP_BYTES_COUNT * b + i / 8 {
        assert c == b && j / 8 == i / 8;
        FlipBit(before[BITMAP_BYTES_COUNT * b + i / 8], i % 8, j % 8);
        assert j % 8 == i % 8 <==> j == i;
      }
    }
  }
}
