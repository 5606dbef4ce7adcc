/** The free-space bitmap of easy-fs (`easy-fs/src/bitmap.rs`).

    A bitmap occupies `blocks` consecutive device blocks. Each block is read
    as 64 `u64` words and each word as 64 bits, so bit index `bit` lives in
    block `bit / 4096`, word `(bit % 4096) / 64`, position `bit % 64`. A set
    bit means "allocated". The region's contents are passed explicitly: the
    model works on the words themselves, not on the block cache that holds
    them. */
module Bitmap {
  import opened Common

  const BLOCK_SZ: nat := 512
  /** Bits held by one bitmap block (`BLOCK_BITS`). */
  const BLOCK_BITS: nat := BLOCK_SZ * 8
  /** `u64` words per bitmap block (`BitmapBlock = [u64; 64]`). */
  const WORDS: nat := 64
  const WORD_BITS: nat := 64
  const U64_MAX: nat := 0xFFFF_FFFF_FFFF_FFFF

  /** One `u64`: `w[i]` is bit `i` (the bit of weight 2^i). */
  type Word = seq<bool>
  type BitmapBlock = seq<Word>
  /** The contents of all blocks of a bitmap, in block order. */
  type Region = seq<BitmapBlock>

  /** `Bitmap { start_block_id, blocks }`. */
  datatype Bitmap = Bitmap(startBlockId: nat, blocks: nat)

  predicate BlockOk(b: BitmapBlock) {
    |b| == WORDS && forall k :: 0 <= k < |b| ==> |b[k]| == WORD_BITS
  }

  predicate WellFormed(r: Region) {
    forall k :: 0 <= k < |r| ==> BlockOk(r[k])
  }

  /** `r` is the contents of bitmap `bm`. */
  predicate RegionOf(bm: Bitmap, r: Region) {
    |r| == bm.blocks && WellFormed(r)
  }

  /* ---------------------------------------------------------------- */
  /* Words as u64 values                                               */
  /* ---------------------------------------------------------------- */

  function Pow2(n: nat): nat {
    if n == 0 then 1 else 2 * Pow2(n - 1)
  }

  /** The unsigned number a word denotes. */
  function Value(w: Word): nat {
    if |w| == 0 then 0 else (if w[0] then 1 else 0) + 2 * Value(w[1..])
  }

  /** Every bit of the word is set. */
  predicate AllOnes(w: Word) {
    forall i :: 0 <= i < |w| ==> w[i]
  }

  lemma {:induction false} Pow2Add(a: nat, b: nat)
    ensures Pow2(a + b) == Pow2(a) * Pow2(b)
    decreases a
  {
    if a > 0 {
      Pow2Add(a - 1, b);
      assert Pow2(a + b) == 2 * Pow2(a - 1 + b);
      DoubleProduct(Pow2(a - 1), Pow2(b));
    }
  }

  /** Doubling a product doubles its left factor. */
  lemma DoubleProduct(x: nat, y: nat)
    ensures 2 * (x * y) == (2 * x) * y
  {
  }

  lemma Pow2Of8()
    ensures Pow2(8) == 256
  {
    assert Pow2(2) == 4;
    assert Pow2(4) == 16;
    assert Pow2(6) == 64;
  }

  lemma Pow2Of32()
    ensures Pow2(32) == 0x1_0000_0000
  {
    Pow2Of8();
    Pow2Add(8, 8);
    Pow2Add(16, 16);
  }

  lemma Pow2Of64()
    ensures Pow2(64) - 1 == U64_MAX
  {
    Pow2Of32();
    Pow2Add(32, 32);
  }

  /** A word's value is below 2^|w|, and reaches 2^|w| - 1 exactly when
      every bit is set. */
  lemma {:induction false} ValueAllOnes(w: Word)
    ensures Value(w) < Pow2(|w|)
    ensures Value(w) == Pow2(|w|) - 1 <==> AllOnes(w)
    decreases |w|
  {
    if |w| > 0 {
      ValueAllOnes(w[1..]);
      if AllOnes(w[1..]) && w[0] {
        assert AllOnes(w) by {
          forall i | 0 <= i < |w| ensures w[i] {
            if i > 0 { assert w[i] == w[1..][i - 1]; }
          }
        }
      }
      if AllOnes(w) {
        assert AllOnes(w[1..]) by {
          forall i | 0 <= i < |w| - 1 ensures w[1..][i] {
            assert w[1..][i] == w[i + 1];
          }
        }
      }
    }
  }

  /** The source's full-word test `bits64 == u64::MAX` holds exactly when
      all 64 bits are set. */
  lemma WordIsMax(w: Word)
    requires |w| == WORD_BITS
    ensures Value(w) == U64_MAX <==> AllOnes(w)
  {
    ValueAllOnes(w);
    Pow2Of64();
  }

  /** Subtracting `1 << i` from a word whose bit `i` is set clears that bit
      and nothing else: the source's `-=` in `dealloc` is a bit clear. */
  lemma {:induction false} SubtractSetBit(w: Word, i: nat)
    requires i < |w| && w[i]
    ensures Value(w[i := false]) == Value(w) - Pow2(i)
    decreases i
  {
    if i == 0 {
      assert w[i := false][1..] == w[1..];
    } else {
      SubtractSetBit(w[1..], i - 1);
      assert w[i := false][1..] == w[1..][i - 1 := false];
    }
  }

  /** Or-ing `1 << i` into a word whose bit `i` is clear adds 2^i: `alloc`'s
      `|=` sets exactly that bit. */
  lemma {:induction false} OrClearBit(w: Word, i: nat)
    requires i < |w| && !w[i]
    ensures Value(w[i := true]) == Value(w) + Pow2(i)
    decreases i
  {
    if i == 0 {
      assert w[i := true][1..] == w[1..];
    } else {
      OrClearBit(w[1..], i - 1);
      assert w[i := true][1..] == w[1..][i - 1 := true];
    }
  }

  /** `u64::trailing_ones`: the number of consecutive set bits starting at
      bit 0, which is the position of the lowest clear bit. */
  function TrailingOnes(w: Word): (n: nat)
    ensures n <= |w|
    ensures forall k :: 0 <= k < n ==> w[k]
    ensures n < |w| ==> !w[n]
  {
    if |w| == 0 || !w[0] then 0
    else
      var t := TrailingOnes(w[1..]);
      assert forall k :: 1 <= k < t + 1 ==> w[k] == w[1..][k - 1];
      1 + t
  }

  /* ---------------------------------------------------------------- */
  /* Bit indices                                                       */
  /* ---------------------------------------------------------------- */

  /** `decomposition`: bit index to (block, word, position in word). */
  function Decompose(bit: nat): (d: (nat, nat, nat))
    ensures d.1 < WORDS && d.2 < WORD_BITS
    ensures bit == d.0 * BLOCK_BITS + d.1 * WORD_BITS + d.2
  {
    var blockPos := bit / BLOCK_BITS;
    var rest := bit % BLOCK_BITS;
    (blockPos, rest / WORD_BITS, rest % WORD_BITS)
  }

  /** The bit index of position `i` of word `w` of block `b`. */
  function Compose(b: nat, w: nat, i: nat): nat {
    b * BLOCK_BITS + w * WORD_BITS + i
  }

  /** Decomposition is the inverse of composition: every (block, word,
      position) triple names exactly one bit index. */
  lemma DecomposeCompose(b: nat, w: nat, i: nat)
    requires w < WORDS && i < WORD_BITS
    ensures Decompose(Compose(b, w, i)) == (b, w, i)
  {
    var d := Decompose(Compose(b, w, i));
    assert d.0 == b;
    assert d.1 == w;
  }

  /** Bit indices are ordered block-major, then by word, then by position. */
  lemma DecomposeOrder(j: nat, bit: nat)
    requires j < bit
    ensures var (b1, w1, i1) := Decompose(j);
            var (b2, w2, i2) := Decompose(bit);
            b1 < b2 || (b1 == b2 && (w1 < w2 || (w1 == w2 && i1 < i2)))
  {
  }

  /** A bit index inside block `k`'s range belongs to block `k`. */
  lemma DecomposeInBlock(j: nat, k: nat)
    requires k * BLOCK_BITS <= j < (k + 1) * BLOCK_BITS
    ensures Decompose(j).0 == k
  {
  }

  /** `maximum`: the number of bits the bitmap can hand out, a whole number
      of blocks' worth. */
  function Maximum(bm: Bitmap): (m: nat)
    ensures m % BLOCK_BITS == 0 && m / BLOCK_BITS == bm.blocks
    ensures forall bit: nat :: bit < m <==> Decompose(bit).0 < bm.blocks
  {
    bm.blocks * BLOCK_BITS
  }

  /** The indices below `maximum()` are exactly those whose decomposition
      falls inside the bitmap's blocks. */
  lemma MaximumIsCapacity(bm: Bitmap, bit: nat)
    ensures bit < Maximum(bm) <==> Decompose(bit).0 < bm.blocks
  {
  }

  function IsSet(r: Region, bit: nat): bool
    requires WellFormed(r) && bit < |r| * BLOCK_BITS
  {
    var (b, w, i) := Decompose(bit);
    r[b][w][i]
  }

  /** Every bit of the region is allocated. */
  predicate AllSet(r: Region)
    requires WellFormed(r)
  {
    forall bit :: 0 <= bit < |r| * BLOCK_BITS ==> IsSet(r, bit)
  }

  /** The region with bit `bit` set to `v`; every other bit keeps its value. */
  function Put(r: Region, bit: nat, v: bool): (r': Region)
    requires WellFormed(r) && bit < |r| * BLOCK_BITS
    ensures WellFormed(r') && |r'| == |r|
    ensures IsSet(r', bit) == v
    ensures forall j :: 0 <= j < |r| * BLOCK_BITS && j != bit ==> IsSet(r', j) == IsSet(r, j)
  {
    var (b, w, i) := Decompose(bit);
    var r' := r[b := r[b][w := r[b][w][i := v]]];
    assert BlockOk(r'[b]);
    assert forall j :: 0 <= j < |r| * BLOCK_BITS && j != bit ==> Decompose(j) != (b, w, i);
    r'
  }

  /** Two regions of the same length that agree on every bit are equal. */
  lemma RegionExt(r1: Region, r2: Region)
    requires WellFormed(r1) && WellFormed(r2) && |r1| == |r2|
    requires forall j :: 0 <= j < |r1| * BLOCK_BITS ==> IsSet(r1, j) == IsSet(r2, j)
    ensures r1 == r2
  {
    forall b | 0 <= b < |r1| ensures r1[b] == r2[b] {
      forall w | 0 <= w < WORDS ensures r1[b][w] == r2[b][w] {
        forall i | 0 <= i < WORD_BITS ensures r1[b][w][i] == r2[b][w][i] {
          DecomposeCompose(b, w, i);
          assert IsSet(r1, Compose(b, w, i)) == IsSet(r2, Compose(b, w, i));
        }
      }
    }
  }

  /* ---------------------------------------------------------------- */
  /* alloc / dealloc                                                   */
  /* ---------------------------------------------------------------- */

  /** The `find` over the words of one block: the first word that is not
      `u64::MAX`, scanning from word `from`. */
  function FirstFreeWord(blk: BitmapBlock, from: nat): (r: Option<nat>)
    requires BlockOk(blk) && from <= WORDS
    ensures r.Some? ==> from <= r.value < WORDS && !AllOnes(blk[r.value])
    ensures r.Some? ==> forall k :: from <= k < r.value ==> AllOnes(blk[k])
    ensures r.None? ==> forall k :: from <= k < WORDS ==> AllOnes(blk[k])
    decreases WORDS - from
  {
    if from == WORDS then None
    else if !AllOnes(blk[from]) then Some(from)
    else FirstFreeWord(blk, from + 1)
  }

  /** Every bit of block `b` is set exactly when each of its words is full. */
  lemma BlockFull(r: Region, b: nat)
    requires WellFormed(r) && b < |r|
    ensures (forall w :: 0 <= w < WORDS ==> AllOnes(r[b][w])) <==>
            (forall j :: b * BLOCK_BITS <= j < (b + 1) * BLOCK_BITS ==> IsSet(r, j))
  {
    if forall j :: b * BLOCK_BITS <= j < (b + 1) * BLOCK_BITS ==> IsSet(r, j) {
      forall w | 0 <= w < WORDS ensures AllOnes(r[b][w]) {
        forall i | 0 <= i < |r[b][w]| ensures r[b][w][i] {
          DecomposeCompose(b, w, i);
          assert IsSet(r, Compose(b, w, i));
        }
      }
    }
  }

  /** Within block `k`, the lowest clear bit lies in the first non-full word
      at its trailing-ones position. */
  lemma FirstClearInBlock(r: Region, k: nat, w: nat)
    requires WellFormed(r) && k < |r|
    requires FirstFreeWord(r[k], 0) == Some(w)
    ensures var bit := Compose(k, w, TrailingOnes(r[k][w]));
            && k * BLOCK_BITS <= bit < |r| * BLOCK_BITS
            && !IsSet(r, bit)
            && forall j :: k * BLOCK_BITS <= j < bit ==> IsSet(r, j)
  {
    var i := TrailingOnes(r[k][w]);
    var bit := Compose(k, w, i);
    InBlockRange(k, w, i, |r|);
    DecomposeCompose(k, w, i);
    forall j | k * BLOCK_BITS <= j < bit ensures IsSet(r, j) {
      DecomposeInBlock(j, k);
      var d := Decompose(j);
      WordOrder(d.1, d.2, w, i);
      if d.1 < w {
        assert AllOnes(r[k][d.1]);
      }
    }
  }

  /** Position `i` of word `w` of block `k` lies in block `k`'s range. */
  lemma InBlockRange(k: nat, w: nat, i: nat, n: nat)
    requires w < WORDS && i < WORD_BITS && k < n
    ensures k * BLOCK_BITS <= Compose(k, w, i) < (k + 1) * BLOCK_BITS <= n * BLOCK_BITS
  {
  }

  /** Within one block, bit order is word order, then position order. */
  lemma WordOrder(w1: nat, i1: nat, w2: nat, i2: nat)
    requires i1 < WORD_BITS && i2 < WORD_BITS
    requires w1 * WORD_BITS + i1 < w2 * WORD_BITS + i2
    ensures w1 < w2 || (w1 == w2 && i1 < i2)
  {
  }

  /** Scans blocks `k..` (the loop over `block_id`) for the first clear bit,
      setting it. */
  function AllocFrom(r: Region, k: nat): (res: (Option<nat>, Region))
    requires WellFormed(r) && k <= |r|
    ensures WellFormed(res.1) && |res.1| == |r|
    ensures res.0.None? ==> res.1 == r
    ensures res.0.None? <==> forall j :: k * BLOCK_BITS <= j < |r| * BLOCK_BITS ==> IsSet(r, j)
    ensures res.0.Some? ==>
              && k * BLOCK_BITS <= res.0.value < |r| * BLOCK_BITS
              && !IsSet(r, res.0.value)
              && (forall j :: k * BLOCK_BITS <= j < res.0.value ==> IsSet(r, j))
              && res.1 == Put(r, res.0.value, true)
    decreases |r| - k
  {
    if k == |r| then (None, r)
    else
      match FirstFreeWord(r[k], 0)
      case Some(w) =>
        var bit := Compose(k, w, TrailingOnes(r[k][w]));
        FirstClearInBlock(r, k, w);
        (Some(bit), Put(r, bit, true))
      case None =>
        BlockFull(r, k);
        AllocFrom(r, k + 1)
  }

  /** `Bitmap::alloc`: first fit — the lowest clear bit is set and returned;
      `None` only when every bit is set. */
  function Alloc(bm: Bitmap, r: Region): (res: (Option<nat>, Region))
    requires RegionOf(bm, r)
    ensures RegionOf(bm, res.1)
    ensures res.0.None? <==> AllSet(r)
    ensures res.0.None? ==> res.1 == r
    ensures res.0.Some? ==>
              && res.0.value < Maximum(bm)
              && !IsSet(r, res.0.value)
              && (forall j :: 0 <= j < res.0.value ==> IsSet(r, j))
              && IsSet(res.1, res.0.value)
              && (forall j :: 0 <= j < Maximum(bm) && j != res.0.value ==> IsSet(res.1, j) == IsSet(r, j))
    ensures res.0.Some? ==> res.1 == Put(r, res.0.value, true)
  {
    AllocFrom(r, 0)
  }

  /** The word after `-= 1 << i` on a set bit (see `SubtractSetBit`). */
  function ClearBit(w: Word, i: nat): (w': Word)
    requires i < |w| && w[i]
    ensures |w'| == |w| && Value(w') == Value(w) - Pow2(i)
  {
    SubtractSetBit(w, i);
    w[i := false]
  }

  /** `Bitmap::dealloc`: clears a set bit; clearing a clear bit is the
      double-free panic of the source's `assert!`. */
  function Dealloc(bm: Bitmap, r: Region, bit: nat): (res: Result<Region>)
    requires RegionOf(bm, r) && bit < Maximum(bm)
    ensures res.Fatal? <==> !IsSet(r, bit)
    ensures res.Fatal? ==> res.panic == DoubleFree
    ensures res.Ok? ==>
              && RegionOf(bm, res.value)
              && !IsSet(res.value, bit)
              && forall j :: 0 <= j < Maximum(bm) && j != bit ==> IsSet(res.value, j) == IsSet(r, j)
    ensures res.Ok? ==> res.value == Put(r, bit, false)
  {
    var (blockPos, bits64Pos, innerPos) := Decompose(bit);
    if !r[blockPos][bits64Pos][innerPos] then Fatal(DoubleFree)
    else
      var r' := r[blockPos := r[blockPos][bits64Pos := ClearBit(r[blockPos][bits64Pos], innerPos)]];
      assert r' == Put(r, bit, false);
      Ok(r')
  }

  /* ---------------------------------------------------------------- */
  /* Properties                                                        */
  /* ---------------------------------------------------------------- */

  /** Releasing the bit `alloc` just handed out restores the bitmap. */
  lemma AllocThenDealloc(bm: Bitmap, r: Region)
    requires RegionOf(bm, r) && !AllSet(r)
    ensures var (bit, r') := Alloc(bm, r);
            bit.Some? && Dealloc(bm, r', bit.value) == Ok(r)
  {
    var (bit, r') := Alloc(bm, r);
    var d := Dealloc(bm, r', bit.value);
    RegionExt(d.value, r);
  }

  /** When every bit below `x` is in use, freeing `x` and allocating again
      hands `x` back and restores the bitmap. */
  lemma DeallocThenAlloc(bm: Bitmap, r: Region, x: nat)
    requires RegionOf(bm, r) && x < Maximum(bm) && IsSet(r, x)
    requires forall j :: 0 <= j < x ==> IsSet(r, j)
    ensures Dealloc(bm, r, x).Ok?
    ensures Alloc(bm, Dealloc(bm, r, x).value) == (Some(x), r)
  {
    var r1 := Dealloc(bm, r, x).value;
    assert !IsSet(r1, x);
    var (bit, r2) := Alloc(bm, r1);
    RegionExt(r2, r);
  }

  /** Exactly the bits `0..k` are in use. */
  predicate InUseExactly(r: Region, k: nat)
    requires WellFormed(r)
  {
    forall j :: 0 <= j < |r| * BLOCK_BITS ==> (IsSet(r, j) <==> j < k)
  }

  /** Allocating from a bitmap whose used bits are `0..k` returns `k` (while
      `k < maximum()`), so successive allocations from an empty bitmap yield
      0, 1, 2, ... and the call after `maximum()` of them returns `None`. */
  lemma AllocSequential(bm: Bitmap, r: Region, k: nat)
    requires RegionOf(bm, r) && InUseExactly(r, k) && k <= Maximum(bm)
    ensures k < Maximum(bm) ==> Alloc(bm, r).0 == Some(k) && InUseExactly(Alloc(bm, r).1, k + 1)
    ensures k == Maximum(bm) ==> Alloc(bm, r).0 == None
  {
    var (bit, r') := Alloc(bm, r);
    if k < Maximum(bm) {
      assert !IsSet(r, k);
    } else {
      assert AllSet(r);
    }
  }

  /* ---------------------------------------------------------------- */
  /* Free bits                                                         */
  /* ---------------------------------------------------------------- */

  /** The number of clear bits below `n`. */
  function FreeBelow(r: Region, n: nat): (c: nat)
    requires WellFormed(r) && n <= |r| * BLOCK_BITS
    ensures c <= n
  {
    if n == 0 then 0 else FreeBelow(r, n - 1) + (if IsSet(r, n - 1) then 0 else 1)
  }

  /** The number of clear bits: how many more `alloc` calls can succeed. */
  function FreeCount(r: Region): nat
    requires WellFormed(r)
  {
    FreeBelow(r, |r| * BLOCK_BITS)
  }

  /** No bit below `n` is clear exactly when the count below `n` is zero. */
  lemma {:induction false} FreeBelowZero(r: Region, n: nat)
    requires WellFormed(r) && n <= |r| * BLOCK_BITS
    ensures FreeBelow(r, n) == 0 <==> forall j :: 0 <= j < n ==> IsSet(r, j)
  {
    if n > 0 {
      FreeBelowZero(r, n - 1);
    }
  }

  /** Writing `v` into bit `bit` changes the count below `n` by at most one:
      it drops when a clear bit below `n` is set, and grows when a set bit
      below `n` is cleared. */
  lemma {:induction false} FreeBelowPut(r: Region, bit: nat, v: bool, n: nat)
    requires WellFormed(r) && bit < |r| * BLOCK_BITS && n <= |r| * BLOCK_BITS
    ensures FreeBelow(Put(r, bit, v), n) + (if bit < n && !IsSet(r, bit) then 1 else 0)
         == FreeBelow(r, n) + (if bit < n && !v then 1 else 0)
  {
    if n > 0 {
      FreeBelowPut(r, bit, v, n - 1);
    }
  }

  /** The region is full exactly when it has no free bit. */
  lemma FullIsNoneFree(r: Region)
    requires WellFormed(r)
    ensures FreeCount(r) == 0 <==> AllSet(r)
  {
    FreeBelowZero(r, |r| * BLOCK_BITS);
  }

  /** `alloc` fails exactly when no bit is free, and a successful `alloc`
      uses up exactly one free bit. */
  lemma AllocCount(bm: Bitmap, r: Region)
    requires RegionOf(bm, r)
    ensures Alloc(bm, r).0.None? <==> FreeCount(r) == 0
    ensures Alloc(bm, r).0.Some? ==> FreeCount(Alloc(bm, r).1) + 1 == FreeCount(r)
  {
    FullIsNoneFree(r);
    var (bit, r') := Alloc(bm, r);
    if bit.Some? {
      FreeBelowPut(r, bit.value, true, |r| * BLOCK_BITS);
    }
  }

  /** A successful `dealloc` frees exactly one bit. */
  lemma DeallocCount(bm: Bitmap, r: Region, bit: nat)
    requires RegionOf(bm, r) && bit < Maximum(bm)
    ensures Dealloc(bm, r, bit).Ok? ==> FreeCount(Dealloc(bm, r, bit).value) == FreeCount(r) + 1
  {
    if Dealloc(bm, r, bit).Ok? {
      FreeBelowPut(r, bit, false, |r| * BLOCK_BITS);
    }
  }

  /** The contents of a freshly formatted (zeroed) bitmap. */
  function Cleared(blocks: nat): (r: Region)
    ensures WellFormed(r) && |r| == blocks && InUseExactly(r, 0)
  {
    var r := seq(blocks, _ => seq(WORDS, _ => seq(WORD_BITS, _ => false)));
    assert forall b :: 0 <= b < blocks ==> BlockOk(r[b]);
    ClearedEmpty(r);
    r
  }

  lemma ClearedEmpty(r: Region)
    requires WellFormed(r)
    requires forall b :: 0 <= b < |r| ==> r[b] == seq(WORDS, _ => seq(WORD_BITS, _ => false))
    ensures InUseExactly(r, 0)
  {
    forall j | 0 <= j < |r| * BLOCK_BITS ensures !IsSet(r, j) {
      var d := Decompose(j);
      DecomposeBelow(j, |r|);
      assert r[d.0][d.1][d.2] == false;
    }
  }

  /** A bit below `n` blocks lies in one of them. */
  lemma DecomposeBelow(j: nat, n: nat)
    requires j < n * BLOCK_BITS
    ensures Decompose(j).0 < n
  {
  }
}
