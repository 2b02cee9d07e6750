/**
 * The bitmap helpers of src/allocators/metadata.rs. A `[u64]` slice holds a string of
 * bits: bit `index` is bit `index % 64` of word `index / 64`. Indexing a word past the end
 * of the slice is Rust's bounds-check panic.
 *
 * The word operations are kept behind the small functions `WordBit`, `WithBit` and
 * `WithoutBit`, so that bit-vector reasoning stays in the lemmas about single words.
 */
module Metadata {
  import opened Common

  const OUT_OF_BOUNDS: string := "index out of bounds"

  /** `index % 64`, the bit of its word that bit `index` is; a shift amount for a u64. */
  function BitPos(index: nat): bv7
  {
    (index % 64) as bv7
  }

  lemma BitPosBound(index: nat)
    ensures BitPos(index) < 64
  {
  }

  lemma BitPosValue(index: nat)
    ensures BitPos(index) as nat == index % 64
  {
  }

  /** Two indices in the same word have the same bit position only if they are equal. */
  lemma BitPosInjective(i: nat, j: nat)
    requires i / 64 == j / 64 && i != j
    ensures BitPos(i) != BitPos(j)
  {
    BitPosValue(i);
    BitPosValue(j);
  }

  /** Bit `index` lies in word `index / 64`, which exists exactly when `index < 64 * n`. */
  lemma WordInRange(index: nat, n: nat)
    ensures index / 64 < n <==> index < 64 * n
  {
  }

  /** Bit `k` of a word. */
  predicate WordBit(w: bv64, k: bv7)
    requires k < 64
  {
    (w >> k) & 1 == 1
  }

  /** The test `is_bit_set` makes: `w & (1 << k) != 0`. */
  predicate MaskTest(w: bv64, k: bv7)
    requires k < 64
  {
    w & (1 << k) != 0
  }

  /** The mask test reads bit `k`. */
  lemma MaskTestBit(w: bv64, k: bv7)
    requires k < 64
    ensures MaskTest(w, k) == WordBit(w, k)
  {
  }

  /** The word `set_bit` stores: `w | (1 << k)`. */
  function WithBit(w: bv64, k: bv7): (r: bv64)
    requires k < 64
  {
    w | (1 << k)
  }

  /** The word `clear_bit` stores: `w & !(1 << k)`. */
  function WithoutBit(w: bv64, k: bv7): (r: bv64)
    requires k < 64
  {
    w & !(1 << k)
  }

  /** `WithBit` turns bit `k` on ... */
  lemma WithBitSame(w: bv64, k: bv7)
    requires k < 64
    ensures WordBit(WithBit(w, k), k)
  {
  }

  /** ... and leaves every other bit as it was. */
  lemma WithBitOther(w: bv64, k: bv7, j: bv7)
    requires k < 64 && j < 64 && j != k
    ensures WordBit(WithBit(w, k), j) == WordBit(w, j)
  {
  }

  /** Applying `WithBit` twice is applying it once. */
  lemma WithBitTwice(w: bv64, k: bv7)
    requires k < 64
    ensures WithBit(WithBit(w, k), k) == WithBit(w, k)
  {
  }

  /** `WithoutBit` turns bit `k` off ... */
  lemma WithoutBitSame(w: bv64, k: bv7)
    requires k < 64
    ensures !WordBit(WithoutBit(w, k), k)
  {
  }

  /** ... and leaves every other bit as it was. */
  lemma WithoutBitOther(w: bv64, k: bv7, j: bv7)
    requires k < 64 && j < 64 && j != k
    ensures WordBit(WithoutBit(w, k), j) == WordBit(w, j)
  {
  }

  /** Applying `WithoutBit` twice is applying it once. */
  lemma WithoutBitTwice(w: bv64, k: bv7)
    requires k < 64
    ensures WithoutBit(WithoutBit(w, k), k) == WithoutBit(w, k)
  {
  }

  /** The bit string a bitmap holds, bit 0 first. */
  function Bits(words: seq<bv64>): (r: seq<bool>)
    ensures |r| == 64 * |words|
  {
    seq(64 * |words|, i requires 0 <= i < 64 * |words| => (BitPosBound(i); WordBit(words[i / 64], BitPos(i))))
  }

  lemma BitsAt(words: seq<bv64>, i: nat)
    requires i < 64 * |words|
    ensures i / 64 < |words| && BitPos(i) < 64
    ensures Bits(words)[i] == WordBit(words[i / 64], BitPos(i))
  {
    BitPosBound(i);
    WordInRange(i, |words|);
  }

  /** `is_bit_set`: bit `index % 64` of word `index / 64`, or the bounds-check panic. */
  function IsBitSet(bitmap: seq<bv64>, index: nat): (r: Outcome<bool>)
    ensures r.Panic? <==> index >= 64 * |bitmap|
    ensures r.Panic? ==> r.reason == OUT_OF_BOUNDS
  {
    var word := index / 64;
    WordInRange(index, |bitmap|);
    if word >= |bitmap| then Panic(OUT_OF_BOUNDS)
    else
      BitPosBound(index);
      Return(MaskTest(bitmap[word], BitPos(index)))
  }

  /** Within bounds, `is_bit_set` reads bit `index` of the bit string. */
  lemma IsBitSetBits(bitmap: seq<bv64>, index: nat)
    requires index < 64 * |bitmap|
    ensures IsBitSet(bitmap, index) == Return(Bits(bitmap)[index])
  {
    BitsAt(bitmap, index);
    MaskTestBit(bitmap[index / 64], BitPos(index));
  }

  /** The words after `set_bit`. */
  function SetBitWords(bitmap: seq<bv64>, index: nat): (r: seq<bv64>)
    requires index < 64 * |bitmap|
    ensures |r| == |bitmap|
  {
    BitPosBound(index);
    WordInRange(index, |bitmap|);
    bitmap[index / 64 := WithBit(bitmap[index / 64], BitPos(index))]
  }

  /** The words after `clear_bit`. */
  function ClearBitWords(bitmap: seq<bv64>, index: nat): (r: seq<bv64>)
    requires index < 64 * |bitmap|
    ensures |r| == |bitmap|
  {
    BitPosBound(index);
    WordInRange(index, |bitmap|);
    bitmap[index / 64 := WithoutBit(bitmap[index / 64], BitPos(index))]
  }

  /** `set_bit` turns on exactly bit `index` of the bit string. */
  lemma SetBitBits(bitmap: seq<bv64>, index: nat)
    requires index < 64 * |bitmap|
    ensures Bits(SetBitWords(bitmap, index)) == Bits(bitmap)[index := true]
  {
    var after := Bits(SetBitWords(bitmap, index));
    var expected := Bits(bitmap)[index := true];
    forall i | 0 <= i < |after| ensures after[i] == expected[i] {
      BitsAt(SetBitWords(bitmap, index), i);
      BitsAt(bitmap, i);
      BitsAt(bitmap, index);
      if i / 64 == index / 64 {
        if i != index {
          BitPosInjective(i, index);
          WithBitOther(bitmap[index / 64], BitPos(index), BitPos(i));
        } else {
          WithBitSame(bitmap[index / 64], BitPos(index));
        }
      }
    }
  }

  /** `clear_bit` turns off exactly bit `index` of the bit string. */
  lemma ClearBitBits(bitmap: seq<bv64>, index: nat)
    requires index < 64 * |bitmap|
    ensures Bits(ClearBitWords(bitmap, index)) == Bits(bitmap)[index := false]
  {
    var after := Bits(ClearBitWords(bitmap, index));
    var expected := Bits(bitmap)[index := false];
    forall i | 0 <= i < |after| ensures after[i] == expected[i] {
      BitsAt(ClearBitWords(bitmap, index), i);
      BitsAt(bitmap, i);
      BitsAt(bitmap, index);
      if i / 64 == index / 64 {
        if i != index {
          BitPosInjective(i, index);
          WithoutBitOther(bitmap[index / 64], BitPos(index), BitPos(i));
        } else {
          WithoutBitSame(bitmap[index / 64], BitPos(index));
        }
      }
    }
  }

  /**
   * After `set_bit(index)`, `is_bit_set` reports the bit set and every other bit as
   * before.
   */
  lemma SetThenTest(bitmap: seq<bv64>, index: nat, other: nat)
    requires index < 64 * |bitmap|
    ensures IsBitSet(SetBitWords(bitmap, index), index) == Return(true)
    ensures other != index ==> IsBitSet(SetBitWords(bitmap, index), other) == IsBitSet(bitmap, other)
  {
    var after := SetBitWords(bitmap, index);
    SetBitBits(bitmap, index);
    IsBitSetBits(after, index);
    if other < 64 * |bitmap| {
      IsBitSetBits(after, other);
      IsBitSetBits(bitmap, other);
    }
  }

  /** `set_bit` is idempotent. */
  lemma SetTwice(bitmap: seq<bv64>, index: nat)
    requires index < 64 * |bitmap|
    ensures SetBitWords(SetBitWords(bitmap, index), index) == SetBitWords(bitmap, index)
  {
    BitsAt(bitmap, index);
    WithBitTwice(bitmap[index / 64], BitPos(index));
  }

  /**
   * After `clear_bit(index)`, `is_bit_set` reports the bit clear and every other bit as
   * before.
   */
  lemma ClearThenTest(bitmap: seq<bv64>, index: nat, other: nat)
    requires index < 64 * |bitmap|
    ensures IsBitSet(ClearBitWords(bitmap, index), index) == Return(false)
    ensures other != index ==> IsBitSet(ClearBitWords(bitmap, index), other) == IsBitSet(bitmap, other)
  {
    var after := ClearBitWords(bitmap, index);
    ClearBitBits(bitmap, index);
    IsBitSetBits(after, index);
    if other < 64 * |bitmap| {
      IsBitSetBits(after, other);
      IsBitSetBits(bitmap, other);
    }
  }

  /** `clear_bit` is idempotent. */
  lemma ClearTwice(bitmap: seq<bv64>, index: nat)
    requires index < 64 * |bitmap|
    ensures ClearBitWords(ClearBitWords(bitmap, index), index) == ClearBitWords(bitmap, index)
  {
    BitsAt(bitmap, index);
    WithoutBitTwice(bitmap[index / 64], BitPos(index));
  }

  /** `set_bit` on the slice in place. */
  method SetBit(bitmap: array<bv64>, index: nat) returns (r: Outcome<()>)
    modifies bitmap
    ensures r.Panic? <==> index >= 64 * bitmap.Length
    ensures r.Panic? ==> r.reason == OUT_OF_BOUNDS && bitmap[..] == old(bitmap[..])
    ensures r.Return? ==> bitmap[..] == SetBitWords(old(bitmap[..]), index)
  {
    var word := index / 64;
    var bit := BitPos(index);
    WordInRange(index, bitmap.Length);
    if word >= bitmap.Length {
      return Panic(OUT_OF_BOUNDS);
    }
    BitPosBound(index);
    bitmap[word] := WithBit(bitmap[word], bit);
    r := Return(());
  }

  /** `clear_bit` on the slice in place. */
  method ClearBit(bitmap: array<bv64>, index: nat) returns (r: Outcome<()>)
    modifies bitmap
    ensures r.Panic? <==> index >= 64 * bitmap.Length
    ensures r.Panic? ==> r.reason == OUT_OF_BOUNDS && bitmap[..] == old(bitmap[..])
    ensures r.Return? ==> bitmap[..] == ClearBitWords(old(bitmap[..]), index)
  {
    var word := index / 64;
    var bit := BitPos(index);
    WordInRange(index, bitmap.Length);
    if word >= bitmap.Length {
      return Panic(OUT_OF_BOUNDS);
    }
    BitPosBound(index);
    bitmap[word] := WithoutBit(bitmap[word], bit);
    r := Return(());
  }
}
