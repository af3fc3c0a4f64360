/** The bit array macros of gnl_macro_beg.h over 32-bit words. */
module BitArray {

  function Mask(k: nat): bv32 {
    1 << (k % 32)
  }

  predicate HasBit(w: bv32, k: nat) {
    w & Mask(k) != 0
  }

  function WithBit(w: bv32, k: nat): bv32 {
    w | Mask(k)
  }

  function WithoutBit(w: bv32, k: nat): bv32 {
    w & !Mask(k)
  }

  predicate TestBit(a: seq<bv32>, k: nat)
    requires k / 32 < |a|
  {
    HasBit(a[k / 32], k)
  }

  function SetBit(a: seq<bv32>, k: nat): seq<bv32>
    requires k / 32 < |a|
  {
    a[k / 32 := WithBit(a[k / 32], k)]
  }

  function ClearBit(a: seq<bv32>, k: nat): seq<bv32>
    requires k / 32 < |a|
  {
    a[k / 32 := WithoutBit(a[k / 32], k)]
  }

  /** The first `n` bits of the words. */
  ghost function Bits(a: seq<bv32>, n: nat): (s: seq<bool>)
    requires n <= 32 * |a|
    ensures |s| == n
  {
    if n == 0 then [] else Bits(a, n - 1) + [TestBit(a, n - 1)]
  }

  lemma Masks(i: nat, j: nat)
    requires i < 32 && j < 32
    ensures (1 as bv32 << i) & (1 << j) != 0 <==> i == j
  {
  }

  lemma MaskOverlap(i: nat, j: nat)
    ensures Mask(i) & Mask(j) != 0 <==> i % 32 == j % 32
    ensures i % 32 == j % 32 ==> Mask(i) == Mask(j)
  {
    Masks(i % 32, j % 32);
  }

  lemma DisjointOr(w: bv32, m: bv32, n: bv32)
    requires m & n == 0
    ensures (w | m) & n == w & n
  {
  }

  lemma DisjointAndNot(w: bv32, m: bv32, n: bv32)
    requires m & n == 0
    ensures (w & !m) & n == w & n
  {
  }

  lemma SameMask(w: bv32, m: bv32)
    ensures (w | m) & m == m && (w & !m) & m == 0
  {
  }

  lemma SameBit(w: bv32, i: nat, j: nat)
    requires i % 32 == j % 32
    ensures (w | Mask(i)) & Mask(j) != 0 && (w & !Mask(i)) & Mask(j) == 0
  {
    hide Mask;
    MaskOverlap(i, j);
    MaskOverlap(j, j);
    SameMask(w, Mask(j));
    assert Mask(j) & Mask(j) == Mask(j);
  }

  lemma OtherBitSet(w: bv32, i: nat, j: nat)
    requires i % 32 != j % 32
    ensures (w | Mask(i)) & Mask(j) == w & Mask(j)
  {
    hide Mask;
    MaskOverlap(i, j);
    DisjointOr(w, Mask(i), Mask(j));
  }

  lemma OtherBitCleared(w: bv32, i: nat, j: nat)
    requires i % 32 != j % 32
    ensures (w & !Mask(i)) & Mask(j) == w & Mask(j)
  {
    hide Mask;
    MaskOverlap(i, j);
    DisjointAndNot(w, Mask(i), Mask(j));
  }

  /** A bit is given by its word and its place in the word. */
  lemma SamePlace(j: nat, k: nat)
    ensures j == k <==> j / 32 == k / 32 && j % 32 == k % 32
  {
  }

  lemma WordSet(w: bv32, k: nat, j: nat)
    ensures HasBit(WithBit(w, k), j) <==> k % 32 == j % 32 || HasBit(w, j)
  {
    hide Mask;
    if k % 32 == j % 32 {
      SameBit(w, k, j);
    } else {
      OtherBitSet(w, k, j);
    }
  }

  lemma WordCleared(w: bv32, k: nat, j: nat)
    ensures HasBit(WithoutBit(w, k), j) <==> k % 32 != j % 32 && HasBit(w, j)
  {
    hide Mask;
    if k % 32 == j % 32 {
      SameBit(w, k, j);
    } else {
      OtherBitCleared(w, k, j);
    }
  }

  /** Setting a bit changes that bit only. */
  lemma OtherBitsSet(a: seq<bv32>, k: nat, j: nat)
    requires k / 32 < |a| && j / 32 < |a|
    ensures TestBit(SetBit(a, k), j) <==> j == k || TestBit(a, j)
  {
    hide HasBit, WithBit, WithoutBit;
    WordSet(a[j / 32], k, j);
    SamePlace(j, k);
  }

  /** Clearing a bit changes that bit only. */
  lemma OtherBitsCleared(a: seq<bv32>, k: nat, j: nat)
    requires k / 32 < |a| && j / 32 < |a|
    ensures TestBit(ClearBit(a, k), j) <==> j != k && TestBit(a, j)
  {
    hide HasBit, WithBit, WithoutBit;
    WordCleared(a[j / 32], k, j);
    SamePlace(j, k);
  }

  lemma {:induction false} SameBits(a: seq<bv32>, b: seq<bv32>, n: nat)
    requires n <= 32 * |a| && n <= 32 * |b|
    requires forall k :: 0 <= k < n ==> TestBit(a, k) == TestBit(b, k)
    ensures Bits(a, n) == Bits(b, n)
  {
    if n > 0 {
      SameBits(a, b, n - 1);
    }
  }

  /** Writing bit `n` appends it to the first `n` bits. */
  lemma PutBit(a: seq<bv32>, n: nat, bit: bool)
    requires n < 32 * |a|
    ensures Bits(if bit then SetBit(a, n) else ClearBit(a, n), n + 1) == Bits(a, n) + [bit]
  {
    var b := if bit then SetBit(a, n) else ClearBit(a, n);
    forall k | 0 <= k <= n
      ensures TestBit(b, k) == if k == n then bit else TestBit(a, k)
    {
      OtherBitsSet(a, n, k);
      OtherBitsCleared(a, n, k);
    }
    SameBits(a, b, n);
  }

  /** Growing the array by one word keeps the bits. */
  lemma GrowBits(a: seq<bv32>, w: bv32, n: nat)
    requires n <= 32 * |a|
    ensures Bits(a + [w], n) == Bits(a, n)
  {
    SameBits(a, a + [w], n);
  }
}
