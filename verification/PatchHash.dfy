/** The combined identity of a recipe's patches and scripts: a rotate-and-xor fold over their hashes. */
module PatchHash {
  import opened Names

  const OUT_LEN: nat := 32

  function RotateTwo(b: bv8): bv8 { (b << 2) | (b >> 6) }

  /** Bit `k` of a byte, counted from the least significant. */
  function Bit(b: bv8, k: nat): bv8
    requires k < 8
  {
    (b >> k) & 1
  }

  /** The rotation goes left: every bit moves up by two places and the top two come in at the bottom. */
  lemma RotationGoesLeft(b: bv8)
    ensures Bit(RotateTwo(b), 0) == Bit(b, 6) && Bit(RotateTwo(b), 1) == Bit(b, 7)
    ensures Bit(RotateTwo(b), 2) == Bit(b, 0) && Bit(RotateTwo(b), 3) == Bit(b, 1)
    ensures Bit(RotateTwo(b), 4) == Bit(b, 2) && Bit(RotateTwo(b), 5) == Bit(b, 3)
    ensures Bit(RotateTwo(b), 6) == Bit(b, 4) && Bit(RotateTwo(b), 7) == Bit(b, 5)
  {}

  /** The fold at one byte position, over that byte of every hash. */
  function Fold(column: seq<bv8>): bv8
    decreases |column|
  {
    if column == [] then 0 else RotateTwo(Fold(column[..|column| - 1])) ^ column[|column| - 1]
  }

  type Hash = h: seq<bv8> | |h| == OUT_LEN witness seq(OUT_LEN, _ => 0)

  function Column(hashes: seq<Hash>, i: nat): (r: seq<bv8>)
    requires i < OUT_LEN
    ensures |r| == |hashes| && forall k :: 0 <= k < |r| ==> r[k] == hashes[k][i]
  {
    seq(|hashes|, k requires 0 <= k < |hashes| => hashes[k][i])
  }

  function Combined(hashes: seq<Hash>): (r: seq<bv8>)
    ensures |r| == OUT_LEN && forall i :: 0 <= i < OUT_LEN ==> r[i] == Fold(Column(hashes, i))
  {
    seq(OUT_LEN, i requires 0 <= i < OUT_LEN => Fold(Column(hashes, i)))
  }

  /** The identity of a single patch or script is its own hash. */
  lemma {:induction false} OneHashIsItself(h: Hash)
    ensures Combined([h]) == h
  {
    forall i | 0 <= i < OUT_LEN ensures Combined([h])[i] == h[i] {
      assert Column([h], i) == [h[i]];
      FoldOne(h[i]);
    }
  }

  lemma FoldOne(b: bv8)
    ensures Fold([b]) == b
  {
    assert Fold([]) == 0 && [b][..0] == [];
    assert RotateTwo(0) ^ b == b;
  }

  lemma StepIsInjective(a: bv8, x: bv8, b: bv8, y: bv8)
    ensures RotateTwo(a) ^ x == RotateTwo(b) ^ x ==> a == b
    ensures RotateTwo(a) ^ x == RotateTwo(a) ^ y ==> x == y
  {}

  /** Changing one byte of a column changes its fold. */
  lemma {:induction false} FoldDetectsOneChange(a: seq<bv8>, b: seq<bv8>, k: nat)
    requires |a| == |b| && k < |a| && a[k] != b[k]
    requires forall j :: 0 <= j < |a| && j != k ==> a[j] == b[j]
    ensures Fold(a) != Fold(b)
    decreases |a|
  {
    var n := |a| - 1;
    if k == n {
      assert a[..n] == b[..n];
      StepIsInjective(Fold(a[..n]), a[n], Fold(b[..n]), b[n]);
    } else {
      FoldDetectsOneChange(a[..n], b[..n], k);
      StepIsInjective(Fold(a[..n]), a[n], Fold(b[..n]), b[n]);
    }
  }

  /** Changing the hash of exactly one patch or script always changes the combined identity. */
  lemma {:induction false} OneChangeIsDetected(hashes: seq<Hash>, k: nat, h: Hash)
    requires k < |hashes| && h != hashes[k]
    ensures Combined(hashes[k := h]) != Combined(hashes)
  {
    var i :| 0 <= i < OUT_LEN && h[i] != hashes[k][i];
    FoldDetectsOneChange(Column(hashes, i), Column(hashes[k := h], i), k);
    assert Combined(hashes)[i] != Combined(hashes[k := h])[i];
  }

  function Step(acc: bv8, b: bv8): bv8 { RotateTwo(acc) ^ b }

  lemma FoldSnoc(column: seq<bv8>, b: bv8)
    ensures Fold(column + [b]) == Step(Fold(column), b)
  {
    assert (column + [b])[..|column|] == column;
  }

  lemma FoldPrefix(a: seq<bv8>, n: nat)
    requires n < |a|
    ensures Fold(a[..n + 1]) == Step(Fold(a[..n]), a[n])
  {
    assert a[..n + 1] == a[..n] + [a[n]];
    FoldSnoc(a[..n], a[n]);
  }

  // ---- Exactly which exchanges go unnoticed ----

  /** `n` rotations by two. */
  function Rot(b: bv8, n: nat): bv8 {
    if n == 0 then b else RotateTwo(Rot(b, n - 1))
  }

  lemma StepOfXor(a: bv8, x: bv8, b: bv8, y: bv8)
    ensures Step(a, x) ^ Step(b, y) == RotateTwo(a ^ b) ^ (x ^ y)
  {}

  lemma XorFacts(x: bv8)
    ensures x ^ x == 0 && x ^ 0 == x && 0 ^ x == x && RotateTwo(0) == 0
    ensures RotateTwo(x) == 0 ==> x == 0
  {}

  /** How far the folds of two columns differ after `n` bytes. */
  function Gap(a: seq<bv8>, b: seq<bv8>, n: nat): bv8
    requires n <= |a| == |b|
  {
    Fold(a[..n]) ^ Fold(b[..n])
  }

  /** The difference is rotated along with the folds and takes in the difference of the next bytes. */
  lemma GapStep(a: seq<bv8>, b: seq<bv8>, n: nat)
    requires n < |a| == |b|
    ensures Gap(a, b, n + 1) == RotateTwo(Gap(a, b, n)) ^ (a[n] ^ b[n])
  {
    FoldPrefix(a, n);
    FoldPrefix(b, n);
    StepOfXor(Fold(a[..n]), a[n], Fold(b[..n]), b[n]);
  }

  /** Over bytes that agree the difference is only rotated. */
  lemma {:induction false} GapOverEqualBytes(a: seq<bv8>, b: seq<bv8>, from: nat, n: nat)
    requires from + n <= |a| == |b|
    requires forall k :: from <= k < from + n ==> a[k] == b[k]
    ensures Gap(a, b, from + n) == Rot(Gap(a, b, from), n)
    decreases n
  {
    if n > 0 {
      GapOverEqualBytes(a, b, from, n - 1);
      GapStep(a, b, from + n - 1);
      XorFacts(a[from + n - 1]);
      XorFacts(RotateTwo(Gap(a, b, from + n - 1)));
    }
  }

  lemma {:induction false} RotOfZero(b: bv8, n: nat)
    ensures Rot(b, n) == 0 <==> b == 0
    decreases n
  {
    if n > 0 {
      RotOfZero(b, n - 1);
      XorFacts(Rot(b, n - 1));
    }
  }

  /** `b` is `a` with the bytes at `i` and `j` exchanged. */
  predicate Exchanged(a: seq<bv8>, b: seq<bv8>, i: nat, j: nat) {
    && |a| == |b| && i < j < |a|
    && b[i] == a[j] && b[j] == a[i]
    && forall k :: 0 <= k < |a| && k != i && k != j ==> a[k] == b[k]
  }

  lemma GapAtFirst(a: seq<bv8>, b: seq<bv8>, i: nat, j: nat)
    requires Exchanged(a, b, i, j)
    ensures Gap(a, b, i + 1) == a[i] ^ a[j]
  {
    assert a[..i] == b[..i];
    GapStep(a, b, i);
    XorFacts(Fold(a[..i]));
    XorFacts(a[i] ^ a[j]);
  }

  lemma XorCommutes(x: bv8, y: bv8)
    ensures x ^ y == y ^ x
  {}

  /** The difference just behind the two exchanged bytes. */
  lemma GapBehindSwap(a: seq<bv8>, b: seq<bv8>, i: nat, j: nat)
    requires Exchanged(a, b, i, j)
    ensures Gap(a, b, j + 1) == Rot(a[i] ^ a[j], j - i) ^ (a[i] ^ a[j])
  {
    var d, n := a[i] ^ a[j], j - i - 1;
    assert Gap(a, b, j) == Rot(d, n) by {
      GapAtFirst(a, b, i, j);
      GapOverEqualBytes(a, b, i + 1, n);
    }
    assert Rot(d, n + 1) == RotateTwo(Rot(d, n));
    GapStep(a, b, j);
    XorCommutes(a[i], a[j]);
  }

  lemma XorIsZero(x: bv8, y: bv8)
    ensures x ^ y == 0 <==> x == y
  {}

  lemma GapAtEnd(a: seq<bv8>, b: seq<bv8>)
    requires |a| == |b|
    ensures Gap(a, b, |a|) == 0 <==> Fold(a) == Fold(b)
  {
    assert a[..|a|] == a && b[..|a|] == b;
    XorIsZero(Fold(a), Fold(b));
  }

  lemma FoldsEqualExactlyWhen(a: seq<bv8>, b: seq<bv8>, n: nat)
    requires n <= |a| == |b| && forall k :: n <= k < |a| ==> a[k] == b[k]
    ensures Fold(a) == Fold(b) <==> Gap(a, b, n) == 0
  {
    var g, m := Gap(a, b, n), |a| - n;
    assert Gap(a, b, |a|) == Rot(g, m) by {
      GapOverEqualBytes(a, b, n, m);
    }
    assert Rot(g, m) == 0 <==> g == 0 by {
      RotOfZero(g, m);
    }
    GapAtEnd(a, b);
  }

  lemma EqualByGap(x: bv8, y: bv8, gap: bv8, turned: bv8, d: bv8)
    requires gap == turned ^ d && (x == y <==> gap == 0)
    ensures y == x <==> turned == d
  {}

  lemma FoldSwap(a: seq<bv8>, b: seq<bv8>, i: nat, j: nat)
    requires Exchanged(a, b, i, j)
    ensures Fold(b) == Fold(a) <==> Rot(a[i] ^ a[j], j - i) == a[i] ^ a[j]
  {
    GapBehindSwap(a, b, i, j);
    FoldsEqualExactlyWhen(a, b, j + 1);
    EqualByGap(Fold(a), Fold(b), Gap(a, b, j + 1), Rot(a[i] ^ a[j], j - i), a[i] ^ a[j]);
  }

  /**
   Exchanging two patches or scripts goes unnoticed if and only if every byte of the difference of
   their hashes is the same after one rotation by two for each place between them.
   */
  lemma {:induction false} SwapInvisibleExactlyWhen(hashes: seq<Hash>, i: nat, j: nat)
    requires i < j < |hashes|
    ensures Combined(hashes[i := hashes[j]][j := hashes[i]]) == Combined(hashes)
            <==> forall b :: 0 <= b < OUT_LEN ==>
                   Rot(hashes[i][b] ^ hashes[j][b], j - i) == hashes[i][b] ^ hashes[j][b]
  {
    var swapped := hashes[i := hashes[j]][j := hashes[i]];
    forall b | 0 <= b < OUT_LEN
      ensures Combined(swapped)[b] == Combined(hashes)[b]
              <==> Rot(hashes[i][b] ^ hashes[j][b], j - i) == hashes[i][b] ^ hashes[j][b]
    {
      FoldSwap(Column(hashes, b), Column(swapped, b), i, j);
    }
    assert Combined(swapped) == Combined(hashes)
           <==> forall b :: 0 <= b < OUT_LEN ==> Combined(swapped)[b] == Combined(hashes)[b];
  }

  lemma FourTurns(b: bv8)
    ensures RotateTwo(RotateTwo(RotateTwo(RotateTwo(b)))) == b
  {}

  lemma FourRotations(b: bv8)
    ensures Rot(b, 4) == b
  {
    assert Rot(b, 1) == RotateTwo(b);
    assert Rot(b, 2) == RotateTwo(RotateTwo(b));
    FourTurns(b);
  }

  /**
   In particular the identity does not see every change of order: the rotation has period four, so
   exchanging two patches four places apart leaves it as it was.
   */
  lemma {:induction false} SwapFourApartIsInvisible(hashes: seq<Hash>, k: nat)
    requires k + 4 < |hashes|
    ensures Combined(hashes[k := hashes[k + 4]][k + 4 := hashes[k]]) == Combined(hashes)
  {
    SwapInvisibleExactlyWhen(hashes, k, k + 4);
    forall b | 0 <= b < OUT_LEN
      ensures Rot(hashes[k][b] ^ hashes[k + 4][b], 4) == hashes[k][b] ^ hashes[k + 4][b]
    {
      FourRotations(hashes[k][b] ^ hashes[k + 4][b]);
    }
  }

  lemma OneRotation(x: bv8, y: bv8)
    ensures Rot(x ^ y, 1) == x ^ y <==> x ^ y == 0 || x ^ y == 0x55 || x ^ y == 0xAA || x ^ y == 0xFF
  {
    assert Rot(x ^ y, 1) == RotateTwo(Rot(x ^ y, 0));
  }

  /** Exchanging neighbours goes unnoticed only for hashes that differ in a regular pattern at every byte. */
  lemma {:induction false} NeighbourSwapInvisibleExactlyWhen(hashes: seq<Hash>, k: nat)
    requires k + 1 < |hashes|
    ensures Combined(hashes[k := hashes[k + 1]][k + 1 := hashes[k]]) == Combined(hashes)
            <==> forall b :: 0 <= b < OUT_LEN ==>
                   var d := hashes[k][b] ^ hashes[k + 1][b]; d == 0 || d == 0x55 || d == 0xAA || d == 0xFF
  {
    SwapInvisibleExactlyWhen(hashes, k, k + 1);
    forall b | 0 <= b < OUT_LEN
      ensures Rot(hashes[k][b] ^ hashes[k + 1][b], 1) == hashes[k][b] ^ hashes[k + 1][b]
              <==> var d := hashes[k][b] ^ hashes[k + 1][b]; d == 0 || d == 0x55 || d == 0xAA || d == 0xFF
    {
      OneRotation(hashes[k][b], hashes[k + 1][b]);
    }
  }

  /** One hash folded into the bytes in place. */
  method MixIn(combined: array<bv8>, hash: Hash, ghost before: seq<Hash>)
    requires combined.Length == OUT_LEN && combined[..] == Combined(before)
    modifies combined
    ensures combined[..] == Combined(before + [hash])
  {
    var i := 0;
    while i < OUT_LEN
      invariant 0 <= i <= OUT_LEN
      invariant forall j :: 0 <= j < i ==> combined[j] == RotateTwo(Combined(before)[j]) ^ hash[j]
      invariant forall j :: i <= j < OUT_LEN ==> combined[j] == Combined(before)[j]
    {
      combined[i] := RotateTwo(combined[i]) ^ hash[i];
      i := i + 1;
    }
    forall j | 0 <= j < OUT_LEN ensures combined[j] == Combined(before + [hash])[j] {
      FoldSnoc(Column(before, j), hash[j]);
      assert Column(before + [hash], j) == Column(before, j) + [hash[j]];
    }
  }

  /** `get_combined_blake3` on the hashes of the patch files and then of the scripts; nothing when there are none. */
  method GetCombinedBlake3(files: seq<Hash>, contents: seq<Hash>) returns (r: Option<seq<bv8>>)
    ensures r == if files + contents == [] then None else Some(Combined(files + contents))
  {
    if files == [] && contents == [] {
      return None;
    }
    var combined := new bv8[OUT_LEN](_ => 0);
    for k := 0 to |files|
      invariant combined[..] == Combined(files[..k])
    {
      MixIn(combined, files[k], files[..k]);
      assert files[..k + 1] == files[..k] + [files[k]];
    }
    assert files[..|files|] == files && files + contents[..0] == files;
    for k := 0 to |contents|
      invariant combined[..] == Combined(files + contents[..k])
    {
      MixIn(combined, contents[k], files + contents[..k]);
      assert files + contents[..k + 1] == files + contents[..k] + [contents[k]];
    }
    assert contents[..|contents|] == contents;
    r := Some(combined[..]);
  }
}
