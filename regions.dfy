/** The region comparator: position-by-position comparison into a match mask (lib.rs lines 47-66). */
module Regions {
  import opened Symbols

  /**
   * Number of positions, below the shorter length, at which `a` and `b` differ.
   * DiffCountZero and MaskCountsMismatches relate it to agreement and to the mask.
   */
  function DiffCount(a: seq<byte>, b: seq<byte>): (n: nat)
    ensures n <= Min(|a|, |b|)
  {
    var len := Min(|a|, |b|);
    if len == 0 then 0
    else DiffCount(a[..len - 1], b[..len - 1]) + (if a[len - 1] != b[len - 1] then 1 else 0)
  }

  /** The mask of `a` against `b`: the shared symbol where they agree, MISMATCH where they differ. */
  function MaskOf(a: seq<byte>, b: seq<byte>): (m: seq<byte>)
    ensures |m| == Min(|a|, |b|)
    ensures forall i | 0 <= i < |m| && a[i] != MISMATCH :: m[i] == MISMATCH <==> a[i] != b[i]
  {
    seq(Min(|a|, |b|), i requires 0 <= i < Min(|a|, |b|) => if a[i] == b[i] then a[i] else MISMATCH)
  }

  /** count_mismatches_in_mask: occurrences of MISMATCH in a mask. */
  function CountMismatchesInMask(mask: seq<byte>): (n: nat)
    ensures n <= |mask|
    ensures n == 0 <==> MISMATCH !in mask
    ensures n == |mask| <==> forall i | 0 <= i < |mask| :: mask[i] == MISMATCH
  {
    if mask == [] then 0
    else CountMismatchesInMask(mask[1..]) + (if mask[0] == MISMATCH then 1 else 0)
  }

  /** Counting mismatches distributes over concatenation. */
  lemma {:induction false} CountMismatchesAppend(m1: seq<byte>, m2: seq<byte>)
    ensures CountMismatchesInMask(m1 + m2) == CountMismatchesInMask(m1) + CountMismatchesInMask(m2)
  {
    if m1 == [] {
      assert m1 + m2 == m2;
    } else {
      assert (m1 + m2)[1..] == m1[1..] + m2;
      CountMismatchesAppend(m1[1..], m2);
    }
  }

  /** Two sequences differ nowhere exactly when they agree on the compared length. */
  lemma {:induction false} DiffCountZero(a: seq<byte>, b: seq<byte>)
    ensures DiffCount(a, b) == 0 <==> a[..Min(|a|, |b|)] == b[..Min(|a|, |b|)]
  {
    var len := Min(|a|, |b|);
    if len > 0 {
      DiffCountZero(a[..len - 1], b[..len - 1]);
      assert a[..len - 1] == a[..len][..len - 1];
      assert b[..len - 1] == b[..len][..len - 1];
    }
  }

  /** The mask of two sequences is the mask of their prefixes followed by the last mask symbol. */
  lemma MaskOfSnoc(a: seq<byte>, b: seq<byte>)
    requires 0 < Min(|a|, |b|)
    ensures var len := Min(|a|, |b|);
      MaskOf(a, b) == MaskOf(a[..len - 1], b[..len - 1]) + [if a[len - 1] == b[len - 1] then a[len - 1] else MISMATCH]
  {
    var len := Min(|a|, |b|);
    var m, m' := MaskOf(a, b), MaskOf(a[..len - 1], b[..len - 1]);
    assert |m| == len && |m'| == len - 1;
    forall i | 0 <= i < len - 1
      ensures m[i] == m'[i]
    {
      assert a[..len - 1][i] == a[i] && b[..len - 1][i] == b[i];
    }
  }

  /**
   * When `a` holds no MISMATCH symbol, the mask has as many MISMATCH symbols as there are
   * differing positions.
   */
  lemma {:induction false} MaskCountsMismatches(a: seq<byte>, b: seq<byte>)
    requires MISMATCH !in a
    ensures CountMismatchesInMask(MaskOf(a, b)) == DiffCount(a, b)
  {
    var len := Min(|a|, |b|);
    if len > 0 {
      var a', b' := a[..len - 1], b[..len - 1];
      assert MISMATCH !in a' by {
        forall i | 0 <= i < |a'| ensures a'[i] != MISMATCH {
          assert a'[i] == a[i];
        }
      }
      MaskCountsMismatches(a', b');
      MaskOfSnoc(a, b);
      var last := if a[len - 1] == b[len - 1] then a[len - 1] else MISMATCH;
      assert a[len - 1] in a;
      CountMismatchesAppend(MaskOf(a', b'), [last]);
      assert CountMismatchesInMask([last]) == if a[len - 1] != b[len - 1] then 1 else 0;
    }
  }

  /** compare_regions: builds the mask and counts the differing positions in one pass. */
  method CompareRegions(seq1: seq<byte>, seq2: seq<byte>) returns (mask: seq<byte>, mismatches: nat)
    ensures |mask| == Min(|seq1|, |seq2|)
    ensures forall i | 0 <= i < |mask| :: mask[i] == (if seq1[i] == seq2[i] then seq1[i] else MISMATCH)
    ensures mismatches == DiffCount(seq1, seq2)
    ensures mask == MaskOf(seq1, seq2)
  {
    var len := Min(|seq1|, |seq2|);
    mask := [];
    mismatches := 0;
    for i := 0 to len
      invariant |mask| == i
      invariant forall k | 0 <= k < i :: mask[k] == (if seq1[k] == seq2[k] then seq1[k] else MISMATCH)
      invariant mismatches == DiffCount(seq1[..i], seq2[..i])
    {
      assert seq1[..i + 1][..i] == seq1[..i];
      assert seq2[..i + 1][..i] == seq2[..i];
      if seq1[i] == seq2[i] {
        mask := mask + [seq1[i]];
      } else {
        mask := mask + [MISMATCH];
        mismatches := mismatches + 1;
      }
    }
    assert DiffCount(seq1, seq2) == DiffCount(seq1[..len], seq2[..len]) by {
      DiffCountPrefix(seq1, seq2);
    }
  }

  /** Only the compared length matters to the difference count. */
  lemma {:induction false} DiffCountPrefix(a: seq<byte>, b: seq<byte>)
    ensures DiffCount(a, b) == DiffCount(a[..Min(|a|, |b|)], b[..Min(|a|, |b|)])
  {
    var len := Min(|a|, |b|);
    var a', b' := a[..len], b[..len];
    if len > 0 {
      assert a'[..len - 1] == a[..len - 1];
      assert b'[..len - 1] == b[..len - 1];
      assert a'[len - 1] == a[len - 1] && b'[len - 1] == b[len - 1];
      assert DiffCount(a', b') == DiffCount(a[..len - 1], b[..len - 1]) + (if a[len - 1] != b[len - 1] then 1 else 0);
    }
  }
}
