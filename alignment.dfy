/**
 * The offset alignment search of compare_sequences_full (lib.rs lines 151-232): slides the
 * second sequence along the first without gaps, keeps the best overlap under a tolerance rule,
 * stops at the first perfect overlap, then masks the winning overlap and extracts its blocks.
 */
module Alignment {
  import opened Symbols
  import opened Regions
  import opened Blocks

  /**
   * The best overlap found so far: where it starts in each sequence, its identity, its length
   * and its mismatch count.
   */
  datatype Best = Best(offset1: nat, offset2: nat, identity: real, length: nat, mismatches: int)

  /** Before any overlap is kept: no length, identity 0 and the i32 maximum as mismatch count. */
  const Initial: Best := Best(0, 0, 0.0, 0, I32_MAX)

  /** Identity differences below this are ties, broken by the longer overlap. */
  const TOLERANCE: real := 0.01

  datatype AlignmentResult = AlignmentResult(
    mask: seq<byte>,
    mismatches: int,
    length: nat,
    identity: real,
    truncated: bool,
    offset1: nat,
    offset2: nat,
    conservedBlocks: seq<ConservedBlock>)

  /** The overlap every candidate must reach: a fraction `pct` of the shorter length, rounded up. */
  function MinOverlap(len1: nat, len2: nat, pct: real): (m: int)
    ensures Min(len1, len2) as real * pct <= m as real < Min(len1, len2) as real * pct + 1.0
  {
    Ceil(Min(len1, len2) as real * pct)
  }

  /** Where the overlap at `offset` starts in the first sequence. */
  function Start1(offset: int): nat
  {
    if offset > 0 then offset else 0
  }

  /** Where the overlap at `offset` starts in the second sequence. */
  function Start2(offset: int): nat
  {
    if offset < 0 then -offset else 0
  }

  /** Length of the overlap when the second sequence is shifted by `offset`. */
  function OverlapLen(len1: nat, len2: nat, offset: int): (len: int)
    ensures 0 <= len ==> Start1(offset) + len <= len1 && Start2(offset) + len <= len2
  {
    Min(len1 - Start1(offset), len2 - Start2(offset))
  }

  /** The shift that puts `b.offset2` of the second sequence under `b.offset1` of the first. */
  function Shift(b: Best): int
  {
    b.offset1 - b.offset2
  }

  /** The overlap at `offset`, scored. */
  function Offered(s1: seq<byte>, s2: seq<byte>, offset: int): (c: Best)
    requires 0 < OverlapLen(|s1|, |s2|, offset)
    ensures 0 <= c.mismatches <= c.length && (c.identity == 1.0 <==> c.mismatches == 0)
  {
    var start1, start2 := Start1(offset), Start2(offset);
    var len := OverlapLen(|s1|, |s2|, offset);
    var mismatches := DiffCount(s1[start1..start1 + len], s2[start2..start2 + len]);
    Best(start1, start2, Identity(mismatches, len), len, mismatches)
  }

  /**
   * The replacement rule: clearly higher identity, or identity within the tolerance and a
   * longer overlap.
   */
  predicate IsBetter(c: Best, best: Best)
  {
    || c.identity > best.identity + TOLERANCE
    || (Abs(c.identity - best.identity) < TOLERANCE && c.length > best.length)
  }

  /** The replacement rule applied to one offered overlap: never loses the tolerance or more. */
  function Keep(c: Best, best: Best): (r: Best)
    ensures r == c || r == best
    ensures r.identity + TOLERANCE > best.identity
  {
    if IsBetter(c, best) then c else best
  }

  /** Both starts lie in their sequence, the overlap fits in both, and one start is 0. */
  predicate Placed(s1: seq<byte>, s2: seq<byte>, b: Best)
  {
    && (b.offset1 == 0 || b.offset2 == 0)
    && b.offset1 + b.length <= |s1| && b.offset2 + b.length <= |s2|
  }

  /**
   * The search loop, from `offset` on with `best` kept so far: offsets whose overlap is below
   * `minOverlap` are skipped, and the search stops after the first overlap without mismatches.
   */
  function ScanFrom(s1: seq<byte>, s2: seq<byte>, minOverlap: int, offset: int, best: Best): (r: Best)
    requires 0 < minOverlap
    ensures Placed(s1, s2, best) ==> Placed(s1, s2, r)
    decreases |s1| - minOverlap + 1 - offset
  {
    if offset > |s1| - minOverlap then best
    else if OverlapLen(|s1|, |s2|, offset) < minOverlap then ScanFrom(s1, s2, minOverlap, offset + 1, best)
    else
      var c := Offered(s1, s2, offset);
      if c.mismatches == 0 then Keep(c, best)
      else ScanFrom(s1, s2, minOverlap, offset + 1, Keep(c, best))
  }

  /** The overlap the search settles on for two nonempty sequences. */
  function Winner(s1: seq<byte>, s2: seq<byte>, pct: real): (b: Best)
    requires 0 < |s1| && 0 < |s2| && 0.0 < pct
    ensures Placed(s1, s2, b)
  {
    var minOverlap := MinOverlap(|s1|, |s2|, pct);
    MinOverlapPositive(|s1|, |s2|, pct);
    ScanFrom(s1, s2, minOverlap, -|s2| + minOverlap, Initial)
  }

  /** The result reported for the overlap `w`: its mask, its scores and its conserved blocks. */
  function Report(s1: seq<byte>, s2: seq<byte>, w: Best, windowSize: nat, minIdentity: real, ratio: real): AlignmentResult
    requires 0 < windowSize && Placed(s1, s2, w)
  {
    ReportAt(s1, s2, w.offset1, w.offset2, w.identity, w.length, w.mismatches, windowSize, minIdentity, ratio)
  }

  /** The result for the overlap of length `len` at `offset1` and `offset2`, with its scores. */
  function ReportAt(s1: seq<byte>, s2: seq<byte>, offset1: nat, offset2: nat, identity: real, len: nat, mismatches: int,
                    windowSize: nat, minIdentity: real, ratio: real): (r: AlignmentResult)
    requires 0 < windowSize && offset1 + len <= |s1| && offset2 + len <= |s2|
    ensures r.length == len == |r.mask| && r.offset1 + r.length <= |s1| && r.offset2 + r.length <= |s2|
    ensures r.truncated <==> |s1| != |s2| || offset1 != 0 || offset2 != 0
  {
    var mask := MaskOf(s1[offset1..offset1 + len], s2[offset2..offset2 + len]);
    AlignmentResult(
      mask, mismatches, len, identity, |s1| != |s2| || offset1 != 0 || offset2 != 0,
      offset1, offset2, ConservedBlocks(mask, windowSize, minIdentity, ratio))
  }

  /** Reference result of compare_sequences_full. */
  function AlignSpec(s1: seq<byte>, s2: seq<byte>, windowSize: nat, minIdentity: real, ratio: real, pct: real): (r: AlignmentResult)
    requires 0 < windowSize && 0.0 < pct
    ensures |r.mask| == r.length && r.offset1 + r.length <= |s1| && r.offset2 + r.length <= |s2|
    ensures r.offset1 == 0 || r.offset2 == 0
  {
    if |s1| == 0 || |s2| == 0 then AlignmentResult([], 0, 0, 0.0, true, 0, 0, [])
    else Report(s1, s2, Winner(s1, s2, pct), windowSize, minIdentity, ratio)
  }

  lemma MinOverlapPositive(len1: nat, len2: nat, pct: real)
    requires 0 < len1 && 0 < len2 && 0.0 < pct
    ensures 1 <= MinOverlap(len1, len2, pct)
  {
    var m := Min(len1, len2) as real;
    assert m * pct > 0.0;
  }

  // ---------------------------------------------------------------------------------------------
  // The search as written, with its loops
  // ---------------------------------------------------------------------------------------------

  /** compare_sequences_full: the offset loop, then the mask and the blocks of the winner. */
  method CompareSequencesFull(seq1: seq<byte>, seq2: seq<byte>, segmentWindowLength: nat,
                              minIdentity: real, minSignificantLengthGroup: real, minSequenceOverlapPct: real)
    returns (r: AlignmentResult)
    requires 0 < segmentWindowLength && 0.0 < minSequenceOverlapPct
    ensures r == AlignSpec(seq1, seq2, segmentWindowLength, minIdentity, minSignificantLengthGroup, minSequenceOverlapPct)
  {
    if |seq1| == 0 || |seq2| == 0 {
      return AlignmentResult([], 0, 0, 0.0, true, 0, 0, []);
    }
    var bestOffset1, bestOffset2, bestIdentity, bestOverlapLen, bestMismatches :=
      FindBestOffset(seq1, seq2, minSequenceOverlapPct);

    var region1 := seq1[bestOffset1..bestOffset1 + bestOverlapLen];
    var region2 := seq2[bestOffset2..bestOffset2 + bestOverlapLen];
    var mask, _ := CompareRegions(region1, region2);
    var blocks := FindConservedBlocks(mask, segmentWindowLength, minIdentity, minSignificantLengthGroup);
    var truncated := |seq1| != |seq2| || bestOffset1 != 0 || bestOffset2 != 0;
    r := AlignmentResult(mask, bestMismatches, bestOverlapLen, bestIdentity, truncated, bestOffset1, bestOffset2, blocks);
    WinnerReport(seq1, seq2, segmentWindowLength, minIdentity, minSignificantLengthGroup, minSequenceOverlapPct,
      Best(bestOffset1, bestOffset2, bestIdentity, bestOverlapLen, bestMismatches));
  }

  /**
   * The offset loop of compare_sequences_full: every shift from `-len2 + minOverlap` to
   * `len1 - minOverlap` in increasing order, keeping the best overlap, until a perfect one.
   */
  method FindBestOffset(seq1: seq<byte>, seq2: seq<byte>, minSequenceOverlapPct: real)
    returns (bestOffset1: nat, bestOffset2: nat, bestIdentity: real, bestOverlapLen: nat, bestMismatches: int)
    requires 0 < |seq1| && 0 < |seq2| && 0.0 < minSequenceOverlapPct
    ensures Best(bestOffset1, bestOffset2, bestIdentity, bestOverlapLen, bestMismatches)
         == Winner(seq1, seq2, minSequenceOverlapPct)
    ensures Placed(seq1, seq2, Best(bestOffset1, bestOffset2, bestIdentity, bestOverlapLen, bestMismatches))
  {
    var len1, len2 := |seq1|, |seq2|;
    var minOverlap := MinOverlap(len1, len2, minSequenceOverlapPct);
    MinOverlapPositive(len1, len2, minSequenceOverlapPct);
    bestOffset1, bestOffset2 := 0, 0;
    bestIdentity := 0.0;
    bestOverlapLen := 0;
    bestMismatches := I32_MAX;

    ghost var lo := -len2 + minOverlap;
    WinnerScan(seq1, seq2, minSequenceOverlapPct, minOverlap);
    var offset := -len2 + minOverlap;
    while offset <= len1 - minOverlap
      invariant Placed(seq1, seq2, Best(bestOffset1, bestOffset2, bestIdentity, bestOverlapLen, bestMismatches))
      invariant ScanFrom(seq1, seq2, minOverlap, offset, Best(bestOffset1, bestOffset2, bestIdentity, bestOverlapLen, bestMismatches))
             == ScanFrom(seq1, seq2, minOverlap, lo, Initial)
      decreases len1 - minOverlap - offset
    {
      var perfect;
      bestOffset1, bestOffset2, bestIdentity, bestOverlapLen, bestMismatches, perfect :=
        VisitShift(seq1, seq2, minOverlap, lo, offset, bestOffset1, bestOffset2, bestIdentity, bestOverlapLen, bestMismatches);
      if perfect {
        break;
      }
      offset := offset + 1;
    }
    if offset > len1 - minOverlap {
      ScanDone(seq1, seq2, minOverlap, offset, Best(bestOffset1, bestOffset2, bestIdentity, bestOverlapLen, bestMismatches));
    }
  }

  /**
   * One pass of the offset loop: skips a shift whose overlap is too short, otherwise counts its
   * mismatches, applies the replacement rule and reports whether the overlap is perfect.
   */
  method VisitShift(seq1: seq<byte>, seq2: seq<byte>, minOverlap: int, ghost lo: int, offset: int,
                    bestOffset1: nat, bestOffset2: nat, bestIdentity: real, bestOverlapLen: nat, bestMismatches: int)
    returns (bestOffset1': nat, bestOffset2': nat, bestIdentity': real, bestOverlapLen': nat, bestMismatches': int, perfect: bool)
    requires 0 < minOverlap && offset <= |seq1| - minOverlap
    requires Placed(seq1, seq2, Best(bestOffset1, bestOffset2, bestIdentity, bestOverlapLen, bestMismatches))
    requires ScanFrom(seq1, seq2, minOverlap, offset, Best(bestOffset1, bestOffset2, bestIdentity, bestOverlapLen, bestMismatches))
          == ScanFrom(seq1, seq2, minOverlap, lo, Initial)
    ensures Placed(seq1, seq2, Best(bestOffset1', bestOffset2', bestIdentity', bestOverlapLen', bestMismatches'))
    ensures perfect ==>
      Best(bestOffset1', bestOffset2', bestIdentity', bestOverlapLen', bestMismatches') == ScanFrom(seq1, seq2, minOverlap, lo, Initial)
    ensures !perfect ==>
      ScanFrom(seq1, seq2, minOverlap, offset + 1, Best(bestOffset1', bestOffset2', bestIdentity', bestOverlapLen', bestMismatches'))
      == ScanFrom(seq1, seq2, minOverlap, lo, Initial)
  {
    bestOffset1', bestOffset2', bestIdentity', bestOverlapLen', bestMismatches' :=
      bestOffset1, bestOffset2, bestIdentity, bestOverlapLen, bestMismatches;
    var len1, len2 := |seq1|, |seq2|;
    var start1 := if offset > 0 then offset else 0;
    var start2 := if offset < 0 then -offset else 0;
    var overlapLen := Min(len1 - start1, len2 - start2);
    if overlapLen < minOverlap {
      ScanSkip(seq1, seq2, minOverlap, offset, Best(bestOffset1, bestOffset2, bestIdentity, bestOverlapLen, bestMismatches));
      return bestOffset1', bestOffset2', bestIdentity', bestOverlapLen', bestMismatches', false;
    }

    var mismatches := CountOverlapMismatches(seq1, seq2, start1, start2, overlapLen);

    var identity := 1.0 - (mismatches as real) / (overlapLen as real);
    var isBetter := identity > bestIdentity + 0.01
      || (Abs(identity - bestIdentity) < 0.01 && overlapLen > bestOverlapLen);

    if isBetter {
      bestIdentity' := identity;
      bestOffset1' := start1;
      bestOffset2' := start2;
      bestOverlapLen' := overlapLen;
      bestMismatches' := mismatches;
    }

    VisitStep(seq1, seq2, minOverlap, lo, offset, Best(bestOffset1, bestOffset2, bestIdentity, bestOverlapLen, bestMismatches),
      start1, start2, overlapLen, mismatches, identity, isBetter,
      Best(bestOffset1', bestOffset2', bestIdentity', bestOverlapLen', bestMismatches'));
    perfect := mismatches == 0;
  }

  lemma WinnerReport(s1: seq<byte>, s2: seq<byte>, windowSize: nat, minIdentity: real, ratio: real, pct: real, w: Best)
    requires 0 < windowSize && 0.0 < pct && 0 < |s1| && 0 < |s2| && w == Winner(s1, s2, pct)
    ensures AlignSpec(s1, s2, windowSize, minIdentity, ratio, pct)
         == ReportAt(s1, s2, w.offset1, w.offset2, w.identity, w.length, w.mismatches, windowSize, minIdentity, ratio)
  {
  }

  /** The mismatch count of the overlap that starts at `start1` and `start2`, position by position. */
  method CountOverlapMismatches(seq1: seq<byte>, seq2: seq<byte>, start1: nat, start2: nat, overlapLen: nat)
    returns (mismatches: nat)
    requires start1 + overlapLen <= |seq1| && start2 + overlapLen <= |seq2|
    ensures mismatches == DiffCount(seq1[start1..start1 + overlapLen], seq2[start2..start2 + overlapLen])
  {
    ghost var region1, region2 := seq1[start1..start1 + overlapLen], seq2[start2..start2 + overlapLen];
    mismatches := 0;
    for i := 0 to overlapLen
      invariant mismatches == DiffCount(region1[..i], region2[..i])
    {
      assert region1[..i + 1][..i] == region1[..i] && region2[..i + 1][..i] == region2[..i];
      assert region1[i] == seq1[start1 + i] && region2[i] == seq2[start2 + i];
      if seq1[start1 + i] != seq2[start2 + i] {
        mismatches := mismatches + 1;
      }
    }
    assert region1[..overlapLen] == region1 && region2[..overlapLen] == region2;
  }

  lemma WinnerScan(s1: seq<byte>, s2: seq<byte>, pct: real, minOverlap: int)
    requires 0 < |s1| && 0 < |s2| && 0.0 < pct && minOverlap == MinOverlap(|s1|, |s2|, pct) && 0 < minOverlap
    ensures Winner(s1, s2, pct) == ScanFrom(s1, s2, minOverlap, -|s2| + minOverlap, Initial)
  {
  }

  lemma ScanDone(s1: seq<byte>, s2: seq<byte>, minOverlap: int, offset: int, best: Best)
    requires 0 < minOverlap && |s1| - minOverlap < offset
    ensures ScanFrom(s1, s2, minOverlap, offset, best) == best
  {
  }

  lemma ScanSkip(s1: seq<byte>, s2: seq<byte>, minOverlap: int, offset: int, best: Best)
    requires 0 < minOverlap && offset <= |s1| - minOverlap && OverlapLen(|s1|, |s2|, offset) < minOverlap
    ensures ScanFrom(s1, s2, minOverlap, offset, best) == ScanFrom(s1, s2, minOverlap, offset + 1, best)
  {
  }

  /** One scored shift of the loop keeps its invariant, or ends the search with the result. */
  lemma VisitStep(s1: seq<byte>, s2: seq<byte>, minOverlap: int, lo: int, offset: int, best: Best,
                  start1: nat, start2: nat, len: nat, mismatches: nat, identity: real, isBetter: bool, best': Best)
    requires 0 < minOverlap && offset <= |s1| - minOverlap
    requires Placed(s1, s2, best) && ScanFrom(s1, s2, minOverlap, offset, best) == ScanFrom(s1, s2, minOverlap, lo, Initial)
    requires start1 == Start1(offset) && start2 == Start2(offset)
    requires len == OverlapLen(|s1|, |s2|, offset) && minOverlap <= len
    requires mismatches == DiffCount(s1[start1..start1 + len], s2[start2..start2 + len])
    requires identity == 1.0 - (mismatches as real) / (len as real)
    requires isBetter == (identity > best.identity + 0.01 || (Abs(identity - best.identity) < 0.01 && len > best.length))
    requires best' == if isBetter then Best(start1, start2, identity, len, mismatches) else best
    ensures Placed(s1, s2, best')
    ensures mismatches == 0 ==> best' == ScanFrom(s1, s2, minOverlap, lo, Initial)
    ensures mismatches != 0 ==> ScanFrom(s1, s2, minOverlap, offset + 1, best') == ScanFrom(s1, s2, minOverlap, lo, Initial)
  {
    var c := Best(start1, start2, identity, len, mismatches);
    OfferedAt(s1, s2, offset, start1, start2, len, mismatches, identity);
    assert best' == Keep(c, best);
  }

  lemma OfferedAt(s1: seq<byte>, s2: seq<byte>, offset: int, start1: nat, start2: nat, len: nat, mismatches: nat, identity: real)
    requires start1 == Start1(offset) && start2 == Start2(offset)
    requires len == OverlapLen(|s1|, |s2|, offset) && 0 < len
    requires mismatches == DiffCount(s1[start1..start1 + len], s2[start2..start2 + len])
    requires identity == 1.0 - (mismatches as real) / (len as real)
    ensures Offered(s1, s2, offset) == Best(start1, start2, identity, len, mismatches)
  {
  }

  // ---------------------------------------------------------------------------------------------
  // Bounds of the search
  // ---------------------------------------------------------------------------------------------

  lemma MinOverlapBounds(len1: nat, len2: nat, pct: real)
    requires 0 < len1 && 0 < len2 && 0.0 < pct <= 1.0
    ensures 1 <= MinOverlap(len1, len2, pct) <= Min(len1, len2)
  {
    MinOverlapPositive(len1, len2, pct);
    var m := Min(len1, len2) as real;
    assert m * pct <= m * 1.0;
  }

  /** With a fraction of at most 1, every shift the loop visits already overlaps by the minimum. */
  lemma GuardRedundant(len1: nat, len2: nat, pct: real, offset: int)
    requires 0 < len1 && 0 < len2 && 0.0 < pct <= 1.0
    requires -(len2 as int) + MinOverlap(len1, len2, pct) <= offset <= len1 - MinOverlap(len1, len2, pct)
    ensures MinOverlap(len1, len2, pct) <= OverlapLen(len1, len2, offset)
  {
    MinOverlapBounds(len1, len2, pct);
  }

  /** A fraction above 1 asks for more overlap than the shorter sequence has. */
  lemma MinOverlapTooLong(len1: nat, len2: nat, pct: real)
    requires 0 < len1 && 0 < len2 && 1.0 < pct
    ensures Min(len1, len2) < MinOverlap(len1, len2, pct)
  {
    var m := Min(len1, len2) as real;
    assert m * pct > m * 1.0;
  }

  lemma {:induction false} ScanAllTooShort(s1: seq<byte>, s2: seq<byte>, minOverlap: int, offset: int, best: Best)
    requires Min(|s1|, |s2|) < minOverlap
    ensures ScanFrom(s1, s2, minOverlap, offset, best) == best
    decreases |s1| - minOverlap + 1 - offset
  {
    if offset <= |s1| - minOverlap {
      assert OverlapLen(|s1|, |s2|, offset) <= Min(|s1|, |s2|);
      ScanAllTooShort(s1, s2, minOverlap, offset + 1, best);
    }
  }

  // ---------------------------------------------------------------------------------------------
  // What the search keeps
  // ---------------------------------------------------------------------------------------------

  /**
   * `b` is the scored overlap at a shift the loop visits from `lo` on, and that overlap reaches
   * the minimum.
   */
  predicate ScoredAt(s1: seq<byte>, s2: seq<byte>, minOverlap: int, lo: int, b: Best)
  {
    && Visited(|s1|, |s2|, minOverlap, lo, Shift(b))
    && b == Offered(s1, s2, Shift(b))
  }

  /** The loop, started at `lo`, scores the shift `p`: it is in range and overlaps enough. */
  predicate Visited(len1: nat, len2: nat, minOverlap: int, lo: int, p: int)
  {
    && 0 < minOverlap
    && lo <= p <= len1 - minOverlap
    && minOverlap <= OverlapLen(len1, len2, p)
  }

  lemma OfferedScored(s1: seq<byte>, s2: seq<byte>, minOverlap: int, lo: int, offset: int)
    requires 0 < minOverlap && lo <= offset <= |s1| - minOverlap && minOverlap <= OverlapLen(|s1|, |s2|, offset)
    ensures Shift(Offered(s1, s2, offset)) == offset
    ensures ScoredAt(s1, s2, minOverlap, lo, Offered(s1, s2, offset))
  {
  }

  /** The search keeps either the initial value or the scored overlap of a visited shift. */
  lemma {:induction false} ScanFromScored(s1: seq<byte>, s2: seq<byte>, minOverlap: int, lo: int, offset: int, best: Best)
    requires 0 < minOverlap && lo <= offset
    requires best == Initial || ScoredAt(s1, s2, minOverlap, lo, best)
    ensures var r := ScanFrom(s1, s2, minOverlap, offset, best);
      r == Initial || ScoredAt(s1, s2, minOverlap, lo, r)
    decreases |s1| - minOverlap + 1 - offset
  {
    if offset > |s1| - minOverlap {
    } else if OverlapLen(|s1|, |s2|, offset) < minOverlap {
      ScanFromScored(s1, s2, minOverlap, lo, offset + 1, best);
    } else {
      var c := Offered(s1, s2, offset);
      OfferedScored(s1, s2, minOverlap, lo, offset);
      if c.mismatches != 0 {
        ScanFromScored(s1, s2, minOverlap, lo, offset + 1, Keep(c, best));
      }
    }
  }

  /** The search does not look past the first shift whose overlap has no mismatch. */
  lemma {:induction false} ScanStopsAtPerfect(s1: seq<byte>, s2: seq<byte>, minOverlap: int, offset: int, best: Best, p: int)
    requires 0 < minOverlap && offset <= p <= |s1| - minOverlap && minOverlap <= OverlapLen(|s1|, |s2|, p)
    requires Offered(s1, s2, p).mismatches == 0
    ensures var r := ScanFrom(s1, s2, minOverlap, offset, best);
      r == best || offset <= Shift(r) <= p
    decreases p - offset
  {
    if OverlapLen(|s1|, |s2|, offset) < minOverlap {
      ScanStopsAtPerfect(s1, s2, minOverlap, offset + 1, best, p);
    } else {
      var c := Offered(s1, s2, offset);
      OfferedScored(s1, s2, minOverlap, offset, offset);
      if c.mismatches != 0 {
        ScanStopsAtPerfect(s1, s2, minOverlap, offset + 1, Keep(c, best), p);
      }
    }
  }

  // ---------------------------------------------------------------------------------------------
  // The search as a pipeline: the shifts it scores in increasing order, cut after the first
  // perfect one, their overlaps offered one by one to the replacement rule
  // ---------------------------------------------------------------------------------------------

  /** The shifts the loop scores from `offset` on: those in range whose overlap reaches the minimum. */
  function Candidates(len1: nat, len2: nat, minOverlap: int, offset: int): (ps: seq<int>)
    requires 0 < minOverlap
    ensures forall k | 0 <= k < |ps| :: Visited(len1, len2, minOverlap, offset, ps[k])
    decreases len1 - minOverlap + 1 - offset
  {
    if offset > len1 - minOverlap then []
    else if OverlapLen(len1, len2, offset) < minOverlap then Candidates(len1, len2, minOverlap, offset + 1)
    else [offset] + Candidates(len1, len2, minOverlap, offset + 1)
  }

  /** Every shift of `ps` leaves a nonempty overlap, so it can be scored. */
  predicate Scorable(len1: nat, len2: nat, ps: seq<int>)
  {
    forall k | 0 <= k < |ps| :: 0 < OverlapLen(len1, len2, ps[k])
  }

  /** The scored overlap of each shift, in the same order. */
  function Scores(s1: seq<byte>, s2: seq<byte>, ps: seq<int>): (cs: seq<Best>)
    requires Scorable(|s1|, |s2|, ps)
    ensures |cs| == |ps|
    ensures forall k | 0 <= k < |ps| :: cs[k] == Offered(s1, s2, ps[k])
  {
    if ps == [] then [] else [Offered(s1, s2, ps[0])] + Scores(s1, s2, ps[1..])
  }

  /** The overlaps up to and including the first one without mismatches. */
  function UpToFirstPerfect(cs: seq<Best>): (cut: seq<Best>)
    ensures |cut| <= |cs| && cut == cs[..|cut|]
    ensures forall k | 0 <= k < |cut| - 1 :: cut[k].mismatches != 0
  {
    if cs == [] then []
    else if cs[0].mismatches == 0 then [cs[0]]
    else [cs[0]] + UpToFirstPerfect(cs[1..])
  }

  /** Offers each overlap in turn to the replacement rule, starting from `best`. */
  function Select(cs: seq<Best>, best: Best): (r: Best)
    ensures r == best || r in cs
  {
    if cs == [] then best else Select(cs[1..], Keep(cs[0], best))
  }

  /** The loop's recursion is the pipeline: candidates scored, cut after the first perfect one, selected. */
  lemma {:induction false} ScanIsSelect(s1: seq<byte>, s2: seq<byte>, minOverlap: int, offset: int, best: Best)
    requires 0 < minOverlap
    ensures var ps := Candidates(|s1|, |s2|, minOverlap, offset);
      && Scorable(|s1|, |s2|, ps)
      && ScanFrom(s1, s2, minOverlap, offset, best) == Select(UpToFirstPerfect(Scores(s1, s2, ps)), best)
    decreases |s1| - minOverlap + 1 - offset
  {
    var ps := Candidates(|s1|, |s2|, minOverlap, offset);
    assert Scorable(|s1|, |s2|, ps) by {
      forall k | 0 <= k < |ps| ensures 0 < OverlapLen(|s1|, |s2|, ps[k]) {
        assert Visited(|s1|, |s2|, minOverlap, offset, ps[k]);
      }
    }
    if offset > |s1| - minOverlap {
    } else if OverlapLen(|s1|, |s2|, offset) < minOverlap {
      ScanIsSelect(s1, s2, minOverlap, offset + 1, best);
    } else {
      var c := Offered(s1, s2, offset);
      var rest := Candidates(|s1|, |s2|, minOverlap, offset + 1);
      ScanIsSelect(s1, s2, minOverlap, offset + 1, Keep(c, best));
      assert ps == [offset] + rest;
      assert ps[0] == offset && ps[1..] == rest;
      var scored := Scores(s1, s2, rest);
      assert Scores(s1, s2, ps) == [c] + scored;
      assert ([c] + scored)[0] == c && ([c] + scored)[1..] == scored;
      if c.mismatches == 0 {
        assert UpToFirstPerfect([c] + scored) == [c];
        assert [c][1..] == [];
      } else {
        var cut := UpToFirstPerfect(scored);
        assert UpToFirstPerfect([c] + scored) == [c] + cut;
        assert ([c] + cut)[0] == c && ([c] + cut)[1..] == cut;
      }
    }
  }

  /** The candidates come in strictly increasing order and include every shift the loop scores. */
  lemma {:induction false} CandidatesInOrder(len1: nat, len2: nat, minOverlap: int, offset: int)
    requires 0 < minOverlap
    ensures var ps := Candidates(len1, len2, minOverlap, offset);
      && (forall k, l | 0 <= k < l < |ps| :: ps[k] < ps[l])
      && (forall p | Visited(len1, len2, minOverlap, offset, p) :: p in ps)
    decreases len1 - minOverlap + 1 - offset
  {
    if offset <= len1 - minOverlap {
      var rest := Candidates(len1, len2, minOverlap, offset + 1);
      CandidatesInOrder(len1, len2, minOverlap, offset + 1);
      if minOverlap <= OverlapLen(len1, len2, offset) {
        var ps := [offset] + rest;
        forall k, l | 0 <= k < l < |ps|
          ensures ps[k] < ps[l]
        {
          assert ps[l] == rest[l - 1];
          assert Visited(len1, len2, minOverlap, offset + 1, rest[l - 1]);
          if k > 0 {
            assert ps[k] == rest[k - 1];
          }
        }
        forall p | Visited(len1, len2, minOverlap, offset, p)
          ensures p in ps
        {
          if p > offset {
            assert Visited(len1, len2, minOverlap, offset + 1, p);
          }
        }
      } else {
        forall p | Visited(len1, len2, minOverlap, offset, p)
          ensures p in rest
        {
          assert Visited(len1, len2, minOverlap, offset + 1, p);
        }
      }
    }
  }

  /**
   * The cut keeps a prefix of the overlaps: none before its last is perfect, it ends on the first
   * perfect one if there is one, and keeps everything if there is none.
   */
  lemma {:induction false} UpToFirstPerfectProperties(cs: seq<Best>)
    ensures var t := UpToFirstPerfect(cs);
      && ((forall k | 0 <= k < |cs| :: cs[k].mismatches != 0) ==> t == cs)
      && ((exists k | 0 <= k < |cs| :: cs[k].mismatches == 0) ==> t != [] && t[|t| - 1].mismatches == 0)
  {
    if cs != [] && cs[0].mismatches != 0 {
      var rest := cs[1..];
      var t' := UpToFirstPerfect(rest);
      UpToFirstPerfectProperties(rest);
      var t := [cs[0]] + t';
      if forall k | 0 <= k < |cs| :: cs[k].mismatches != 0 {
        assert forall k | 0 <= k < |rest| :: rest[k] == cs[k + 1];
        assert cs == [cs[0]] + rest;
      }
      if exists k | 0 <= k < |cs| :: cs[k].mismatches == 0 {
        var k :| 0 <= k < |cs| && cs[k].mismatches == 0;
        assert rest[k - 1] == cs[k];
      }
    }
  }

  /**
   * The selected overlap is either the starting value, which no overlap beats, or an overlap that
   * beat what was kept before it and that no later overlap beats.
   */
  lemma {:induction false} SelectUnbeaten(cs: seq<Best>, best: Best)
    ensures var r := Select(cs, best);
      || (r == best && forall k | 0 <= k < |cs| :: !IsBetter(cs[k], best))
      || (exists k | 0 <= k < |cs| ::
            && r == cs[k] && IsBetter(cs[k], Select(cs[..k], best))
            && forall j | k < j < |cs| :: !IsBetter(cs[j], r))
  {
    if cs != [] {
      var rest := cs[1..];
      var b' := Keep(cs[0], best);
      var r := Select(cs, best);
      SelectUnbeaten(rest, b');
      assert forall j | 1 <= j < |cs| :: cs[j] == rest[j - 1];
      if r == b' && forall k | 0 <= k < |rest| :: !IsBetter(rest[k], b') {
        if IsBetter(cs[0], best) {
          assert cs[..0] == [];
          assert r == cs[0] && IsBetter(cs[0], Select(cs[..0], best));
        }
      } else {
        var k :| 0 <= k < |rest| && r == rest[k] && IsBetter(rest[k], Select(rest[..k], b'))
                 && forall j | k < j < |rest| :: !IsBetter(rest[j], r);
        assert cs[..k + 1][1..] == rest[..k] && cs[..k + 1][0] == cs[0];
        assert Select(cs[..k + 1], best) == Select(rest[..k], b');
        assert r == cs[k + 1];
      }
    }
  }

  // ---------------------------------------------------------------------------------------------
  // The search for two nonempty sequences, and the reported result
  // ---------------------------------------------------------------------------------------------

  /** The winner is the initial value or the scored overlap at a shift the loop scores. */
  lemma WinnerScored(s1: seq<byte>, s2: seq<byte>, pct: real)
    requires 0 < |s1| && 0 < |s2| && 0.0 < pct
    ensures var minOverlap := MinOverlap(|s1|, |s2|, pct);
      var w := Winner(s1, s2, pct);
      w == Initial || ScoredAt(s1, s2, minOverlap, -|s2| + minOverlap, w)
  {
    var minOverlap := MinOverlap(|s1|, |s2|, pct);
    MinOverlapPositive(|s1|, |s2|, pct);
    ScanFromScored(s1, s2, minOverlap, -|s2| + minOverlap, -|s2| + minOverlap, Initial);
  }

  /**
   * The winner is what the replacement rule selects from the scored overlaps of the candidate
   * shifts, in increasing shift order, up to the first perfect one.
   */
  lemma WinnerSelection(s1: seq<byte>, s2: seq<byte>, pct: real)
    requires 0 < |s1| && 0 < |s2| && 0.0 < pct
    ensures var minOverlap := MinOverlap(|s1|, |s2|, pct);
      var ps := Candidates(|s1|, |s2|, minOverlap, -|s2| + minOverlap);
      && Scorable(|s1|, |s2|, ps)
      && Winner(s1, s2, pct) == Select(UpToFirstPerfect(Scores(s1, s2, ps)), Initial)
  {
    var minOverlap := MinOverlap(|s1|, |s2|, pct);
    MinOverlapPositive(|s1|, |s2|, pct);
    ScanIsSelect(s1, s2, minOverlap, -|s2| + minOverlap, Initial);
  }

  /** No shift after the first perfect one is ever kept. */
  lemma WinnerNotPastPerfect(s1: seq<byte>, s2: seq<byte>, pct: real, p: int)
    requires 0 < |s1| && 0 < |s2| && 0.0 < pct
    requires Visited(|s1|, |s2|, MinOverlap(|s1|, |s2|, pct), -|s2| + MinOverlap(|s1|, |s2|, pct), p)
    requires Offered(s1, s2, p).mismatches == 0
    ensures var w := Winner(s1, s2, pct); w == Initial || Shift(w) <= p
  {
    var minOverlap := MinOverlap(|s1|, |s2|, pct);
    ScanStopsAtPerfect(s1, s2, minOverlap, -|s2| + minOverlap, Initial, p);
  }

  /** Empty input: the fixed empty result, reported as truncated. */
  lemma AlignmentEmpty(s1: seq<byte>, s2: seq<byte>, windowSize: nat, minIdentity: real, ratio: real, pct: real)
    requires 0 < windowSize && 0.0 < pct && (|s1| == 0 || |s2| == 0)
    ensures var r := AlignSpec(s1, s2, windowSize, minIdentity, ratio, pct);
      && r.mask == [] && r.mismatches == 0 && r.length == 0 && r.identity == 0.0
      && r.truncated && r.offset1 == 0 && r.offset2 == 0 && r.conservedBlocks == []
  {
  }

  /**
   * Placement of the result: one overlap start is 0, the overlap fits in both sequences, and
   * `truncated` says whether the overlap is not the whole of both sequences.
   */
  lemma AlignmentPlacement(s1: seq<byte>, s2: seq<byte>, windowSize: nat, minIdentity: real, ratio: real, pct: real)
    requires 0 < windowSize && 0.0 < pct && 0 < |s1| && 0 < |s2|
    ensures var r := AlignSpec(s1, s2, windowSize, minIdentity, ratio, pct);
      && (r.offset1 == 0 || r.offset2 == 0)
      && r.offset1 + r.length <= |s1| && r.offset2 + r.length <= |s2|
      && r.truncated == (|s1| != |s2| || r.offset1 != 0 || r.offset2 != 0)
  {
    var w := Winner(s1, s2, pct);
    assert AlignSpec(s1, s2, windowSize, minIdentity, ratio, pct) == Report(s1, s2, w, windowSize, minIdentity, ratio);
  }

  /** The mask covers the reported overlap, position by position. */
  lemma AlignmentMask(s1: seq<byte>, s2: seq<byte>, windowSize: nat, minIdentity: real, ratio: real, pct: real)
    requires 0 < windowSize && 0.0 < pct && 0 < |s1| && 0 < |s2|
    ensures var r := AlignSpec(s1, s2, windowSize, minIdentity, ratio, pct);
      && |r.mask| == r.length
      && forall i | 0 <= i < r.length ::
           r.mask[i] == if s1[r.offset1 + i] == s2[r.offset2 + i] then s1[r.offset1 + i] else MISMATCH
  {
    var w := Winner(s1, s2, pct);
    var r := AlignSpec(s1, s2, windowSize, minIdentity, ratio, pct);
    assert r == Report(s1, s2, w, windowSize, minIdentity, ratio);
    assert r.mask == MaskOf(s1[w.offset1..w.offset1 + w.length], s2[w.offset2..w.offset2 + w.length]);
    assert r.offset1 == w.offset1 && r.offset2 == w.offset2 && r.length == w.length;
    SliceMask(s1, s2, w.offset1, w.offset2, w.length);
  }

  lemma SliceMask(s1: seq<byte>, s2: seq<byte>, offset1: nat, offset2: nat, len: nat)
    requires offset1 + len <= |s1| && offset2 + len <= |s2|
    ensures var mask := MaskOf(s1[offset1..offset1 + len], s2[offset2..offset2 + len]);
      && |mask| == len
      && forall i | 0 <= i < len ::
           mask[i] == if s1[offset1 + i] == s2[offset2 + i] then s1[offset1 + i] else MISMATCH
  {
    var region1, region2 := s1[offset1..offset1 + len], s2[offset2..offset2 + len];
    forall i | 0 <= i < len
      ensures MaskOf(region1, region2)[i] == if s1[offset1 + i] == s2[offset2 + i] then s1[offset1 + i] else MISMATCH
    {
      assert region1[i] == s1[offset1 + i] && region2[i] == s2[offset2 + i];
    }
  }

  /**
   * Identity of the result: between 0 and 1, the matching fraction of a kept overlap, and 0 with
   * the i32 maximum as mismatch count and an empty mask when nothing was kept.
   */
  lemma AlignmentIdentity(s1: seq<byte>, s2: seq<byte>, windowSize: nat, minIdentity: real, ratio: real, pct: real)
    requires 0 < windowSize && 0.0 < pct && 0 < |s1| && 0 < |s2|
    ensures var r := AlignSpec(s1, s2, windowSize, minIdentity, ratio, pct);
      && 0.0 <= r.identity <= 1.0
      && (r.length > 0 ==> 0 <= r.mismatches <= r.length && r.identity == Identity(r.mismatches, r.length))
      && (r.length == 0 ==> r.mismatches == I32_MAX && r.identity == 0.0 && r.mask == [])
  {
    var w := Winner(s1, s2, pct);
    WinnerScore(s1, s2, pct);
    ReportIdentity(s1, s2, w, windowSize, minIdentity, ratio);
  }

  lemma ReportIdentity(s1: seq<byte>, s2: seq<byte>, w: Best, windowSize: nat, minIdentity: real, ratio: real)
    requires 0 < windowSize && Placed(s1, s2, w)
    requires w == Initial || (0 < w.length
      && w.mismatches == DiffCount(s1[w.offset1..w.offset1 + w.length], s2[w.offset2..w.offset2 + w.length])
      && w.identity == Identity(w.mismatches, w.length))
    ensures var r := Report(s1, s2, w, windowSize, minIdentity, ratio);
      && 0.0 <= r.identity <= 1.0
      && (r.length > 0 ==> 0 <= r.mismatches <= r.length && r.identity == Identity(r.mismatches, r.length))
      && (r.length == 0 ==> r.mismatches == I32_MAX && r.identity == 0.0 && r.mask == [])
  {
    if w != Initial {
      IdentityBounds(w.mismatches, w.length);
    }
  }

  /** A kept overlap is the whole overlap of a shift the search scores. */
  lemma AlignmentKept(s1: seq<byte>, s2: seq<byte>, windowSize: nat, minIdentity: real, ratio: real, pct: real)
    requires 0 < windowSize && 0.0 < pct && 0 < |s1| && 0 < |s2|
    ensures var r := AlignSpec(s1, s2, windowSize, minIdentity, ratio, pct);
      var minOverlap := MinOverlap(|s1|, |s2|, pct);
      r.length > 0 ==>
        && Visited(|s1|, |s2|, minOverlap, -|s2| + minOverlap, r.offset1 - r.offset2)
        && r.length == OverlapLen(|s1|, |s2|, r.offset1 - r.offset2)
  {
    var w := Winner(s1, s2, pct);
    assert AlignSpec(s1, s2, windowSize, minIdentity, ratio, pct) == Report(s1, s2, w, windowSize, minIdentity, ratio);
    WinnerFacts(s1, s2, pct);
  }

  /**
   * The reported mismatch count is the number of MISMATCH symbols in the mask, as long as the
   * first sequence does not itself hold the MISMATCH symbol.
   */
  lemma AlignmentMismatches(s1: seq<byte>, s2: seq<byte>, windowSize: nat, minIdentity: real, ratio: real, pct: real)
    requires 0 < windowSize && 0.0 < pct && 0 < |s1| && 0 < |s2| && MISMATCH !in s1
    ensures var r := AlignSpec(s1, s2, windowSize, minIdentity, ratio, pct);
      r.length > 0 ==> r.mismatches == CountMismatchesInMask(r.mask)
  {
    var w := Winner(s1, s2, pct);
    WinnerScore(s1, s2, pct);
    ReportMismatches(s1, s2, w, windowSize, minIdentity, ratio);
  }

  lemma ReportMismatches(s1: seq<byte>, s2: seq<byte>, w: Best, windowSize: nat, minIdentity: real, ratio: real)
    requires 0 < windowSize && Placed(s1, s2, w) && MISMATCH !in s1
    requires w == Initial
      || w.mismatches == DiffCount(s1[w.offset1..w.offset1 + w.length], s2[w.offset2..w.offset2 + w.length])
    ensures var r := Report(s1, s2, w, windowSize, minIdentity, ratio);
      r.length > 0 ==> r.mismatches == CountMismatchesInMask(r.mask)
  {
    var region1, region2 := s1[w.offset1..w.offset1 + w.length], s2[w.offset2..w.offset2 + w.length];
    var r := Report(s1, s2, w, windowSize, minIdentity, ratio);
    assert r.length == w.length && r.mismatches == w.mismatches && r.mask == MaskOf(region1, region2);
    if w != Initial {
      WinnerMaskCount(s1, s2, w);
    }
  }

  /** A kept winner is the whole overlap of a shift the search scores. */
  lemma WinnerFacts(s1: seq<byte>, s2: seq<byte>, pct: real)
    requires 0 < |s1| && 0 < |s2| && 0.0 < pct
    ensures var w := Winner(s1, s2, pct);
      var minOverlap := MinOverlap(|s1|, |s2|, pct);
      w != Initial ==>
        && Visited(|s1|, |s2|, minOverlap, -|s2| + minOverlap, w.offset1 - w.offset2)
        && 0 < w.length == OverlapLen(|s1|, |s2|, w.offset1 - w.offset2)
  {
    var w := Winner(s1, s2, pct);
    WinnerScored(s1, s2, pct);
    if w != Initial {
      var offset := Shift(w);
      assert w == Offered(s1, s2, offset);
      assert w.offset1 == Start1(offset) && w.offset2 == Start2(offset);
    }
  }

  /** A kept winner carries the difference count and the identity of its overlap. */
  lemma WinnerScore(s1: seq<byte>, s2: seq<byte>, pct: real)
    requires 0 < |s1| && 0 < |s2| && 0.0 < pct
    ensures var w := Winner(s1, s2, pct);
      w != Initial ==>
        && 0 < w.length
        && w.mismatches == DiffCount(s1[w.offset1..w.offset1 + w.length], s2[w.offset2..w.offset2 + w.length])
        && w.identity == Identity(w.mismatches, w.length)
  {
    var w := Winner(s1, s2, pct);
    WinnerScored(s1, s2, pct);
    if w != Initial {
      var offset := Shift(w);
      assert w == Offered(s1, s2, offset);
      assert w.offset1 == Start1(offset) && w.offset2 == Start2(offset);
    }
  }

  lemma WinnerMaskCount(s1: seq<byte>, s2: seq<byte>, w: Best)
    requires Placed(s1, s2, w) && MISMATCH !in s1
    requires w.mismatches == DiffCount(s1[w.offset1..w.offset1 + w.length], s2[w.offset2..w.offset2 + w.length])
    ensures w.mismatches == CountMismatchesInMask(MaskOf(s1[w.offset1..w.offset1 + w.length], s2[w.offset2..w.offset2 + w.length]))
  {
    var region1, region2 := s1[w.offset1..w.offset1 + w.length], s2[w.offset2..w.offset2 + w.length];
    assert MISMATCH !in region1 by {
      forall i | 0 <= i < |region1| ensures region1[i] != MISMATCH {
        assert region1[i] == s1[w.offset1 + i];
      }
    }
    MaskCountsMismatches(region1, region2);
  }

  /**
   * The blocks of the result are well-formed pieces of its mask, aligned on the window grid and
   * in increasing order, and there are none exactly when no window of the mask is accepted.
   */
  lemma AlignmentBlocks(s1: seq<byte>, s2: seq<byte>, windowSize: nat, minIdentity: real, ratio: real, pct: real)
    requires 0 < windowSize && 0.0 < pct
    ensures var r := AlignSpec(s1, s2, windowSize, minIdentity, ratio, pct);
      && (forall b | b in r.conservedBlocks :: WellFormed(r.mask, b) && b.start % windowSize == 0)
      && Ordered(r.conservedBlocks)
      && (r.conservedBlocks == [] <==>
            forall j | 0 <= j < |r.mask| && j % windowSize == 0 :: !Accepted(r.mask, windowSize, minIdentity, j))
  {
    var r := AlignSpec(s1, s2, windowSize, minIdentity, ratio, pct);
    ConservedBlocksProperties(r.mask, windowSize, minIdentity, ratio);
  }

  /** A minimum-overlap fraction above 1 leaves no shift to score: nothing is kept. */
  lemma OverlapFractionAboveOne(s1: seq<byte>, s2: seq<byte>, windowSize: nat, minIdentity: real, ratio: real, pct: real)
    requires 0 < windowSize && 1.0 < pct && 0 < |s1| && 0 < |s2|
    ensures var r := AlignSpec(s1, s2, windowSize, minIdentity, ratio, pct);
      && r.length == 0 && r.mismatches == I32_MAX && r.identity == 0.0
      && r.mask == [] && r.conservedBlocks == []
      && r.offset1 == 0 && r.offset2 == 0 && r.truncated == (|s1| != |s2|)
  {
    var minOverlap := MinOverlap(|s1|, |s2|, pct);
    MinOverlapTooLong(|s1|, |s2|, pct);
    ScanAllTooShort(s1, s2, minOverlap, -|s2| + minOverlap, Initial);
  }
}
