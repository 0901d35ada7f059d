/**
 * The conserved-block extractor (lib.rs lines 71-134): cuts a match mask into fixed windows,
 * merges runs of windows whose identity reaches a threshold into blocks, then drops blocks
 * that are small next to the largest one.
 */
module Blocks {
  import opened Symbols
  import opened Regions

  datatype ConservedBlock = ConservedBlock(start: nat, end: nat, length: nat, sequence: seq<byte>)

  /** The block covering mask[start..end]. */
  function MaskBlock(mask: seq<byte>, start: nat, end: nat): ConservedBlock
    requires start <= end <= |mask|
  {
    ConservedBlock(start, end, end - start, mask[start..end])
  }

  /** The window starting at `i`: `windowSize` symbols, or what is left at the end of the mask. */
  function Window(mask: seq<byte>, windowSize: nat, i: nat): (w: seq<byte>)
    requires i <= |mask|
    ensures |w| == Min(windowSize, |mask| - i)
    ensures 0 < windowSize && i < |mask| ==> 0 < |w|
  {
    mask[i..Min(i + windowSize, |mask|)]
  }

  /** A window is accepted when its identity reaches `minIdentity`. */
  predicate Accepted(mask: seq<byte>, windowSize: nat, minIdentity: real, i: nat)
    requires 0 < windowSize && i < |mask|
    ensures minIdentity <= 1.0 && MISMATCH !in Window(mask, windowSize, i) ==> Accepted(mask, windowSize, minIdentity, i)
  {
    var window := Window(mask, windowSize, i);
    Identity(CountMismatchesInMask(window), |window|) >= minIdentity
  }

  /** The verdict on the window starting at each position of the mask. */
  function Verdicts(mask: seq<byte>, windowSize: nat, minIdentity: real): (ok: seq<bool>)
    requires 0 < windowSize || |mask| == 0
    ensures |ok| == |mask|
    ensures forall i | 0 <= i < |mask| :: ok[i] == Accepted(mask, windowSize, minIdentity, i)
  {
    seq(|mask|, i requires 0 <= i < |mask| => Accepted(mask, windowSize, minIdentity, i))
  }

  /**
   * `x` is one of origin, origin + step, origin + 2 * step, ...: the positions the window loop
   * visits when it starts at `origin`.
   */
  predicate OnGrid(x: nat, origin: nat, step: nat)
    requires 0 < step
    decreases x - origin
  {
    if x < origin then false
    else x == origin || OnGrid(x, origin + step, step)
  }

  /**
   * Where the run of accepted windows starting at `i` stops: the first grid position at or
   * after `i` whose window is rejected, or the end of the mask.
   */
  function RunEnd(ok: seq<bool>, windowSize: nat, i: nat): (e: nat)
    requires 0 < windowSize || |ok| == 0
    ensures e <= |ok|
    ensures i <= |ok| ==> i <= e
    ensures e < |ok| ==> !ok[e]
    ensures i < |ok| && ok[i] ==> i < e
    decreases |ok| - i
  {
    if i >= |ok| then |ok|
    else if !ok[i] then i
    else RunEnd(ok, windowSize, i + windowSize)
  }

  /**
   * Reference definition of the blocks before filtering: one block per maximal run of accepted
   * windows among the windows starting at `i`, `i + windowSize`, ...
   */
  function RunsFrom(mask: seq<byte>, ok: seq<bool>, windowSize: nat, i: nat): seq<ConservedBlock>
    requires |ok| == |mask| && (0 < windowSize || |mask| == 0)
    decreases |mask| - i
  {
    if i >= |mask| then []
    else if !ok[i] then RunsFrom(mask, ok, windowSize, i + windowSize)
    else
      var e := RunEnd(ok, windowSize, i);
      [MaskBlock(mask, i, e)] + RunsFrom(mask, ok, windowSize, e)
  }

  /** The blocks before filtering: the maximal runs of accepted windows from the start of the mask. */
  function RawBlocks(mask: seq<byte>, windowSize: nat, minIdentity: real): (raw: seq<ConservedBlock>)
    requires 0 < windowSize || |mask| == 0
    ensures forall b | b in raw :: WellFormed(mask, b)
  {
    var ok := Verdicts(mask, windowSize, minIdentity);
    if 0 < windowSize then RunsFromShape(mask, ok, windowSize, 0); RunsFrom(mask, ok, windowSize, 0)
    else RunsFrom(mask, ok, windowSize, 0)
  }

  /** Largest block length (0 when there are no blocks). */
  function MaxLength(blocks: seq<ConservedBlock>): (m: nat)
    ensures forall b | b in blocks :: b.length <= m
    ensures blocks != [] ==> exists b | b in blocks :: b.length == m
  {
    if blocks == [] then 0
    else
      var rest := MaxLength(blocks[1..]);
      if blocks[0].length >= rest then blocks[0].length else rest
  }

  /** `(x as f64) as usize` on an exact real: truncation, saturating at 0 below. */
  function TruncateToNat(x: real): (n: nat)
    ensures x < 1.0 ==> n == 0
    ensures 0.0 <= x ==> n as real <= x < n as real + 1.0
  {
    if x < 0.0 then 0 else x.Floor
  }

  /** The length a block needs to survive the filter. */
  function MinSignificant(maxLength: nat, ratio: real): (n: nat)
    ensures ratio <= 0.0 ==> n == 0
    ensures 0.0 <= ratio ==> n as real <= maxLength as real * ratio < n as real + 1.0
  {
    TruncateToNat(maxLength as real * ratio)
  }

  /** The blocks of length at least `minLength`, in their original order. */
  function Significant(blocks: seq<ConservedBlock>, minLength: nat): (r: seq<ConservedBlock>)
    ensures |r| <= |blocks|
    ensures forall b :: b in r <==> b in blocks && b.length >= minLength
  {
    if blocks == [] then []
    else if blocks[0].length >= minLength then [blocks[0]] + Significant(blocks[1..], minLength)
    else Significant(blocks[1..], minLength)
  }

  /** The relative-size filter; skipped when it would drop every block. */
  function FilterSmallBlocks(blocks: seq<ConservedBlock>, ratio: real): (kept: seq<ConservedBlock>)
    ensures forall b | b in kept :: b in blocks
    ensures kept == [] <==> blocks == []
  {
    if |blocks| > 1 then
      var filtered := Significant(blocks, MinSignificant(MaxLength(blocks), ratio));
      if filtered != [] then filtered else blocks
    else blocks
  }

  /** Reference result of find_conserved_blocks. */
  function ConservedBlocks(mask: seq<byte>, windowSize: nat, minIdentity: real, ratio: real): (blocks: seq<ConservedBlock>)
    requires 0 < windowSize || |mask| == 0
    ensures forall b | b in blocks :: WellFormed(mask, b)
    ensures blocks == [] <==> RawBlocks(mask, windowSize, minIdentity) == []
  {
    FilterSmallBlocks(RawBlocks(mask, windowSize, minIdentity), ratio)
  }

  // ---------------------------------------------------------------------------------------------
  // The window loop, proved against RunsFrom
  // ---------------------------------------------------------------------------------------------

  /** One step of the reference definition past a rejected window. */
  lemma RunsFromRejected(mask: seq<byte>, ok: seq<bool>, windowSize: nat, i: nat)
    requires |ok| == |mask| && 0 < windowSize && i < |mask| && !ok[i]
    ensures RunsFrom(mask, ok, windowSize, i) == RunsFrom(mask, ok, windowSize, i + windowSize)
    ensures RunEnd(ok, windowSize, i) == i
  {
  }

  /** One step of the reference definition at an accepted window. */
  lemma RunsFromAccepted(mask: seq<byte>, ok: seq<bool>, windowSize: nat, i: nat)
    requires |ok| == |mask| && 0 < windowSize && i < |mask| && ok[i]
    ensures RunsFrom(mask, ok, windowSize, i)
      == [MaskBlock(mask, i, RunEnd(ok, windowSize, i))] + RunsFrom(mask, ok, windowSize, RunEnd(ok, windowSize, i))
    ensures RunEnd(ok, windowSize, i) == RunEnd(ok, windowSize, i + windowSize)
  {
  }

  lemma AppendAssociative<T>(a: seq<T>, b: seq<T>, c: seq<T>)
    ensures (a + b) + c == a + (b + c)
  {
  }

  /** The block the loop emits from its current run. */
  function RunBlock(blockStart: nat, currentBlock: seq<byte>): ConservedBlock
  {
    ConservedBlock(blockStart, blockStart + |currentBlock|, |currentBlock|, currentBlock)
  }

  /**
   * What the window loop of find_conserved_blocks knows before the window at `i`: the blocks
   * emitted so far, the open run (if any) and the reference runs after it make up `raw`.
   */
  ghost predicate ScanState(mask: seq<byte>, ok: seq<bool>, windowSize: nat, raw: seq<ConservedBlock>,
                            blocks: seq<ConservedBlock>, currentBlock: seq<byte>, blockStart: nat, inBlock: bool, i: nat)
    requires |ok| == |mask| && (0 < windowSize || |mask| == 0)
  {
    && (inBlock <==> currentBlock != [])
    && (!inBlock ==> blocks + RunsFrom(mask, ok, windowSize, i) == raw)
    && (inBlock ==>
          && blockStart < i && blockStart < |mask| && ok[blockStart]
          && currentBlock == mask[blockStart..Min(i, |mask|)]
          && RunEnd(ok, windowSize, blockStart) == RunEnd(ok, windowSize, i)
          && blocks + RunsFrom(mask, ok, windowSize, blockStart) == raw)
  }

  /** An accepted window opens a run. */
  lemma ScanOpen(mask: seq<byte>, ok: seq<bool>, windowSize: nat, raw: seq<ConservedBlock>,
                 blocks: seq<ConservedBlock>, i: nat, currentBlock': seq<byte>, i': nat)
    requires |ok| == |mask| && 0 < windowSize && i < |mask| && ok[i]
    requires blocks + RunsFrom(mask, ok, windowSize, i) == raw
    requires i' == i + windowSize && currentBlock' == Window(mask, windowSize, i)
    ensures ScanState(mask, ok, windowSize, raw, blocks, currentBlock', i, true, i')
  {
    RunsFromAccepted(mask, ok, windowSize, i);
  }

  /** An accepted window extends the open run. */
  lemma ScanExtend(mask: seq<byte>, ok: seq<bool>, windowSize: nat, raw: seq<ConservedBlock>,
                   blocks: seq<ConservedBlock>, currentBlock: seq<byte>, blockStart: nat, i: nat,
                   currentBlock': seq<byte>, i': nat)
    requires |ok| == |mask| && 0 < windowSize && i < |mask| && ok[i]
    requires ScanState(mask, ok, windowSize, raw, blocks, currentBlock, blockStart, true, i)
    requires i' == i + windowSize && currentBlock' == currentBlock + Window(mask, windowSize, i)
    ensures ScanState(mask, ok, windowSize, raw, blocks, currentBlock', blockStart, true, i')
  {
    RunsFromAccepted(mask, ok, windowSize, i);
    var end := Min(i', |mask|);
    assert currentBlock == mask[blockStart..i];
    assert mask[blockStart..i] + mask[i..end] == mask[blockStart..end];
  }

  /** A rejected window closes the open run, if there is one. */
  lemma ScanRejected(mask: seq<byte>, ok: seq<bool>, windowSize: nat, raw: seq<ConservedBlock>,
                     blocks: seq<ConservedBlock>, currentBlock: seq<byte>, blockStart: nat, inBlock: bool, i: nat,
                     blocks': seq<ConservedBlock>, inBlock': bool, i': nat)
    requires |ok| == |mask| && 0 < windowSize && i < |mask| && !ok[i]
    requires ScanState(mask, ok, windowSize, raw, blocks, currentBlock, blockStart, inBlock, i)
    requires blocks' == if currentBlock != [] then blocks + [RunBlock(blockStart, currentBlock)] else blocks
    requires inBlock' == (if currentBlock != [] then false else inBlock) && i' == i + windowSize
    ensures ScanState(mask, ok, windowSize, raw, blocks', [], blockStart, inBlock', i')
  {
    RunsFromRejected(mask, ok, windowSize, i);
    var rest := RunsFrom(mask, ok, windowSize, i + windowSize);
    if currentBlock != [] {
      RunsFromAccepted(mask, ok, windowSize, blockStart);
      var b := MaskBlock(mask, blockStart, i);
      assert RunBlock(blockStart, currentBlock) == b;
      assert RunsFrom(mask, ok, windowSize, blockStart) == [b] + rest;
      assert blocks' == blocks + [b];
      AppendAssociative(blocks, [b], rest);
    }
  }

  /** One iteration of the window loop keeps the scan state. */
  lemma ScanStep(mask: seq<byte>, ok: seq<bool>, windowSize: nat, raw: seq<ConservedBlock>,
                 blocks0: seq<ConservedBlock>, currentBlock0: seq<byte>, blockStart0: nat, inBlock0: bool, i0: nat,
                 blocks: seq<ConservedBlock>, currentBlock: seq<byte>, blockStart: nat, inBlock: bool, i: nat)
    requires |ok| == |mask| && 0 < windowSize && i0 < |mask| && i == i0 + windowSize
    requires ScanState(mask, ok, windowSize, raw, blocks0, currentBlock0, blockStart0, inBlock0, i0)
    requires ok[i0] ==>
      && blocks == blocks0 && inBlock
      && currentBlock == currentBlock0 + Window(mask, windowSize, i0)
      && blockStart == if inBlock0 then blockStart0 else i0
    requires !ok[i0] ==>
      && blocks == (if currentBlock0 != [] then blocks0 + [RunBlock(blockStart0, currentBlock0)] else blocks0)
      && currentBlock == [] && blockStart == blockStart0
      && inBlock == if currentBlock0 != [] then false else inBlock0
    ensures ScanState(mask, ok, windowSize, raw, blocks, currentBlock, blockStart, inBlock, i)
  {
    if !ok[i0] {
      ScanRejected(mask, ok, windowSize, raw, blocks0, currentBlock0, blockStart0, inBlock0, i0, blocks, inBlock, i);
    } else if inBlock0 {
      ScanExtend(mask, ok, windowSize, raw, blocks0, currentBlock0, blockStart0, i0, currentBlock, i);
    } else {
      ScanOpen(mask, ok, windowSize, raw, blocks0, i0, currentBlock, i);
    }
  }

  /** Past the end of the mask, emitting the open run (if any) yields exactly the reference blocks. */
  lemma ScanFinished(mask: seq<byte>, ok: seq<bool>, windowSize: nat, raw: seq<ConservedBlock>,
                     blocks: seq<ConservedBlock>, currentBlock: seq<byte>, blockStart: nat, inBlock: bool, i: nat,
                     blocks': seq<ConservedBlock>)
    requires |ok| == |mask| && (0 < windowSize || |mask| == 0) && |mask| <= i
    requires ScanState(mask, ok, windowSize, raw, blocks, currentBlock, blockStart, inBlock, i)
    requires blocks' == if currentBlock != [] then blocks + [RunBlock(blockStart, currentBlock)] else blocks
    ensures blocks' == raw
  {
    if currentBlock != [] {
      RunsFromAccepted(mask, ok, windowSize, blockStart);
      assert RunBlock(blockStart, currentBlock) == MaskBlock(mask, blockStart, |mask|);
    }
  }

  /** The verdict on window `i`, spelled out as the loop computes it. */
  lemma WindowVerdict(mask: seq<byte>, windowSize: nat, minIdentity: real, i: nat)
    requires 0 < windowSize && i < |mask|
    ensures var window := mask[i..Min(i + windowSize, |mask|)];
      Verdicts(mask, windowSize, minIdentity)[i]
        == (1.0 - (CountMismatchesInMask(window) as real) / (|window| as real) >= minIdentity)
  {
  }

  /** find_conserved_blocks: the window loop, then the size filter. */
  method FindConservedBlocks(mask: seq<byte>, windowSize: nat, minIdentity: real, minSignificantLengthGroup: real)
    returns (result: seq<ConservedBlock>)
    requires 0 < windowSize || |mask| == 0
    ensures result == ConservedBlocks(mask, windowSize, minIdentity, minSignificantLengthGroup)
  {
    var blocks: seq<ConservedBlock> := [];
    var currentBlock: seq<byte> := [];
    var blockStart: nat := 0;
    var inBlock := false;
    ghost var ok := Verdicts(mask, windowSize, minIdentity);
    ghost var raw := RunsFrom(mask, ok, windowSize, 0);

    var i: nat := 0;
    while i < |mask|
      invariant ScanState(mask, ok, windowSize, raw, blocks, currentBlock, blockStart, inBlock, i)
      decreases |mask| - i
    {
      var end := Min(i + windowSize, |mask|);
      var window := mask[i..end];
      var mismatches := CountMismatchesInMask(window);
      var identity := 1.0 - (mismatches as real) / (|window| as real);
      WindowVerdict(mask, windowSize, minIdentity, i);
      assert ok[i] == (identity >= minIdentity);
      ghost var (blocks0, currentBlock0, blockStart0, inBlock0, i0) := (blocks, currentBlock, blockStart, inBlock, i);

      if identity >= minIdentity {
        if !inBlock {
          blockStart := i;
          inBlock := true;
        }
        currentBlock := currentBlock + window;
      } else {
        if currentBlock != [] {
          blocks := blocks + [RunBlock(blockStart, currentBlock)];
          currentBlock := [];
          inBlock := false;
        }
      }
      i := i + windowSize;
      ScanStep(mask, ok, windowSize, raw, blocks0, currentBlock0, blockStart0, inBlock0, i0, blocks, currentBlock, blockStart, inBlock, i);
    }

    ghost var blocks0 := blocks;
    if currentBlock != [] {
      blocks := blocks + [RunBlock(blockStart, currentBlock)];
    }
    ScanFinished(mask, ok, windowSize, raw, blocks0, currentBlock, blockStart, inBlock, i, blocks);

    if |blocks| > 1 {
      var maxLength := MaxLength(blocks);
      var minSignificant := MinSignificant(maxLength, minSignificantLengthGroup);
      var filtered := Significant(blocks, minSignificant);
      if filtered != [] {
        return filtered;
      }
    }
    return blocks;
  }

  // ---------------------------------------------------------------------------------------------
  // The window grid
  // ---------------------------------------------------------------------------------------------

  lemma {:induction false} OnGridIsMultiple(x: nat, origin: nat, step: nat)
    requires 0 < step && OnGrid(x, origin, step)
    ensures origin <= x && (x - origin) % step == 0
    decreases x - origin
  {
    if x != origin {
      OnGridIsMultiple(x, origin + step, step);
      ModPlus(x - origin - step, step);
    }
  }

  lemma {:induction false} MultipleIsOnGrid(x: nat, origin: nat, step: nat)
    requires 0 < step && origin <= x && (x - origin) % step == 0
    ensures OnGrid(x, origin, step)
    decreases x - origin
  {
    if x != origin {
      if x - origin < step {
        ModUnique(x - origin, 0, x - origin, step);
      }
      ModPlus(x - origin - step, step);
      MultipleIsOnGrid(x, origin + step, step);
    }
  }

  /** A grid position past another one lies on the grid that starts there. */
  lemma {:induction false} GridBetween(x: nat, y: nat, origin: nat, step: nat)
    requires 0 < step && OnGrid(x, origin, step) && OnGrid(y, origin, step) && y <= x
    ensures OnGrid(x, y, step)
    decreases y - origin
  {
    if y != origin {
      GridBetween(x, y, origin + step, step);
    }
  }

  lemma {:induction false} GridTransitive(x: nat, y: nat, origin: nat, step: nat)
    requires 0 < step && OnGrid(x, y, step) && OnGrid(y, origin, step)
    ensures OnGrid(x, origin, step)
    decreases y - origin
  {
    if y != origin {
      GridTransitive(x, y, origin + step, step);
    }
  }

  /**
   * The run starting at `i` ends on the grid (or at the end of the mask), and every grid window
   * inside it is accepted.
   */
  lemma {:induction false} RunEndFacts(ok: seq<bool>, windowSize: nat, i: nat)
    requires 0 < windowSize
    ensures RunEnd(ok, windowSize, i) == |ok| || OnGrid(RunEnd(ok, windowSize, i), i, windowSize)
    ensures forall j | i <= j < RunEnd(ok, windowSize, i) && OnGrid(j, i, windowSize) :: ok[j]
    decreases |ok| - i
  {
    if i < |ok| && ok[i] {
      RunEndFacts(ok, windowSize, i + windowSize);
      forall j | i <= j < RunEnd(ok, windowSize, i) && OnGrid(j, i, windowSize)
        ensures ok[j]
      {
        if j != i {
          assert OnGrid(j, i + windowSize, windowSize);
        }
      }
    }
  }

  // ---------------------------------------------------------------------------------------------
  // Shape, order and coverage of the blocks
  // ---------------------------------------------------------------------------------------------

  /** A block of the mask: nonempty, with consistent fields, holding the masked slice it covers. */
  predicate WellFormed(mask: seq<byte>, b: ConservedBlock)
  {
    && 0 < b.length && b.end == b.start + b.length && b.end <= |mask|
    && b.sequence == mask[b.start..b.end]
  }

  /**
   * `b` is a maximal run of accepted windows on the grid that starts at `origin`: it starts on
   * the grid, every grid window inside it is accepted, and the grid windows just before and
   * just after it are rejected (or lie outside the mask or before `origin`).
   */
  predicate MaximalRun(ok: seq<bool>, windowSize: nat, origin: nat, b: ConservedBlock)
    requires 0 < windowSize
  {
    && b.start < b.end <= |ok| && OnGrid(b.start, origin, windowSize)
    && (forall j | b.start <= j < b.end && OnGrid(j, b.start, windowSize) :: ok[j])
    && (b.end == |ok| || (OnGrid(b.end, b.start, windowSize) && !ok[b.end]))
    && (b.start == origin || (origin + windowSize <= b.start && !ok[b.start - windowSize]))
  }

  /** Blocks in strictly increasing position, none touching the next. */
  predicate Ordered(blocks: seq<ConservedBlock>)
  {
    forall p, q | 0 <= p < q < |blocks| :: blocks[p].end < blocks[q].start
  }

  /** Moving the grid origin back by one rejected window keeps a run maximal. */
  lemma {:induction false} MaximalRunShift(ok: seq<bool>, windowSize: nat, origin: nat, b: ConservedBlock)
    requires 0 < windowSize && origin < |ok| && !ok[origin]
    requires MaximalRun(ok, windowSize, origin + windowSize, b)
    ensures MaximalRun(ok, windowSize, origin, b)
  {
    assert origin + windowSize <= b.start;
  }

  lemma {:induction false} RunsFromShape(mask: seq<byte>, ok: seq<bool>, windowSize: nat, i: nat)
    requires |ok| == |mask| && 0 < windowSize
    ensures forall b | b in RunsFrom(mask, ok, windowSize, i) :: WellFormed(mask, b) && MaximalRun(ok, windowSize, i, b)
    ensures Ordered(RunsFrom(mask, ok, windowSize, i))
    decreases |mask| - i
  {
    var runs := RunsFrom(mask, ok, windowSize, i);
    if i >= |mask| {
    } else if !ok[i] {
      RunsFromRejected(mask, ok, windowSize, i);
      RunsFromShape(mask, ok, windowSize, i + windowSize);
      forall b | b in runs
        ensures WellFormed(mask, b) && MaximalRun(ok, windowSize, i, b)
      {
        MaximalRunShift(ok, windowSize, i, b);
      }
    } else {
      RunsFromAccepted(mask, ok, windowSize, i);
      RunEndFacts(ok, windowSize, i);
      var e := RunEnd(ok, windowSize, i);
      var first := MaskBlock(mask, i, e);
      assert MaximalRun(ok, windowSize, i, first);
      if e == |mask| {
        assert runs == [first];
      } else {
        RunsFromRejected(mask, ok, windowSize, e);
        var rest := RunsFrom(mask, ok, windowSize, e + windowSize);
        RunsFromShape(mask, ok, windowSize, e + windowSize);
        assert runs == [first] + rest;
        forall b | b in rest
          ensures MaximalRun(ok, windowSize, i, b)
        {
          MaximalRunShift(ok, windowSize, e, b);
          GridTransitive(b.start, e, i, windowSize);
          if b.start == e {
            assert false;
          }
        }
        forall p, q | 0 <= p < q < |runs|
          ensures runs[p].end < runs[q].start
        {
          if p == 0 {
            assert runs[q] == rest[q - 1];
            assert rest[q - 1] in rest;
            assert OnGrid(rest[q - 1].start, e + windowSize, windowSize);
          } else {
            assert runs[p] == rest[p - 1] && runs[q] == rest[q - 1];
          }
        }
      }
    }
  }

  /** Some block of `blocks` covers position `j`. */
  predicate Covered(blocks: seq<ConservedBlock>, j: nat)
  {
    exists b | b in blocks :: b.start <= j < b.end
  }

  /** A grid window is accepted exactly when some run covers it. */
  lemma {:induction false} RunsFromCoverage(mask: seq<byte>, ok: seq<bool>, windowSize: nat, i: nat, j: nat)
    requires |ok| == |mask| && 0 < windowSize && j < |mask| && OnGrid(j, i, windowSize)
    ensures ok[j] <==> Covered(RunsFrom(mask, ok, windowSize, i), j)
    decreases |mask| - i
  {
    var runs := RunsFrom(mask, ok, windowSize, i);
    if !ok[i] {
      RunsFromRejected(mask, ok, windowSize, i);
      if j == i {
        RunsFromShape(mask, ok, windowSize, i + windowSize);
      } else {
        RunsFromCoverage(mask, ok, windowSize, i + windowSize, j);
      }
    } else {
      RunsFromAccepted(mask, ok, windowSize, i);
      RunEndFacts(ok, windowSize, i);
      var e := RunEnd(ok, windowSize, i);
      var first := MaskBlock(mask, i, e);
      if j < e {
        assert first in runs;
      } else {
        GridBetween(j, e, i, windowSize);
        RunsFromRejected(mask, ok, windowSize, e);
        var rest := RunsFrom(mask, ok, windowSize, e + windowSize);
        assert runs == [first] + rest;
        RunsFromShape(mask, ok, windowSize, e + windowSize);
        if j != e {
          RunsFromCoverage(mask, ok, windowSize, e + windowSize, j);
          assert Covered(runs, j) <==> Covered(rest, j);
        }
      }
    }
  }

  // ---------------------------------------------------------------------------------------------
  // The size filter
  // ---------------------------------------------------------------------------------------------

  lemma OrderedTail(blocks: seq<ConservedBlock>)
    requires Ordered(blocks) && blocks != []
    ensures Ordered(blocks[1..])
    ensures forall b | b in blocks[1..] :: blocks[0].end < b.start
  {
    var tail := blocks[1..];
    forall p, q | 0 <= p < q < |tail|
      ensures tail[p].end < tail[q].start
    {
      assert tail[p] == blocks[p + 1] && tail[q] == blocks[q + 1];
    }
    forall b | b in tail
      ensures blocks[0].end < b.start
    {
      var k :| 0 <= k < |tail| && tail[k] == b;
      assert blocks[k + 1] == b;
    }
  }

  lemma OrderedCons(first: ConservedBlock, rest: seq<ConservedBlock>)
    requires Ordered(rest) && forall b | b in rest :: first.end < b.start
    ensures Ordered([first] + rest)
  {
    var blocks := [first] + rest;
    forall p, q | 0 <= p < q < |blocks|
      ensures blocks[p].end < blocks[q].start
    {
      assert blocks[q] == rest[q - 1];
      if p > 0 {
        assert blocks[p] == rest[p - 1];
      } else {
        assert rest[q - 1] in rest;
      }
    }
  }

  lemma {:induction false} SignificantOrdered(blocks: seq<ConservedBlock>, minLength: nat)
    requires Ordered(blocks)
    ensures Ordered(Significant(blocks, minLength))
    decreases |blocks|
  {
    if blocks != [] {
      OrderedTail(blocks);
      SignificantOrdered(blocks[1..], minLength);
      if blocks[0].length >= minLength {
        OrderedCons(blocks[0], Significant(blocks[1..], minLength));
      }
    }
  }

  /**
   * The filter keeps every block at least MinSignificant long, in the original order. With more
   * than one block, it keeps only those blocks whenever some block passes, and returns the input
   * unchanged when none does; a ratio of at most 1 always lets the longest block through.
   */
  lemma FilterSmallBlocksProperties(blocks: seq<ConservedBlock>, ratio: real)
    ensures var kept := FilterSmallBlocks(blocks, ratio);
      var minLength := MinSignificant(MaxLength(blocks), ratio);
      && (forall b | b in kept :: b in blocks)
      && (forall b | b in blocks && b.length >= minLength :: b in kept)
      && (kept == [] <==> blocks == [])
      && (|blocks| <= 1 ==> kept == blocks)
      && (kept != blocks ==> |blocks| > 1 && forall b | b in kept :: b.length >= minLength)
      && (Ordered(blocks) ==> Ordered(kept))
    ensures var minLength := MinSignificant(MaxLength(blocks), ratio);
      1 < |blocks| && (exists w | w in blocks :: w.length >= minLength) ==>
        forall b | b in FilterSmallBlocks(blocks, ratio) :: b.length >= minLength
    ensures var minLength := MinSignificant(MaxLength(blocks), ratio);
      (forall w | w in blocks :: w.length < minLength) ==> FilterSmallBlocks(blocks, ratio) == blocks
    ensures 1 < |blocks| && ratio <= 1.0 ==>
      forall b | b in FilterSmallBlocks(blocks, ratio) :: b.length >= MinSignificant(MaxLength(blocks), ratio)
  {
    var minLength := MinSignificant(MaxLength(blocks), ratio);
    var filtered := Significant(blocks, minLength);
    if Ordered(blocks) {
      SignificantOrdered(blocks, minLength);
    }
    if 1 < |blocks| {
      if exists w | w in blocks :: w.length >= minLength {
        var w :| w in blocks && w.length >= minLength;
        assert w in filtered;
        assert FilterSmallBlocks(blocks, ratio) == filtered;
      } else {
        NoneSignificant(blocks, minLength);
      }
      if ratio <= 1.0 {
        MinSignificantAtMost(MaxLength(blocks), ratio);
        var longest :| longest in blocks && longest.length == MaxLength(blocks);
        assert longest in filtered;
      }
    }
  }

  /** When no block reaches the threshold, the filter keeps nothing. */
  lemma NoneSignificant(blocks: seq<ConservedBlock>, minLength: nat)
    requires forall w | w in blocks :: w.length < minLength
    ensures Significant(blocks, minLength) == []
  {
  }

  /** With a ratio of at most 1, the longest block is long enough to pass. */
  lemma MinSignificantAtMost(maxLength: nat, ratio: real)
    requires ratio <= 1.0
    ensures MinSignificant(maxLength, ratio) <= maxLength
  {
    if 0.0 < ratio {
      var m := maxLength as real;
      assert m * ratio <= m * 1.0;
    }
  }

  // ---------------------------------------------------------------------------------------------
  // find_conserved_blocks as a whole
  // ---------------------------------------------------------------------------------------------

  /**
   * Every raw block is a well-formed slice of the mask that starts at a multiple of the window
   * size and is a maximal run of accepted windows; the raw blocks come in increasing order and
   * never touch.
   */
  lemma RawBlocksShape(mask: seq<byte>, windowSize: nat, minIdentity: real)
    requires 0 < windowSize
    ensures var raw := RawBlocks(mask, windowSize, minIdentity);
      && (forall b | b in raw ::
            && WellFormed(mask, b) && b.start % windowSize == 0
            && MaximalRun(Verdicts(mask, windowSize, minIdentity), windowSize, 0, b))
      && Ordered(raw)
  {
    var ok := Verdicts(mask, windowSize, minIdentity);
    RunsFromShape(mask, ok, windowSize, 0);
    forall b | b in RunsFrom(mask, ok, windowSize, 0)
      ensures b.start % windowSize == 0
    {
      OnGridIsMultiple(b.start, 0, windowSize);
    }
  }

  /** A window at a multiple of the window size is accepted exactly when a raw block covers it. */
  lemma RawBlocksCoverage(mask: seq<byte>, windowSize: nat, minIdentity: real, j: nat)
    requires 0 < windowSize && j < |mask| && j % windowSize == 0
    ensures Accepted(mask, windowSize, minIdentity, j) <==> Covered(RawBlocks(mask, windowSize, minIdentity), j)
  {
    var ok := Verdicts(mask, windowSize, minIdentity);
    MultipleIsOnGrid(j, 0, windowSize);
    RunsFromCoverage(mask, ok, windowSize, 0, j);
  }

  /**
   * find_conserved_blocks keeps the shape and order of the raw blocks; every window it reports
   * inside a block is accepted; it reports nothing exactly when no window is accepted.
   */
  lemma ConservedBlocksProperties(mask: seq<byte>, windowSize: nat, minIdentity: real, ratio: real)
    requires 0 < windowSize
    ensures var blocks := ConservedBlocks(mask, windowSize, minIdentity, ratio);
      && (forall b | b in blocks ::
            && WellFormed(mask, b) && b.start % windowSize == 0
            && MaximalRun(Verdicts(mask, windowSize, minIdentity), windowSize, 0, b))
      && Ordered(blocks)
      && (forall j | 0 <= j < |mask| && j % windowSize == 0 && Covered(blocks, j) ::
            Accepted(mask, windowSize, minIdentity, j))
      && (blocks == [] <==> forall j | 0 <= j < |mask| && j % windowSize == 0 ::
            !Accepted(mask, windowSize, minIdentity, j))
  {
    var raw := RawBlocks(mask, windowSize, minIdentity);
    var blocks := ConservedBlocks(mask, windowSize, minIdentity, ratio);
    RawBlocksShape(mask, windowSize, minIdentity);
    FilterSmallBlocksProperties(raw, ratio);
    forall j | 0 <= j < |mask| && j % windowSize == 0 && Covered(blocks, j)
      ensures Accepted(mask, windowSize, minIdentity, j)
    {
      var b :| b in blocks && b.start <= j < b.end;
      assert Covered(raw, j);
      RawBlocksCoverage(mask, windowSize, minIdentity, j);
    }
    if raw != [] {
      var b := raw[0];
      assert b in raw && Covered(raw, b.start);
      RawBlocksCoverage(mask, windowSize, minIdentity, b.start);
    } else {
      forall j | 0 <= j < |mask| && j % windowSize == 0
        ensures !Accepted(mask, windowSize, minIdentity, j)
      {
        RawBlocksCoverage(mask, windowSize, minIdentity, j);
      }
    }
  }

  /** A mask without mismatches forms a single block covering all of it (thresholds up to 1). */
  lemma FullyMatchingMask(mask: seq<byte>, windowSize: nat, minIdentity: real, ratio: real)
    requires 0 < windowSize && 0 < |mask| && MISMATCH !in mask && minIdentity <= 1.0
    ensures ConservedBlocks(mask, windowSize, minIdentity, ratio) == [ConservedBlock(0, |mask|, |mask|, mask)]
  {
    var ok := Verdicts(mask, windowSize, minIdentity);
    forall j | 0 <= j < |mask|
      ensures ok[j]
    {
      var window := Window(mask, windowSize, j);
      assert MISMATCH !in window;
      IdentityBounds(CountMismatchesInMask(window), |window|);
    }
    AllAcceptedRunEnd(ok, windowSize, 0);
    RunsFromAccepted(mask, ok, windowSize, 0);
    assert mask[0..|mask|] == mask;
  }

  lemma {:induction false} AllAcceptedRunEnd(ok: seq<bool>, windowSize: nat, i: nat)
    requires 0 < windowSize && forall j | i <= j < |ok| :: ok[j]
    ensures RunEnd(ok, windowSize, i) == |ok|
    decreases |ok| - i
  {
    if i < |ok| {
      AllAcceptedRunEnd(ok, windowSize, i + windowSize);
    }
  }

  /** A mask of mismatches only yields no block for any positive threshold. */
  lemma AllMismatchMask(mask: seq<byte>, windowSize: nat, minIdentity: real, ratio: real)
    requires 0 < windowSize && 0.0 < minIdentity && forall i | 0 <= i < |mask| :: mask[i] == MISMATCH
    ensures ConservedBlocks(mask, windowSize, minIdentity, ratio) == []
  {
    var ok := Verdicts(mask, windowSize, minIdentity);
    forall j | 0 <= j < |mask|
      ensures !ok[j]
    {
      var window := Window(mask, windowSize, j);
      assert forall k | 0 <= k < |window| :: window[k] == mask[j + k];
      MismatchOnlyIdentity(window);
    }
    NoneAcceptedRunsFrom(mask, ok, windowSize, 0);
  }

  lemma MismatchOnlyIdentity(window: seq<byte>)
    requires 0 < |window| && forall k | 0 <= k < |window| :: window[k] == MISMATCH
    ensures Identity(CountMismatchesInMask(window), |window|) == 0.0
  {
    assert CountMismatchesInMask(window) == |window|;
    IdentityOfAllMismatches(|window|);
  }

  lemma {:induction false} NoneAcceptedRunsFrom(mask: seq<byte>, ok: seq<bool>, windowSize: nat, i: nat)
    requires |ok| == |mask| && 0 < windowSize && forall j | i <= j < |ok| :: !ok[j]
    ensures RunsFrom(mask, ok, windowSize, i) == []
    decreases |mask| - i
  {
    if i < |mask| {
      NoneAcceptedRunsFrom(mask, ok, windowSize, i + windowSize);
    }
  }
}

