/**
 * The reading-frame search of compare_proteins_full (lib.rs lines 238-367): translates the
 * aligned nucleotide region in each of the 3 x 3 pairs of reading frames, keeps the earliest
 * pair with the highest identity, and reports the mask and conserved blocks of its translations.
 */
module Proteins {
  import opened Symbols
  import opened Regions
  import opened Codons
  import opened Blocks

  /** The inputs that decide the frame search: both sequences and the aligned nucleotide region. */
  datatype Query = Query(
    bytes1: seq<byte>,
    bytes2: seq<byte>,
    nucOffset1: nat,
    nucOffset2: nat,
    nucLength: nat,
    windowSize: nat)

  /**
   * A scored pair of reading frames: the frames, the identity of the two translations over
   * their common length, and the translations themselves.
   */
  datatype FrameChoice = FrameChoice(frame1: nat, frame2: nat, identity: real, aa1: seq<byte>, aa2: seq<byte>)

  /** Before any pair is kept: frames 0 and 0, identity 0 and no translations. */
  const NoFrame: FrameChoice := FrameChoice(0, 0, 0.0, [], [])

  datatype ProteinResult = ProteinResult(
    aa1: seq<byte>,
    aa2: seq<byte>,
    mask: seq<byte>,
    mismatches: nat,
    length: nat,
    identity: real,
    truncated: bool,
    offset1: nat,
    offset2: nat,
    frame1: nat,
    frame2: nat,
    conservedBlocks: seq<ConservedBlock>)

  /** `usize::saturating_sub`. */
  function SaturatingSub(a: nat, b: nat): nat
  {
    if a >= b then a - b else 0
  }

  /** The nucleotide length both frames can still use. */
  function AdjustedLen(nucLength: nat, frame1: nat, frame2: nat): (len: nat)
    ensures len <= nucLength
    ensures len == 0 || (len + frame1 <= nucLength && len + frame2 <= nucLength)
    ensures frame1 <= nucLength && frame2 <= nucLength ==> len + frame1 == nucLength || len + frame2 == nucLength
  {
    var len1, len2 := SaturatingSub(nucLength, frame1), SaturatingSub(nucLength, frame2);
    if len1 <= len2 then len1 else len2
  }

  /**
   * The translations of the pair of frames `frame1`, `frame2`, or None when the loop skips the
   * pair: too short for one window, a start past the end of its sequence, or no whole codon on
   * one side.
   */
  function Translated(q: Query, frame1: nat, frame2: nat): (t: Option<(seq<byte>, seq<byte>)>)
    ensures t.Some? ==> 0 < Min(|t.value.0|, |t.value.1|)
  {
    TranslatedFrom(q.bytes1, q.bytes2, q.nucOffset1 + frame1, q.nucOffset2 + frame2,
      AdjustedLen(q.nucLength, frame1, frame2), q.windowSize)
  }

  /** The same, from the starts and the usable length of the pair. */
  function TranslatedFrom(bytes1: seq<byte>, bytes2: seq<byte>, start1: nat, start2: nat, adjustedLen: nat, windowSize: nat)
    : (t: Option<(seq<byte>, seq<byte>)>)
    ensures t.Some? ==> 0 < Min(|t.value.0|, |t.value.1|)
  {
    if adjustedLen < 3 * windowSize then None
    else if start1 >= |bytes1| || start2 >= |bytes2| then None
    else
      var end1, end2 := Min(start1 + adjustedLen, |bytes1|), Min(start2 + adjustedLen, |bytes2|);
      var aa1, aa2 := Translation(bytes1[start1..end1]), Translation(bytes2[start2..end2]);
      if Min(|aa1|, |aa2|) == 0 then None else Some((aa1, aa2))
  }

  /** Two translations scored by the identity of their common prefix. */
  function Rate(frame1: nat, frame2: nat, aa1: seq<byte>, aa2: seq<byte>): (c: FrameChoice)
    requires 0 < Min(|aa1|, |aa2|)
    ensures 0.0 <= c.identity <= 1.0
  {
    var minLen := Min(|aa1|, |aa2|);
    var mismatches := DiffCount(aa1[..minLen], aa2[..minLen]);
    IdentityBounds(mismatches, minLen);
    FrameChoice(frame1, frame2, Identity(mismatches, minLen), aa1, aa2)
  }

  /** The pair of frames `frame1`, `frame2` translated and scored, or None when it is skipped. */
  function Score(q: Query, frame1: nat, frame2: nat): (c: Option<FrameChoice>)
    ensures c.Some? ==> c.value.frame1 == frame1 && c.value.frame2 == frame2
    ensures c.Some? ==> 0 < Min(|c.value.aa1|, |c.value.aa2|) && 0.0 <= c.value.identity <= 1.0
  {
    match Translated(q, frame1, frame2)
    case None => None
    case Some((aa1, aa2)) => Some(Rate(frame1, frame2, aa1, aa2))
  }

  /**
   * The nine pairs in the order the loops visit them: `frame1` outer, `frame2` inner.
   * ScoreFramePair and ScoredRate say what each entry holds.
   */
  function Scores(q: Query): (cs: seq<Option<FrameChoice>>)
    ensures |cs| == 9
  {
    seq(9, k requires 0 <= k < 9 => Score(q, k / 3, k % 3))
  }

  /** The replacement rule: only a strictly higher identity replaces the kept pair. */
  function KeepIfHigher(c: Option<FrameChoice>, best: FrameChoice): (r: FrameChoice)
    ensures r == best || (c.Some? && r == c.value && best.identity < r.identity)
  {
    if c.Some? && c.value.identity > best.identity then c.value else best
  }

  /**
   * The pair kept after offering `cs` in order, starting from `init`.
   * PickSelects and ChosenIndex state which pair that is.
   */
  function Pick(cs: seq<Option<FrameChoice>>, init: FrameChoice): (r: FrameChoice)
    ensures init.identity <= r.identity
  {
    if cs == [] then init else KeepIfHigher(cs[|cs| - 1], Pick(cs[..|cs| - 1], init))
  }

  /** The pair the frame loops settle on. */
  function Chosen(q: Query): FrameChoice
  {
    Pick(Scores(q), NoFrame)
  }

  /** The result reported for the chosen translations `aa1` and `aa2`. */
  function ProteinReport(nucOffset1: nat, nucOffset2: nat, windowSize: nat, frame1: nat, frame2: nat,
                         identity: real, aa1: seq<byte>, aa2: seq<byte>, minIdentity: real, ratio: real): (r: ProteinResult)
    requires 0 < windowSize
    ensures r.length == Min(|aa1|, |aa2|) == |r.mask| && r.mismatches <= r.length
    ensures r.truncated <==> |aa1| != |aa2|
  {
    var length := Min(|aa1|, |aa2|);
    var mask := if length > 0 then MaskOf(aa1[..length], aa2[..length]) else [];
    var mismatches := if length > 0 then DiffCount(aa1[..length], aa2[..length]) else 0;
    ProteinResult(
      aa1, aa2, mask, mismatches, length, identity, |aa1| != |aa2|,
      (nucOffset1 + frame1) / 3, (nucOffset2 + frame2) / 3, frame1, frame2,
      ConservedBlocks(mask, windowSize, minIdentity, ratio))
  }

  /** Reference result of compare_proteins_full. */
  function ProteinSpec(q: Query, minIdentity: real, ratio: real): (r: ProteinResult)
    requires 0 < q.windowSize
    ensures r.length == |r.mask| && r.mismatches <= r.length
    ensures r.length == 0 <==> r.aa1 == [] || r.aa2 == []
  {
    var c := Chosen(q);
    ProteinReport(q.nucOffset1, q.nucOffset2, q.windowSize, c.frame1, c.frame2, c.identity, c.aa1, c.aa2, minIdentity, ratio)
  }

  // ---------------------------------------------------------------------------------------------
  // The search as written, with its loops
  // ---------------------------------------------------------------------------------------------

  /** compare_proteins_full: the two frame loops, then the mask and the blocks of the best pair. */
  method CompareProteinsFull(seq1: seq<byte>, seq2: seq<byte>, nucOffset1: nat, nucOffset2: nat, nucLength: nat,
                             aaSegmentWindowLength: nat, minIdentity: real, minSignificantLengthGroup: real)
    returns (r: ProteinResult)
    requires 0 < aaSegmentWindowLength
    ensures r == ProteinSpec(Query(seq1, seq2, nucOffset1, nucOffset2, nucLength, aaSegmentWindowLength),
                             minIdentity, minSignificantLengthGroup)
  {
    ghost var q := Query(seq1, seq2, nucOffset1, nucOffset2, nucLength, aaSegmentWindowLength);
    var bestFrame1: nat, bestFrame2: nat := 0, 0;
    var bestIdentity := 0.0;
    var bestAa1: seq<byte>, bestAa2: seq<byte> := [], [];

    for frame1 := 0 to 3
      invariant FrameChoice(bestFrame1, bestFrame2, bestIdentity, bestAa1, bestAa2) == Pick(Scores(q)[..3 * frame1], NoFrame)
    {
      for frame2 := 0 to 3
        invariant FrameChoice(bestFrame1, bestFrame2, bestIdentity, bestAa1, bestAa2)
               == Pick(Scores(q)[..3 * frame1 + frame2], NoFrame)
      {
        bestFrame1, bestFrame2, bestIdentity, bestAa1, bestAa2 :=
          OfferFramePair(seq1, seq2, nucOffset1, nucOffset2, nucLength, aaSegmentWindowLength, frame1, frame2,
            bestFrame1, bestFrame2, bestIdentity, bestAa1, bestAa2);
      }
    }

    r := ReportPair(nucOffset1, nucOffset2, aaSegmentWindowLength, bestFrame1, bestFrame2, bestIdentity, bestAa1, bestAa2,
      minIdentity, minSignificantLengthGroup);
    ChosenReport(q, minIdentity, minSignificantLengthGroup,
      FrameChoice(bestFrame1, bestFrame2, bestIdentity, bestAa1, bestAa2));
  }

  /**
   * One pass of the inner frame loop: scores the pair `frame1`, `frame2` and lets it replace the
   * kept pair only when its identity is strictly higher.
   */
  method OfferFramePair(seq1: seq<byte>, seq2: seq<byte>, nucOffset1: nat, nucOffset2: nat, nucLength: nat,
                        aaSegmentWindowLength: nat, frame1: nat, frame2: nat,
                        bestFrame1: nat, bestFrame2: nat, bestIdentity: real, bestAa1: seq<byte>, bestAa2: seq<byte>)
    returns (frame1': nat, frame2': nat, identity': real, aa1': seq<byte>, aa2': seq<byte>)
    requires frame1 < 3 && frame2 < 3
    requires FrameChoice(bestFrame1, bestFrame2, bestIdentity, bestAa1, bestAa2)
          == Pick(Scores(Query(seq1, seq2, nucOffset1, nucOffset2, nucLength, aaSegmentWindowLength))[..3 * frame1 + frame2], NoFrame)
    ensures FrameChoice(frame1', frame2', identity', aa1', aa2')
         == Pick(Scores(Query(seq1, seq2, nucOffset1, nucOffset2, nucLength, aaSegmentWindowLength))[..3 * frame1 + frame2 + 1], NoFrame)
  {
    ghost var q := Query(seq1, seq2, nucOffset1, nucOffset2, nucLength, aaSegmentWindowLength);
    frame1', frame2', identity', aa1', aa2' := bestFrame1, bestFrame2, bestIdentity, bestAa1, bestAa2;
    var scored, aa1, aa2, identity :=
      ScoreFramePair(seq1, seq2, nucOffset1, nucOffset2, nucLength, aaSegmentWindowLength, frame1, frame2);
    if scored && identity > bestIdentity {
      identity' := identity;
      frame1' := frame1;
      frame2' := frame2;
      aa1' := aa1;
      aa2' := aa2;
    }
    FrameStep(q, frame1, frame2, if scored then Some(FrameChoice(frame1, frame2, identity, aa1, aa2)) else None,
      FrameChoice(bestFrame1, bestFrame2, bestIdentity, bestAa1, bestAa2), FrameChoice(frame1', frame2', identity', aa1', aa2'));
  }

  /**
   * The end of compare_proteins_full: compares the kept translations over their common length and
   * finds the conserved blocks of the mask.
   */
  method ReportPair(nucOffset1: nat, nucOffset2: nat, aaSegmentWindowLength: nat, frame1: nat, frame2: nat,
                    identity: real, aa1: seq<byte>, aa2: seq<byte>, minIdentity: real, minSignificantLengthGroup: real)
    returns (r: ProteinResult)
    requires 0 < aaSegmentWindowLength
    ensures r == ProteinReport(nucOffset1, nucOffset2, aaSegmentWindowLength, frame1, frame2, identity, aa1, aa2,
                               minIdentity, minSignificantLengthGroup)
  {
    var length := Min(|aa1|, |aa2|);
    var mask: seq<byte>, mismatches: nat;
    if length > 0 {
      mask, mismatches := CompareRegions(aa1[..length], aa2[..length]);
    } else {
      mask, mismatches := [], 0;
    }
    var blocks := FindConservedBlocks(mask, aaSegmentWindowLength, minIdentity, minSignificantLengthGroup);
    var adjustedOffset1 := nucOffset1 + frame1;
    var adjustedOffset2 := nucOffset2 + frame2;
    r := ProteinResult(
      aa1, aa2, mask, mismatches, length, identity, |aa1| != |aa2|,
      adjustedOffset1 / 3, adjustedOffset2 / 3, frame1, frame2, blocks);
  }

  /**
   * The body of the inner frame loop for the pair `frame1`, `frame2`: its two translations and
   * their identity over the common length, or `scored == false` where the loop skips the pair.
   */
  method ScoreFramePair(seq1: seq<byte>, seq2: seq<byte>, nucOffset1: nat, nucOffset2: nat, nucLength: nat,
                        aaSegmentWindowLength: nat, frame1: nat, frame2: nat)
    returns (scored: bool, aa1: seq<byte>, aa2: seq<byte>, identity: real)
    ensures Score(Query(seq1, seq2, nucOffset1, nucOffset2, nucLength, aaSegmentWindowLength), frame1, frame2)
         == if scored then Some(FrameChoice(frame1, frame2, identity, aa1, aa2)) else None
  {
    ghost var q := Query(seq1, seq2, nucOffset1, nucOffset2, nucLength, aaSegmentWindowLength);
    scored, aa1, aa2, identity := false, [], [], 0.0;
    var start1 := nucOffset1 + frame1;
    var start2 := nucOffset2 + frame2;
    var adjustedLen := AdjustedLen(nucLength, frame1, frame2);
    assert Translated(q, frame1, frame2) == TranslatedFrom(seq1, seq2, start1, start2, adjustedLen, aaSegmentWindowLength);

    if adjustedLen < 3 * aaSegmentWindowLength {
      return;
    }

    var end1 := Min(start1 + adjustedLen, |seq1|);
    var end2 := Min(start2 + adjustedLen, |seq2|);

    if start1 >= |seq1| || start2 >= |seq2| {
      return;
    }

    aa1 := TranslateDna(seq1[start1..end1]);
    aa2 := TranslateDna(seq2[start2..end2]);

    var minLen := Min(|aa1|, |aa2|);
    if minLen == 0 {
      TranslatedAt(seq1, seq2, start1, start2, adjustedLen, aaSegmentWindowLength, end1, end2, aa1, aa2);
      return;
    }

    var _, mismatches := CompareRegions(aa1[..minLen], aa2[..minLen]);
    identity := 1.0 - (mismatches as real) / (minLen as real);
    scored := true;
    TranslatedAt(seq1, seq2, start1, start2, adjustedLen, aaSegmentWindowLength, end1, end2, aa1, aa2);
    RatedAt(frame1, frame2, aa1, aa2, minLen, mismatches, identity);
  }

  /** The translations the loop body computes for a pair it does not skip for length or position. */
  lemma TranslatedAt(bytes1: seq<byte>, bytes2: seq<byte>, start1: nat, start2: nat, adjustedLen: nat, windowSize: nat,
                     end1: nat, end2: nat, aa1: seq<byte>, aa2: seq<byte>)
    requires 3 * windowSize <= adjustedLen && start1 < |bytes1| && start2 < |bytes2|
    requires end1 == Min(start1 + adjustedLen, |bytes1|) && end2 == Min(start2 + adjustedLen, |bytes2|)
    requires aa1 == Translation(bytes1[start1..end1]) && aa2 == Translation(bytes2[start2..end2])
    ensures TranslatedFrom(bytes1, bytes2, start1, start2, adjustedLen, windowSize)
         == if Min(|aa1|, |aa2|) == 0 then None else Some((aa1, aa2))
  {
  }

  /** The identity the loop body computes is Rate's. */
  lemma RatedAt(frame1: nat, frame2: nat, aa1: seq<byte>, aa2: seq<byte>, minLen: nat, mismatches: nat, identity: real)
    requires minLen == Min(|aa1|, |aa2|) && 0 < minLen
    requires mismatches == DiffCount(aa1[..minLen], aa2[..minLen])
    requires identity == 1.0 - (mismatches as real) / (minLen as real)
    ensures Rate(frame1, frame2, aa1, aa2) == FrameChoice(frame1, frame2, identity, aa1, aa2)
  {
  }

  /** Offering the pair `frame1`, `frame2` to the kept pair advances the loop invariant by one pair. */
  lemma FrameStep(q: Query, frame1: nat, frame2: nat, c: Option<FrameChoice>, best: FrameChoice, best': FrameChoice)
    requires frame1 < 3 && frame2 < 3 && c == Score(q, frame1, frame2)
    requires best == Pick(Scores(q)[..3 * frame1 + frame2], NoFrame)
    requires best' == KeepIfHigher(c, best)
    ensures best' == Pick(Scores(q)[..3 * frame1 + frame2 + 1], NoFrame)
  {
    ScoresAt(q, frame1, frame2);
    PickSnoc(Scores(q), 3 * frame1 + frame2, NoFrame);
  }

  /** Offering one more entry is one more KeepIfHigher step. */
  lemma PickSnoc(cs: seq<Option<FrameChoice>>, k: nat, init: FrameChoice)
    requires k < |cs|
    ensures Pick(cs[..k + 1], init) == KeepIfHigher(cs[k], Pick(cs[..k], init))
  {
    assert cs[..k + 1][..k] == cs[..k];
  }

  /** The result built from the pair the loops keep is the reference result. */
  lemma ChosenReport(q: Query, minIdentity: real, ratio: real, c: FrameChoice)
    requires 0 < q.windowSize && c == Pick(Scores(q)[..9], NoFrame)
    ensures ProteinSpec(q, minIdentity, ratio)
         == ProteinReport(q.nucOffset1, q.nucOffset2, q.windowSize, c.frame1, c.frame2, c.identity, c.aa1, c.aa2, minIdentity, ratio)
  {
    assert Scores(q)[..9] == Scores(q);
  }

  // ---------------------------------------------------------------------------------------------
  // What a pair's score means
  // ---------------------------------------------------------------------------------------------

  /**
   * A pair is skipped exactly when its usable length is below one window of codons, a start lies
   * past the end of its sequence, or fewer than three nucleotides are left on one side; otherwise
   * each translation reads the whole codons from its start over the usable length, clipped at the
   * end of its sequence.
   */
  lemma TranslatedFromMeaning(bytes1: seq<byte>, bytes2: seq<byte>, start1: nat, start2: nat, adjustedLen: nat, windowSize: nat)
    ensures var n1 := if start1 < |bytes1| then Min(adjustedLen, |bytes1| - start1) else 0;
      var n2 := if start2 < |bytes2| then Min(adjustedLen, |bytes2| - start2) else 0;
      var t := TranslatedFrom(bytes1, bytes2, start1, start2, adjustedLen, windowSize);
      && (t.None? <==> adjustedLen < 3 * windowSize || |bytes1| <= start1 || |bytes2| <= start2 || n1 < 3 || n2 < 3)
      && (t.Some? ==>
            && t.value.0 == Translation(bytes1[start1..Min(start1 + adjustedLen, |bytes1|)]) && |t.value.0| == n1 / 3
            && t.value.1 == Translation(bytes2[start2..Min(start2 + adjustedLen, |bytes2|)]) && |t.value.1| == n2 / 3)
  {
    if !(adjustedLen < 3 * windowSize || |bytes1| <= start1 || |bytes2| <= start2) {
      var n1, n2 := Min(adjustedLen, |bytes1| - start1), Min(adjustedLen, |bytes2| - start2);
      assert Min(start1 + adjustedLen, |bytes1|) == start1 + n1;
      assert Min(start2 + adjustedLen, |bytes2|) == start2 + n2;
      assert (n1 < 3 || n2 < 3) <==> Min(n1 / 3, n2 / 3) == 0;
    }
  }

  /**
   * The identity of a scored pair is the matching fraction of its translations over their common
   * length, and it is 1 exactly when one translation is a prefix of the other.
   */
  lemma RateMeaning(frame1: nat, frame2: nat, aa1: seq<byte>, aa2: seq<byte>)
    requires 0 < Min(|aa1|, |aa2|)
    ensures var c, m := Rate(frame1, frame2, aa1, aa2), Min(|aa1|, |aa2|);
      && c.identity == Identity(DiffCount(aa1, aa2), m)
      && (c.identity == 1.0 <==> aa1[..m] == aa2[..m])
  {
    var m := Min(|aa1|, |aa2|);
    DiffCountPrefix(aa1, aa2);
    DiffCountZero(aa1, aa2);
    IdentityBounds(DiffCount(aa1, aa2), m);
  }

  /** A kept pair's translations hold no MISMATCH symbol. */
  lemma ScoredHasNoMismatch(q: Query, frame1: nat, frame2: nat)
    requires Score(q, frame1, frame2).Some?
    ensures MISMATCH !in Score(q, frame1, frame2).value.aa1 && MISMATCH !in Score(q, frame1, frame2).value.aa2
  {
    var t := Translated(q, frame1, frame2);
    TranslatedFromNoMismatch(q.bytes1, q.bytes2, q.nucOffset1 + frame1, q.nucOffset2 + frame2,
      AdjustedLen(q.nucLength, frame1, frame2), q.windowSize);
    assert Score(q, frame1, frame2).value.aa1 == t.value.0 && Score(q, frame1, frame2).value.aa2 == t.value.1;
  }

  lemma TranslatedFromNoMismatch(bytes1: seq<byte>, bytes2: seq<byte>, start1: nat, start2: nat, adjustedLen: nat, windowSize: nat)
    ensures var t := TranslatedFrom(bytes1, bytes2, start1, start2, adjustedLen, windowSize);
      t.Some? ==> MISMATCH !in t.value.0 && MISMATCH !in t.value.1
  {
    if !(adjustedLen < 3 * windowSize || start1 >= |bytes1| || start2 >= |bytes2|) {
      TranslationHasNoMismatch(bytes1[start1..Min(start1 + adjustedLen, |bytes1|)]);
      TranslationHasNoMismatch(bytes2[start2..Min(start2 + adjustedLen, |bytes2|)]);
    }
  }

  // ---------------------------------------------------------------------------------------------
  // Which pair is kept
  // ---------------------------------------------------------------------------------------------

  /**
   * `r` is what offering `cs` in order should keep: either `init`, when nothing offered beats it,
   * or the first offered pair with the highest identity, so that everything offered before it is
   * strictly lower and nothing after it is higher.
   */
  predicate Selected(cs: seq<Option<FrameChoice>>, init: FrameChoice, r: FrameChoice)
  {
    || (r == init && forall i | 0 <= i < |cs| && cs[i].Some? :: cs[i].value.identity <= init.identity)
    || (exists j | 0 <= j < |cs| ::
          && cs[j] == Some(r) && init.identity < r.identity
          && (forall i | 0 <= i < j && cs[i].Some? :: cs[i].value.identity < r.identity)
          && (forall i | j < i < |cs| && cs[i].Some? :: cs[i].value.identity <= r.identity))
  }

  /** The replacement rule keeps the first highest identity. */
  lemma {:induction false} PickSelects(cs: seq<Option<FrameChoice>>, init: FrameChoice)
    ensures Selected(cs, init, Pick(cs, init))
  {
    if cs != [] {
      var n := |cs| - 1;
      PickSelects(cs[..n], init);
      SelectedSnoc(cs[..n], init, Pick(cs[..n], init), cs[n]);
      assert cs[..n] + [cs[n]] == cs;
    }
  }

  /** One more offer under the replacement rule keeps the selection property. */
  lemma SelectedSnoc(cs: seq<Option<FrameChoice>>, init: FrameChoice, p: FrameChoice, x: Option<FrameChoice>)
    requires Selected(cs, init, p)
    ensures Selected(cs + [x], init, KeepIfHigher(x, p))
  {
    if KeepIfHigher(x, p) != p {
      SelectedBound(cs, init, p);
      SnocReplaces(cs, init, p, x.value);
    } else {
      SnocKeeps(cs, init, p, x);
    }
  }

  /** Whatever is selected is at least `init` and at least every offered pair. */
  lemma SelectedBound(cs: seq<Option<FrameChoice>>, init: FrameChoice, p: FrameChoice)
    requires Selected(cs, init, p)
    ensures init.identity <= p.identity
    ensures forall i | 0 <= i < |cs| && cs[i].Some? :: cs[i].value.identity <= p.identity
  {
  }

  /** An offer above everything so far becomes the selection. */
  lemma SnocReplaces(cs: seq<Option<FrameChoice>>, init: FrameChoice, p: FrameChoice, c: FrameChoice)
    requires init.identity <= p.identity < c.identity
    requires forall i | 0 <= i < |cs| && cs[i].Some? :: cs[i].value.identity <= p.identity
    ensures Selected(cs + [Some(c)], init, c)
  {
    var cs', n := cs + [Some(c)], |cs|;
    assert cs'[n] == Some(c);
    assert forall i | 0 <= i < n && cs'[i].Some? :: cs'[i].value.identity < c.identity by {
      forall i | 0 <= i < n && cs'[i].Some? ensures cs'[i].value.identity < c.identity {
        assert cs'[i] == cs[i];
      }
    }
  }

  /** An offer that is not strictly higher leaves the selection as it is. */
  lemma SnocKeeps(cs: seq<Option<FrameChoice>>, init: FrameChoice, p: FrameChoice, x: Option<FrameChoice>)
    requires Selected(cs, init, p) && KeepIfHigher(x, p) == p
    ensures Selected(cs + [x], init, p)
  {
    var cs', n := cs + [x], |cs|;
    assert forall i | 0 <= i < n :: cs'[i] == cs[i];
    assert cs'[n] == x;
    if p == init && forall i | 0 <= i < n && cs[i].Some? :: cs[i].value.identity <= init.identity {
      assert forall i | 0 <= i < n + 1 && cs'[i].Some? :: cs'[i].value.identity <= init.identity;
    } else {
      var j :| 0 <= j < n
        && cs[j] == Some(p) && init.identity < p.identity
        && (forall i | 0 <= i < j && cs[i].Some? :: cs[i].value.identity < p.identity)
        && (forall i | j < i < n && cs[i].Some? :: cs[i].value.identity <= p.identity);
      assert cs'[j] == Some(p);
      assert forall i | j < i < n + 1 && cs'[i].Some? :: cs'[i].value.identity <= p.identity;
    }
  }

  /** Entry `3 * frame1 + frame2` of the offered sequence is the pair `frame1`, `frame2`. */
  lemma ScoresAt(q: Query, frame1: nat, frame2: nat)
    requires frame1 < 3 && frame2 < 3
    ensures 3 * frame1 + frame2 < 9 && Scores(q)[3 * frame1 + frame2] == Score(q, frame1, frame2)
  {
    var k := 3 * frame1 + frame2;
    assert k / 3 == frame1 && k % 3 == frame2;
  }

  /**
   * The frame loops keep frames below 3, and they keep nothing exactly when no pair they score has
   * an identity above 0.
   */
  lemma ChosenFrames(q: Query)
    ensures Chosen(q).frame1 < 3 && Chosen(q).frame2 < 3
    ensures Chosen(q) == NoFrame <==>
      forall f1: nat, f2: nat | f1 < 3 && f2 < 3 && Score(q, f1, f2).Some? :: Score(q, f1, f2).value.identity == 0.0
  {
    var c := Chosen(q);
    if c != NoFrame {
      var j := ChosenIndex(q);
      ScoresAt(q, c.frame1, c.frame2);
    } else {
      NothingChosen(q);
    }
  }

  /** When nothing is kept, every scored pair has identity 0. */
  lemma NothingChosen(q: Query)
    requires Chosen(q) == NoFrame
    ensures forall f1: nat, f2: nat | f1 < 3 && f2 < 3 && Score(q, f1, f2).Some? :: Score(q, f1, f2).value.identity == 0.0
  {
    var cs := Scores(q);
    PickSelects(cs, NoFrame);
    assert forall i | 0 <= i < 9 && cs[i].Some? :: cs[i].value.identity <= 0.0;
    forall f1: nat, f2: nat | f1 < 3 && f2 < 3 && Score(q, f1, f2).Some? ensures Score(q, f1, f2).value.identity == 0.0 {
      ScoresAt(q, f1, f2);
    }
  }

  /**
   * When the frame loops keep a pair, it is a scored pair with the highest identity, and every pair
   * scored before it in the loop order (`frame1` outer, `frame2` inner) has a strictly lower one.
   */
  lemma ChosenBest(q: Query)
    requires Chosen(q) != NoFrame
    ensures var c := Chosen(q);
      && Score(q, c.frame1, c.frame2) == Some(c) && 0.0 < c.identity
      && forall f1: nat, f2: nat | f1 < 3 && f2 < 3 && Score(q, f1, f2).Some? ::
           && Score(q, f1, f2).value.identity <= c.identity
           && (f1 < c.frame1 || (f1 == c.frame1 && f2 < c.frame2) ==> Score(q, f1, f2).value.identity < c.identity)
  {
    var c := Chosen(q);
    var j := ChosenIndex(q);
    ScoresAt(q, c.frame1, c.frame2);
    ChosenUnbeaten(q, j);
    ChosenEarliest(q, j);
  }

  lemma ChosenUnbeaten(q: Query, j: nat)
    requires j < 9 && Scores(q)[j] == Some(Chosen(q))
    requires forall i | 0 <= i < j && Scores(q)[i].Some? :: Scores(q)[i].value.identity < Chosen(q).identity
    requires forall i | j < i < 9 && Scores(q)[i].Some? :: Scores(q)[i].value.identity <= Chosen(q).identity
    ensures forall f1: nat, f2: nat | f1 < 3 && f2 < 3 && Score(q, f1, f2).Some? :: Score(q, f1, f2).value.identity <= Chosen(q).identity
  {
    forall f1: nat, f2: nat | f1 < 3 && f2 < 3 && Score(q, f1, f2).Some?
      ensures Score(q, f1, f2).value.identity <= Chosen(q).identity
    {
      ScoresAt(q, f1, f2);
    }
  }

  lemma ChosenEarliest(q: Query, j: nat)
    requires j < 9 && j == 3 * Chosen(q).frame1 + Chosen(q).frame2 && Chosen(q).frame2 < 3
    requires forall i | 0 <= i < j && Scores(q)[i].Some? :: Scores(q)[i].value.identity < Chosen(q).identity
    ensures forall f1: nat, f2: nat | f1 < 3 && f2 < 3 && Score(q, f1, f2).Some? &&
              (f1 < Chosen(q).frame1 || (f1 == Chosen(q).frame1 && f2 < Chosen(q).frame2)) ::
              Score(q, f1, f2).value.identity < Chosen(q).identity
  {
    forall f1: nat, f2: nat | f1 < 3 && f2 < 3 && Score(q, f1, f2).Some? &&
        (f1 < Chosen(q).frame1 || (f1 == Chosen(q).frame1 && f2 < Chosen(q).frame2))
      ensures Score(q, f1, f2).value.identity < Chosen(q).identity
    {
      ScoresAt(q, f1, f2);
    }
  }

  /** The position, in loop order, of the kept pair. */
  lemma ChosenIndex(q: Query) returns (j: nat)
    requires Chosen(q) != NoFrame
    ensures var cs, c := Scores(q), Chosen(q);
      && j < 9 && j == 3 * c.frame1 + c.frame2 && c.frame1 < 3 && c.frame2 < 3
      && cs[j] == Some(c) && 0.0 < c.identity
      && (forall i | 0 <= i < j && cs[i].Some? :: cs[i].value.identity < c.identity)
      && (forall i | j < i < 9 && cs[i].Some? :: cs[i].value.identity <= c.identity)
  {
    var cs := Scores(q);
    var c := Chosen(q);
    PickSelects(cs, NoFrame);
    j :| 0 <= j < 9
      && cs[j] == Some(c) && 0.0 < c.identity
      && (forall i | 0 <= i < j && cs[i].Some? :: cs[i].value.identity < c.identity)
      && (forall i | j < i < 9 && cs[i].Some? :: cs[i].value.identity <= c.identity);
    assert c.frame1 == j / 3 && c.frame2 == j % 3;
  }

  /** A scored pair carries the identity Rate gives its own translations. */
  lemma ScoredRate(q: Query, frame1: nat, frame2: nat)
    requires Score(q, frame1, frame2).Some?
    ensures var c := Score(q, frame1, frame2).value;
      0 < Min(|c.aa1|, |c.aa2|) && c == Rate(frame1, frame2, c.aa1, c.aa2)
  {
  }

  // ---------------------------------------------------------------------------------------------
  // What compare_proteins_full reports
  // ---------------------------------------------------------------------------------------------

  /** The reference result, read off the chosen pair. */
  lemma SpecOfChosen(q: Query, minIdentity: real, ratio: real)
    requires 0 < q.windowSize
    ensures var c := Chosen(q);
      ProteinSpec(q, minIdentity, ratio)
      == ProteinReport(q.nucOffset1, q.nucOffset2, q.windowSize, c.frame1, c.frame2, c.identity, c.aa1, c.aa2, minIdentity, ratio)
  {
  }

  /**
   * The report of two translations: over their common length, the mask holds the shared residue
   * where they agree and MISMATCH where they differ, and the mismatch count is the number of
   * differing positions.
   */
  lemma ReportMask(nucOffset1: nat, nucOffset2: nat, windowSize: nat, frame1: nat, frame2: nat,
                   identity: real, aa1: seq<byte>, aa2: seq<byte>, minIdentity: real, ratio: real)
    requires 0 < windowSize
    ensures var r := ProteinReport(nucOffset1, nucOffset2, windowSize, frame1, frame2, identity, aa1, aa2, minIdentity, ratio);
      && r.aa1 == aa1 && r.aa2 == aa2 && r.frame1 == frame1 && r.frame2 == frame2 && r.identity == identity
      && r.length == Min(|aa1|, |aa2|) && |r.mask| == r.length
      && (forall i | 0 <= i < r.length :: r.mask[i] == if aa1[i] == aa2[i] then aa1[i] else MISMATCH)
      && r.mismatches == DiffCount(aa1, aa2)
  {
    var len := Min(|aa1|, |aa2|);
    var a, b := aa1[..len], aa2[..len];
    if len > 0 {
      forall i | 0 <= i < len ensures MaskOf(a, b)[i] == if aa1[i] == aa2[i] then aa1[i] else MISMATCH {
        assert a[i] == aa1[i] && b[i] == aa2[i];
      }
    }
    DiffCountPrefix(aa1, aa2);
  }

  /**
   * The shape of the result: frames below 3, the length is the shorter translation's, the result
   * is truncated exactly when the translations differ in length, the offsets are the frame-adjusted
   * nucleotide offsets in codons, and the mask compares the translations position by position.
   */
  lemma ProteinShape(q: Query, minIdentity: real, ratio: real)
    requires 0 < q.windowSize
    ensures var r := ProteinSpec(q, minIdentity, ratio);
      && r.frame1 < 3 && r.frame2 < 3
      && r.length == Min(|r.aa1|, |r.aa2|)
      && r.truncated == (|r.aa1| != |r.aa2|)
      && r.offset1 == (q.nucOffset1 + r.frame1) / 3 && r.offset2 == (q.nucOffset2 + r.frame2) / 3
      && |r.mask| == r.length
      && forall i | 0 <= i < r.length :: r.mask[i] == if r.aa1[i] == r.aa2[i] then r.aa1[i] else MISMATCH
  {
    var c := Chosen(q);
    ChosenFrames(q);
    SpecOfChosen(q, minIdentity, ratio);
    ReportMask(q.nucOffset1, q.nucOffset2, q.windowSize, c.frame1, c.frame2, c.identity, c.aa1, c.aa2, minIdentity, ratio);
  }

  /**
   * The mismatch count is the number of MISMATCH symbols in the mask, and the identity, between 0
   * and 1, is one minus the mismatches over the length.
   */
  lemma ProteinScores(q: Query, minIdentity: real, ratio: real)
    requires 0 < q.windowSize
    ensures var r := ProteinSpec(q, minIdentity, ratio);
      && r.mismatches == CountMismatchesInMask(r.mask)
      && 0.0 <= r.identity <= 1.0
      && (0 < r.length ==> r.mismatches <= r.length && r.identity == Identity(r.mismatches, r.length))
  {
    var c := Chosen(q);
    SpecOfChosen(q, minIdentity, ratio);
    ReportMask(q.nucOffset1, q.nucOffset2, q.windowSize, c.frame1, c.frame2, c.identity, c.aa1, c.aa2, minIdentity, ratio);
    if c != NoFrame {
      ChosenBest(q);
      ScoredRate(q, c.frame1, c.frame2);
      ScoredHasNoMismatch(q, c.frame1, c.frame2);
      var len := Min(|c.aa1|, |c.aa2|);
      MaskCountsMismatches(c.aa1[..len], c.aa2[..len]);
      DiffCountPrefix(c.aa1, c.aa2);
      assert MISMATCH !in c.aa1[..len] by {
        forall i | 0 <= i < len ensures c.aa1[..len][i] != MISMATCH {
          assert c.aa1[..len][i] == c.aa1[i];
        }
      }
    }
  }

  /**
   * Nothing is kept exactly when no pair scores an identity above 0; the result is then empty,
   * with frames 0 and the offsets the unadjusted nucleotide offsets in codons.
   */
  lemma ProteinNothingKept(q: Query, minIdentity: real, ratio: real)
    requires 0 < q.windowSize
    ensures var r := ProteinSpec(q, minIdentity, ratio);
      && (r.length == 0 <==>
            forall f1: nat, f2: nat | f1 < 3 && f2 < 3 && Score(q, f1, f2).Some? :: Score(q, f1, f2).value.identity == 0.0)
      && (r.length == 0 ==>
            r == ProteinResult([], [], [], 0, 0, 0.0, false, q.nucOffset1 / 3, q.nucOffset2 / 3, 0, 0, []))
  {
    var c := Chosen(q);
    ChosenFrames(q);
    SpecOfChosen(q, minIdentity, ratio);
    if c != NoFrame {
      ChosenBest(q);
    } else {
      ConservedBlocksProperties([], q.windowSize, minIdentity, ratio);
    }
  }

  /**
   * A kept pair is a scored pair of frames with an identity above 0 and the highest identity of
   * all nine; every pair before it in the loop order scores strictly lower.
   */
  lemma ProteinSelection(q: Query, minIdentity: real, ratio: real)
    requires 0 < q.windowSize
    ensures var r := ProteinSpec(q, minIdentity, ratio);
      0 < r.length ==>
        && Score(q, r.frame1, r.frame2) == Some(FrameChoice(r.frame1, r.frame2, r.identity, r.aa1, r.aa2))
        && 0.0 < r.identity
        && forall f1: nat, f2: nat | f1 < 3 && f2 < 3 && Score(q, f1, f2).Some? ::
             && Score(q, f1, f2).value.identity <= r.identity
             && (f1 < r.frame1 || (f1 == r.frame1 && f2 < r.frame2) ==> Score(q, f1, f2).value.identity < r.identity)
  {
    var c := Chosen(q);
    SpecOfChosen(q, minIdentity, ratio);
    if c != NoFrame {
      ChosenBest(q);
    }
  }

  /** The conserved blocks are well formed, ordered, and absent exactly when no window qualifies. */
  lemma ProteinBlocks(q: Query, minIdentity: real, ratio: real)
    requires 0 < q.windowSize
    ensures var r := ProteinSpec(q, minIdentity, ratio);
      && (forall b | b in r.conservedBlocks :: WellFormed(r.mask, b) && b.start % q.windowSize == 0)
      && Ordered(r.conservedBlocks)
      && (r.conservedBlocks == [] <==>
            forall j | 0 <= j < |r.mask| && j % q.windowSize == 0 :: !Accepted(r.mask, q.windowSize, minIdentity, j))
  {
    var r := ProteinSpec(q, minIdentity, ratio);
    ConservedBlocksProperties(r.mask, q.windowSize, minIdentity, ratio);
  }

  /** A region shorter than one window of codons skips every pair: the result is empty. */
  lemma WindowLongerThanRegion(q: Query, minIdentity: real, ratio: real)
    requires 0 < q.windowSize && q.nucLength < 3 * q.windowSize
    ensures ProteinSpec(q, minIdentity, ratio)
         == ProteinResult([], [], [], 0, 0, 0.0, false, q.nucOffset1 / 3, q.nucOffset2 / 3, 0, 0, [])
  {
    forall f1: nat, f2: nat | f1 < 3 && f2 < 3 ensures Score(q, f1, f2).None? {
      assert AdjustedLen(q.nucLength, f1, f2) <= q.nucLength;
    }
    ChosenFrames(q);
    ProteinNothingKept(q, minIdentity, ratio);
  }
}
