# Gene comparator engine — a verified Dafny model

This project models the comparison engine of the gene comparator, `wasm/rust/src/lib.rs`. The engine has five parts:

- **Codon translator** (`Codons`). It reads a nucleotide sequence in triplets and looks each codon up in a 64-entry table of one-letter amino-acid codes. A codon with a symbol outside T/C/A/G (either case) becomes `'X'`.
- **Region comparator** (`Regions`). It compares two sequences position by position over the shorter length. The result is a match mask (the shared symbol, or `'?'` on a mismatch) and a mismatch count.
- **Conserved-block extractor** (`Blocks`). It cuts a mask into fixed windows and accepts the windows whose identity reaches a threshold. It merges runs of accepted windows into blocks, then drops blocks that are small next to the largest one.
- **Offset alignment search** (`Alignment`, `compare_sequences_full`).
  - It slides one sequence along the other without gaps and keeps the best overlap. The rule is "identity higher by more than 0.01, or within 0.01 and a longer overlap".
  - It stops at the first overlap without mismatches.
  - It then reports the winning overlap's mask, scores and conserved blocks.
- **Reading-frame search** (`Proteins`, `compare_proteins_full`).
  - It translates an aligned nucleotide region in each of the 3 × 3 pairs of reading frames. It keeps the first pair with the strictly highest amino-acid identity.
  - It then reports the pair's protein mask and blocks, with the offsets converted to codons.

`Symbols` holds the shared vocabulary:

- bytes, written as characters below 256;
- the mismatch symbol `'?'`;
- `i32::MAX`;
- identity as an exact real.

How the model is built:

- Each loop of the source is a method with loop invariants. Each such method is proved equal to a pure specification function: `Translation`, `MaskOf`/`DiffCount`, `ConservedBlocks`, `AlignSpec` and `ProteinSpec`.
- The properties the engine promises are lemmas about those functions.
- Results are records (`AlignmentResult`, `ProteinResult`, `ConservedBlock`), not JSON text.
- The standard genetic code (NCBI translation table 1) is written out independently as `GeneticCode`, over a `Nucleotide` datatype. The lookup table is proved to agree with it on all 64 codons.

## Model

| member | source | states |
|---|---|---|
| Symbols.IdentityBounds | wasm/rust/src/lib.rs:317 | an identity `1 - mismatches/len` lies in [0, 1] and is 1 exactly when there is no mismatch |
| Symbols.Ceil | wasm/rust/src/lib.rs:168 | the ceiling of `x` is the integer `r` with `x <= r < x + 1` |
| Symbols.Identity | wasm/rust/src/lib.rs:90 | an identity `1 - mismatches/len` is at most 1, and is exactly 1 when there is no mismatch (the formula of lines 90, 194 and 317) |
| Codons.NucToIndex | wasm/rust/src/lib.rs:17-25 | a nucleotide's table index is below 4 |
| Codons.NucToIndexSpells | wasm/rust/src/lib.rs:17-25 | the lookup accepts exactly T, C, A, G in either case, and gives T=0, C=1, A=2, G=3 |
| Codons.TranslateCodon | wasm/rust/src/lib.rs:27-32 | a codon with any symbol outside T, C, A, G (either case) translates to 'X' |
| Codons.TableRow | wasm/rust/src/lib.rs:13-15 | entry `i1*16 + i2*4 + i3` of the table is the standard code's amino acid for that codon |
| Codons.TranslateCodonIsGeneticCode | wasm/rust/src/lib.rs:27-32 | a codon of three nucleotides, in any mix of cases, translates as the standard genetic code says |
| Codons.GeneticCodeInAlphabet | wasm/rust/src/lib.rs:15 | the table yields only the 20 amino acids or the stop symbol |
| Codons.TranslateCodonUnknown | wasm/rust/src/lib.rs:27-32 | a codon becomes 'X' exactly when one of its symbols is not a nucleotide |
| Codons.TranslateCodonInAlphabet | wasm/rust/src/lib.rs:27-32 | every codon yields an amino acid, the stop symbol or 'X', and never the mismatch symbol |
| Codons.StartAndStopCodons | wasm/rust/src/lib.rs:15-32 | ATG gives M; TAA, TAG and TGA give '*'; and these three are the only stop codons |
| Codons.Translation | wasm/rust/src/lib.rs:34-42 | a translation has one residue per whole codon: its length is the input length divided by 3, rounded down |
| Codons.TranslationAt | wasm/rust/src/lib.rs:37-40 | residue i is the translation of the codon at positions 3i, 3i+1, 3i+2 |
| Codons.TranslationAppend | wasm/rust/src/lib.rs:34-42 | translating two pieces split at a codon boundary is translating each and concatenating |
| Codons.TranslationDropsTrailing | wasm/rust/src/lib.rs:35 | one or two symbols after the last whole codon do not change the translation |
| Codons.TranslationHasNoMismatch | wasm/rust/src/lib.rs:27-42 | no translation contains the mask's mismatch symbol |
| Codons.TranslateDna | wasm/rust/src/lib.rs:34-42 | the codon loop computes the translation |
| Regions.DiffCount | wasm/rust/src/lib.rs:48-58 | the number of differing positions is at most the shorter length |
| Regions.MaskOf | wasm/rust/src/lib.rs:52-58 | the mask has the shorter length; where the first sequence holds no '?', the mask holds '?' exactly at the positions where the sequences differ |
| Regions.CountMismatchesInMask | wasm/rust/src/lib.rs:64-66 | the count is at most the mask length; it is 0 exactly when the mask has no '?', and the full length exactly when the mask is all '?' |
| Regions.CountMismatchesAppend | wasm/rust/src/lib.rs:64-66 | counting '?' distributes over concatenation |
| Regions.DiffCountZero | wasm/rust/src/lib.rs:52-58 | no differing position exactly when both sequences agree over the shorter length |
| Regions.MaskOfSnoc | wasm/rust/src/lib.rs:52-58 | the mask grows by one symbol per compared position: the shared symbol or '?' |
| Regions.MaskCountsMismatches | wasm/rust/src/lib.rs:47-66 | when the first sequence holds no '?', the mask has exactly as many '?' as there are differing positions |
| Regions.CompareRegions | wasm/rust/src/lib.rs:47-62 | the mask has the shorter length, holds the shared symbol where the inputs agree and '?' where they differ; the count is the number of differing positions |
| Regions.DiffCountPrefix | wasm/rust/src/lib.rs:48 | only the shorter length matters to the difference count |
| Blocks.RunEnd | wasm/rust/src/lib.rs:86-111 | a run of accepted windows stops at a rejected grid window or at the end of the mask |
| Blocks.Window | wasm/rust/src/lib.rs:87-88 | a window holds `windowSize` symbols, or what is left at the end of the mask, and is never empty inside the mask |
| Blocks.Accepted | wasm/rust/src/lib.rs:89-92 | a window without '?' is accepted for any threshold up to 1 |
| Blocks.RawBlocks | wasm/rust/src/lib.rs:86-121 | every block before filtering is a nonempty slice of the mask with consistent start, end and length |
| Blocks.MaxLength | wasm/rust/src/lib.rs:125 | the maximum is at least every block's length and is reached by some block |
| Blocks.Significant | wasm/rust/src/lib.rs:127 | exactly the blocks at least the given length are kept |
| Blocks.TruncateToNat | wasm/rust/src/lib.rs:126 | the `as usize` cast of a real: 0 below 1, otherwise the largest integer not above it |
| Blocks.MinSignificant | wasm/rust/src/lib.rs:126 | the threshold is `floor(maxLength * ratio)`, and 0 for a ratio of 0 or less |
| Blocks.FilterSmallBlocks | wasm/rust/src/lib.rs:123-133 | the kept blocks come from the input, and the filter empties no nonempty list |
| Blocks.FindConservedBlocks | wasm/rust/src/lib.rs:79-134 | the window loop and the size filter compute the reference blocks |
| Blocks.ConservedBlocks | wasm/rust/src/lib.rs:79-134 | every reported block is a well-formed slice of the mask, and there are none exactly when there are no raw blocks |
| Blocks.RunEndFacts | wasm/rust/src/lib.rs:86-111 | a run ends on the window grid or at the mask end, and every grid window inside it is accepted |
| Blocks.MaximalRunShift | wasm/rust/src/lib.rs:98-110 | a block stays a maximal run when the scan origin moves back over a rejected window |
| Blocks.RunsFromShape | wasm/rust/src/lib.rs:86-121 | raw blocks are well-formed slices of the mask, maximal runs, and in increasing order without overlap |
| Blocks.RunsFromCoverage | wasm/rust/src/lib.rs:86-121 | a grid window is accepted exactly when a raw block covers it |
| Blocks.SignificantOrdered | wasm/rust/src/lib.rs:127 | the size filter keeps the blocks' order |
| Blocks.FilterSmallBlocksProperties | wasm/rust/src/lib.rs:123-133 | the kept blocks come from the input, in order; every block at least `floor(maxLength * ratio)` long is kept; the result is empty only for no blocks; one block or none is returned as is; with more than one block, whenever some block reaches the threshold (for any ratio) only blocks reaching it are kept, and when none does the input is returned unchanged |
| Blocks.MinSignificantAtMost | wasm/rust/src/lib.rs:126 | with a ratio of at most 1, the largest block passes the filter |
| Blocks.RawBlocksShape | wasm/rust/src/lib.rs:85-121 | every block before filtering is a nonempty slice of the mask, starts at a multiple of the window size, is a maximal run, and the blocks are strictly ordered |
| Blocks.RawBlocksCoverage | wasm/rust/src/lib.rs:86-121 | a grid window is accepted exactly when a block covers it |
| Blocks.ConservedBlocksProperties | wasm/rust/src/lib.rs:79-134 | the reported blocks are well-formed, grid-aligned, maximal, strictly ordered, cover only accepted windows, and are absent exactly when no window is accepted |
| Blocks.FullyMatchingMask | wasm/rust/src/lib.rs:79-134 | a mask without '?' forms a single block that spans all of it |
| Blocks.AllMismatchMask | wasm/rust/src/lib.rs:79-134 | a mask of '?' only forms no block for any positive threshold |
| Blocks.MismatchOnlyIdentity | wasm/rust/src/lib.rs:89-90 | a window of '?' only has identity 0 |
| Blocks.NoneAcceptedRunsFrom | wasm/rust/src/lib.rs:98-109 | with no accepted window left, no block is formed |
| Alignment.MinOverlapPositive | wasm/rust/src/lib.rs:168 | a positive fraction of nonempty sequences asks for an overlap of at least 1 |
| Alignment.MinOverlap | wasm/rust/src/lib.rs:168 | the minimum overlap is the fraction of the shorter length, rounded up: at least that product and less than it plus 1 |
| Alignment.OverlapLen | wasm/rust/src/lib.rs:178-180 | a nonnegative overlap at a shift fits inside both sequences from that shift's starts |
| Alignment.Offered | wasm/rust/src/lib.rs:186-194 | a scored overlap has a mismatch count between 0 and its length, and identity 1 exactly when it has no mismatch |
| Alignment.Keep | wasm/rust/src/lib.rs:195-204 | the replacement rule keeps the old overlap or takes the new one, and never lowers the identity by the tolerance or more |
| Alignment.MinOverlapBounds | wasm/rust/src/lib.rs:168 | with a fraction of at most 1, the minimum overlap lies between 1 and the shorter length |
| Alignment.MinOverlapTooLong | wasm/rust/src/lib.rs:168 | a fraction above 1 asks for more than the shorter length |
| Alignment.GuardRedundant | wasm/rust/src/lib.rs:177-184 | with a fraction of at most 1, every shift in the loop's range overlaps by at least the minimum |
| Alignment.ScanFrom | wasm/rust/src/lib.rs:177-209 | the search keeps a placed overlap placed: one start 0, the overlap inside both sequences |
| Alignment.Winner | wasm/rust/src/lib.rs:166-209 | the winning overlap is placed inside both sequences, with one start 0 |
| Alignment.FindBestOffset | wasm/rust/src/lib.rs:166-209 | the offset loop, with its skip and its early exit, computes the reference winner |
| Alignment.CountOverlapMismatches | wasm/rust/src/lib.rs:186-192 | the inner loop counts the differing positions of the overlap |
| Alignment.VisitShift | wasm/rust/src/lib.rs:178-208 | one pass of the offset loop skips a short overlap or scores it, applies the replacement rule, and either continues the search or ends it with the winner on a perfect overlap |
| Alignment.CompareSequencesFull | wasm/rust/src/lib.rs:151-232 | the whole comparison equals the reference result |
| Alignment.ReportAt | wasm/rust/src/lib.rs:211-219 | the report has the overlap's length and a mask of that length, fits inside both sequences, and is truncated exactly when the lengths differ or an offset is nonzero |
| Alignment.AlignSpec | wasm/rust/src/lib.rs:151-232 | the reference result's mask has the reported length, the overlap fits inside both sequences, and one offset is 0 |
| Alignment.ScanAllTooShort | wasm/rust/src/lib.rs:177-184 | when the minimum exceeds the shorter length, nothing is ever kept |
| Alignment.OfferedScored | wasm/rust/src/lib.rs:178-194 | a scored overlap records its own shift and is one the loop visits |
| Alignment.ScanFromScored | wasm/rust/src/lib.rs:177-209 | the kept overlap is the initial value or the scored overlap of a visited shift |
| Alignment.ScanStopsAtPerfect | wasm/rust/src/lib.rs:206-208 | no shift after the first perfect overlap is ever kept |
| Alignment.Candidates | wasm/rust/src/lib.rs:177-184 | every candidate is a shift the loop visits and scores |
| Alignment.Scores | wasm/rust/src/lib.rs:186-194 | one scored overlap per candidate, in the same order |
| Alignment.UpToFirstPerfect | wasm/rust/src/lib.rs:206-208 | the cut is a prefix of the scored overlaps, and no overlap before its last one is perfect |
| Alignment.Select | wasm/rust/src/lib.rs:195-204 | the selected overlap is the starting value or one of the offered overlaps |
| Alignment.ScanIsSelect | wasm/rust/src/lib.rs:177-209 | the loop is the candidates scored in order, cut after the first perfect one, then run through the replacement rule |
| Alignment.CandidatesInOrder | wasm/rust/src/lib.rs:177 | shifts are visited in strictly increasing order and none that overlaps enough is missed |
| Alignment.UpToFirstPerfectProperties | wasm/rust/src/lib.rs:206-208 | the cut is a prefix that ends at the first perfect overlap, or everything if there is none |
| Alignment.SelectUnbeaten | wasm/rust/src/lib.rs:195-204 | the kept overlap is the starting value, which nothing beats, or one that beat its predecessor and that no later overlap beats |
| Alignment.WinnerScored | wasm/rust/src/lib.rs:177-209 | the winner is nothing or the scored overlap of a visited shift |
| Alignment.WinnerSelection | wasm/rust/src/lib.rs:177-209 | the winner is the replacement rule applied to the candidate overlaps in increasing shift order, up to the first perfect one |
| Alignment.WinnerNotPastPerfect | wasm/rust/src/lib.rs:206-208 | the winner never lies past the first perfect overlap |
| Alignment.AlignmentEmpty | wasm/rust/src/lib.rs:162-164 | an empty input gives the fixed empty result, marked truncated |
| Alignment.AlignmentPlacement | wasm/rust/src/lib.rs:170-219 | one offset is 0; the overlap fits in both sequences; truncated exactly when the lengths differ or an offset is nonzero |
| Alignment.AlignmentMask | wasm/rust/src/lib.rs:211-214 | the mask has the reported length and compares the two overlapping regions position by position |
| Alignment.SliceMask | wasm/rust/src/lib.rs:212-214 | the mask of two equally long slices compares the sequences at the slice offsets |
| Alignment.AlignmentIdentity | wasm/rust/src/lib.rs:170-204 | the identity is in [0, 1] and is the kept overlap's matching fraction; with nothing kept it is 0, the mismatch count is `i32::MAX` and the mask is empty |
| Alignment.ReportIdentity | wasm/rust/src/lib.rs:194-226 | a report carries the identity and the mismatch count of its overlap |
| Alignment.AlignmentKept | wasm/rust/src/lib.rs:177-204 | a kept overlap is the whole overlap of a shift the loop scores |
| Alignment.AlignmentMismatches | wasm/rust/src/lib.rs:186-224 | without '?' in the first sequence, the reported mismatch count is the number of '?' in the mask |
| Alignment.ReportMismatches | wasm/rust/src/lib.rs:212-224 | a report's mismatch count is the number of '?' in its mask |
| Alignment.WinnerFacts | wasm/rust/src/lib.rs:177-204 | a kept winner is a visited shift with a nonempty overlap of the full length for that shift |
| Alignment.WinnerScore | wasm/rust/src/lib.rs:186-203 | a kept winner carries its overlap's difference count and identity |
| Alignment.WinnerMaskCount | wasm/rust/src/lib.rs:212-214 | the winner's mismatch count is the number of '?' in its mask |
| Alignment.AlignmentBlocks | wasm/rust/src/lib.rs:216-217 | the result's blocks are well-formed, grid-aligned and ordered, and absent exactly when no window of the mask is accepted |
| Alignment.OverlapFractionAboveOne | wasm/rust/src/lib.rs:168-177 | with a fraction above 1 no shift is scored: an empty result with mismatches `i32::MAX` |
| Proteins.Translated | wasm/rust/src/lib.rs:287-314 | a pair that is not skipped has two nonempty translations |
| Proteins.TranslatedFrom | wasm/rust/src/lib.rs:289-314 | the same, from the pair's starts and usable length |
| Proteins.Rate | wasm/rust/src/lib.rs:316-317 | a pair's identity lies in [0, 1] |
| Proteins.Score | wasm/rust/src/lib.rs:287-317 | a scored pair carries its own frames, nonempty translations and an identity in [0, 1] |
| Proteins.Scores | wasm/rust/src/lib.rs:287-288 | the loops offer nine pairs |
| Proteins.AdjustedLen | wasm/rust/src/lib.rs:290-291 | the usable length is at most the region length, fits after either frame shift (or is 0), and uses the whole region for one of the frames |
| Proteins.KeepIfHigher | wasm/rust/src/lib.rs:322-328 | the kept pair stays, or the offered pair replaces it with a strictly higher identity |
| Proteins.Pick | wasm/rust/src/lib.rs:319-328 | the kept identity never falls below the initial one |
| Proteins.CompareProteinsFull | wasm/rust/src/lib.rs:238-367 | the two frame loops and the report equal the reference result |
| Proteins.OfferFramePair | wasm/rust/src/lib.rs:289-328 | after pair `3*frame1 + frame2` the kept pair is the choice among the pairs so far |
| Proteins.ScoreFramePair | wasm/rust/src/lib.rs:289-317 | the loop body skips exactly the pairs the reference skips, and otherwise computes their translations and identity |
| Proteins.ReportPair | wasm/rust/src/lib.rs:332-366 | the end of the function builds the reference report of the kept pair |
| Proteins.ProteinReport | wasm/rust/src/lib.rs:332-366 | the report's length is the shorter translation's, its mask has that length, its mismatch count is at most that length, and it is truncated exactly when the translations differ in length |
| Proteins.ProteinSpec | wasm/rust/src/lib.rs:238-367 | the reference result's mask has the reported length, its mismatch count is at most that length, and it is empty exactly when a translation is empty |
| Proteins.TranslatedFromMeaning | wasm/rust/src/lib.rs:289-314 | a pair is skipped exactly when it is shorter than one window of codons, a start lies past its sequence end, or fewer than 3 nucleotides remain on a side; otherwise each translation reads the clipped region and has one residue per whole codon |
| Proteins.RateMeaning | wasm/rust/src/lib.rs:311-317 | a pair's identity is the matching fraction of the common prefix, and is 1 exactly when the prefixes agree |
| Proteins.ScoredHasNoMismatch | wasm/rust/src/lib.rs:305-309 | translations of a scored pair hold no '?' |
| Proteins.TranslatedFromNoMismatch | wasm/rust/src/lib.rs:305-309 | translations of a pair that is not skipped hold no '?' |
| Proteins.PickSelects | wasm/rust/src/lib.rs:319-328 | under the strict replacement rule the kept pair is the initial one, which nothing beats, or the first pair with the highest identity |
| Proteins.SelectedSnoc | wasm/rust/src/lib.rs:322-328 | one more offer keeps "the first with the highest identity" true |
| Proteins.SelectedBound | wasm/rust/src/lib.rs:322 | the kept pair's identity is at least the initial one and at least every offered pair's |
| Proteins.ChosenFrames | wasm/rust/src/lib.rs:281-330 | the kept frames are below 3, and nothing is kept exactly when every scored pair has identity 0 |
| Proteins.NothingChosen | wasm/rust/src/lib.rs:281-330 | when nothing is kept, every scored pair has identity 0 |
| Proteins.ChosenIndex | wasm/rust/src/lib.rs:287-328 | the kept pair is offered at position `3*frame1 + frame2`; every earlier pair is strictly lower and no later pair is higher |
| Proteins.ChosenBest | wasm/rust/src/lib.rs:319-328 | a kept pair is a scored pair with identity above 0 and the highest identity of all nine; every pair before it in loop order is strictly lower |
| Proteins.ChosenUnbeaten | wasm/rust/src/lib.rs:322 | no scored pair has a higher identity than the kept one |
| Proteins.ChosenEarliest | wasm/rust/src/lib.rs:319-321 | every pair before the kept one in loop order scores strictly lower |
| Proteins.ScoredRate | wasm/rust/src/lib.rs:311-317 | a scored pair's identity is the one its own translations give |
| Proteins.ReportMask | wasm/rust/src/lib.rs:333-338 | the report's length is the shorter translation's; its mask compares the translations position by position; its mismatch count is the number of differing positions |
| Proteins.ProteinShape | wasm/rust/src/lib.rs:333-364 | frames below 3, length the shorter translation's, truncated exactly when the translations differ in length, offsets `(nucOffset + frame) / 3`, and a mask comparing the translations position by position |
| Proteins.ProteinScores | wasm/rust/src/lib.rs:316-341 | the mismatch count is the number of '?' in the mask; the identity is in [0, 1] and, for a nonempty result, is the mask's matching fraction |
| Proteins.ProteinNothingKept | wasm/rust/src/lib.rs:281-338 | the result is empty exactly when no pair scores above 0; it then has frames 0/0, empty translations and mask, no blocks, and offsets `nucOffset / 3` |
| Proteins.ProteinSelection | wasm/rust/src/lib.rs:287-330 | a nonempty result comes from a scored pair of frames with the highest identity, above 0, and the first such pair in loop order |
| Proteins.ProteinBlocks | wasm/rust/src/lib.rs:343-344 | the protein blocks are well-formed, grid-aligned and ordered, and absent exactly when no window of the mask is accepted |
| Proteins.WindowLongerThanRegion | wasm/rust/src/lib.rs:291-296 | a region shorter than one window of codons skips every pair: the empty result |

## Proof steps

Lemmas that carry one step of a loop or of a recursion from the code to its reference definition. They state no property of their own beyond that step.

| member | source | states |
|---|---|---|
| Symbols.IdentityOfAllMismatches | wasm/rust/src/lib.rs:90 | a region that mismatches everywhere has identity 0 |
| Blocks.RunsFromRejected | wasm/rust/src/lib.rs:98-109 | a rejected window contributes no block and ends no run |
| Blocks.RunsFromAccepted | wasm/rust/src/lib.rs:92-97 | an accepted window opens the block that runs to the end of its run |
| Blocks.WindowVerdict | wasm/rust/src/lib.rs:87-92 | the verdict on a window is `1 - count('?')/len >= minIdentity` over the clipped window |
| Blocks.ScanOpen | wasm/rust/src/lib.rs:93-97 | an accepted window opens a block at its own start |
| Blocks.ScanExtend | wasm/rust/src/lib.rs:97 | an accepted window extends the open block by its own contents |
| Blocks.ScanRejected | wasm/rust/src/lib.rs:98-109 | a rejected window closes the open block, if any, and emits it |
| Blocks.ScanStep | wasm/rust/src/lib.rs:86-111 | one pass of the window loop keeps the loop's correspondence with the reference blocks |
| Blocks.ScanFinished | wasm/rust/src/lib.rs:113-121 | saving the open block at the end yields exactly the reference blocks |
| Blocks.NoneSignificant | wasm/rust/src/lib.rs:127-128 | when no block reaches the threshold, the size filter keeps nothing and the input is returned |
| Blocks.Verdicts | wasm/rust/src/lib.rs:86-92 | one verdict per mask position: whether the window there reaches the identity threshold |
| Alignment.WinnerScan | wasm/rust/src/lib.rs:177 | the loop starts at shift `-len2 + minOverlap` |
| Alignment.ScanDone | wasm/rust/src/lib.rs:177 | past shift `len1 - minOverlap` the loop ends with what it kept |
| Alignment.ScanSkip | wasm/rust/src/lib.rs:182-184 | a shift overlapping by less than the minimum is skipped |
| Alignment.OfferedAt | wasm/rust/src/lib.rs:178-194 | the loop's starts, overlap length, mismatch count and identity are those of the shift |
| Alignment.WinnerReport | wasm/rust/src/lib.rs:211-219 | the result is built from the winner's starts, identity, length and mismatch count |
| Alignment.VisitStep | wasm/rust/src/lib.rs:186-208 | scoring a shift applies the replacement rule and stops the search on a perfect overlap |
| Proteins.TranslatedAt | wasm/rust/src/lib.rs:298-314 | the loop's translations of a pair that passes the length and position checks |
| Proteins.RatedAt | wasm/rust/src/lib.rs:316-317 | the loop's identity over the common prefix is the reference identity |
| Proteins.FrameStep | wasm/rust/src/lib.rs:319-328 | one pass of the inner loop advances the kept pair by one offered pair |
| Proteins.PickSnoc | wasm/rust/src/lib.rs:322-328 | offering one more pair is one more application of the replacement rule |
| Proteins.ChosenReport | wasm/rust/src/lib.rs:332-366 | the report built after all nine pairs is the reference result |
| Proteins.SpecOfChosen | wasm/rust/src/lib.rs:332-366 | the reference result is the report of the kept pair |
| Proteins.ScoresAt | wasm/rust/src/lib.rs:287-288 | pair `(frame1, frame2)` is offered in position `3*frame1 + frame2`: `frame1` outer, `frame2` inner |
| Proteins.SnocReplaces | wasm/rust/src/lib.rs:322-327 | a pair strictly above everything so far becomes the kept pair |
| Proteins.SnocKeeps | wasm/rust/src/lib.rs:322 | a pair that is not strictly higher leaves the kept pair unchanged |

## Left out

- Logging and the start-codon search (`wasm/rust/src/lib.rs` lines 249-275 and 350). The frames the search infers only feed log messages and never affect the result.
- WebAssembly bindings and JSON output. This covers `blocks_to_json` and the `format!` result strings: results are records. This includes the blocks' text, which is `from_utf8_lossy` of bytes below 256.
- Floating point. Identities, thresholds, `ceil` and the truncating `as usize` are exact reals with integer ceiling and floor. The f64 rounding is not modelled. In particular, a first overlap whose identity is exactly 0.01 is not kept by the exact-real rule, although f64 may round either way.
- Integer widths:
  - the `i32`/`usize` conversions and overflow are not modelled;
  - lengths are unbounded;
  - `nucOffset1`, `nucOffset2` and `nucLength` are required to be non-negative (`nat`), where the source casts a negative `i32` to a huge `usize`.
- Alignment.CompareSequencesFull: requires a positive minimum-overlap fraction, so two behaviours of the source for nonempty inputs are not modelled.
  - When the rounded-up minimum overlap (line 168) is 0, the first shift has an empty overlap, whose identity is 0/0. That NaN is never kept, and the loop stops there because the overlap has no mismatch. The source then returns length 0, `i32::MAX` mismatches and identity 0.
  - When the minimum overlap is negative (a fraction at or below `-1/min(len1, len2)`), the first shift has a negative overlap length that the guard at line 182 lets through. Its identity is 1, so it is kept and the loop stops. Slicing with that negative length at line 212 then panics. For example, lengths 1 and 1 with a fraction of -2 reach this.
- Blocks.FindConservedBlocks: requires a window size above 0 only for a nonempty mask. With 0 and a nonempty mask, the window loop at line 86 never advances.
- Alignment.CompareSequencesFull: requires a window size above 0 in every case. With 0, the source still returns whenever it never reaches the window loop: for an empty input (lines 162-164), and whenever the winning overlap, and so the mask, is empty.
- Proteins.CompareProteinsFull: requires a window size above 0 in every case. With 0, the source still returns whenever the mask is empty, which is whenever no frame pair is kept.
- Alignment.AlignmentMismatches: stated only for a first sequence without '?'. An input '?' that matches is counted as a mismatch by the mask count but not by the loop.
- Alignment.FindBestOffset, Alignment.VisitShift, Alignment.CountOverlapMismatches, Proteins.ScoreFramePair, Proteins.OfferFramePair, Proteins.ReportPair: these are parts of one source function (its loops and its tail) written as separate methods. The order of operations and the `break`/`continue` are kept.
- The '?' collision in general: inputs holding '?' are allowed everywhere, and only the mask-count lemmas exclude them.
