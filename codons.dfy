/** The codon translator: nucleotide triplets to one-letter amino-acid codes (lib.rs lines 7-42). */
module Codons {
  import opened Symbols

  /**
   * Amino acid of codon (i1, i2, i3) at index i1*16 + i2*4 + i3, with T=0, C=1, A=2, G=3.
   * Each 4-symbol chunk holds the codons sharing their first two bases.
   */
  const AMINO_ACIDS: seq<byte> := ROW_T + ROW_C + ROW_A + ROW_G

  /** The table's rows, one per first base. */
  const ROW_T: seq<byte> := "FFLL" + "SSSS" + "YY**" + "CC*W"
  const ROW_C: seq<byte> := "LLLL" + "PPPP" + "HHQQ" + "RRRR"
  const ROW_A: seq<byte> := "IIIM" + "TTTT" + "NNKK" + "SSRR"
  const ROW_G: seq<byte> := "VVVV" + "AAAA" + "DDEE" + "GGGG"

  /** The stop symbol and the symbol for a codon that is not made of nucleotides. */
  const STOP: byte := '*'
  const UNKNOWN: byte := 'X'

  /** Every symbol a translation can produce. */
  const AMINO_ALPHABET: seq<byte> := "ACDEFGHIKLMNPQRSTVWY*X"

  /**
   * Table index of a nucleotide symbol, in either case; None for any other byte.
   * NucToIndexSpells states which bytes are accepted and the index of each.
   */
  function NucToIndex(c: byte): (r: Option<nat>)
    ensures r.Some? ==> r.value < 4
  {
    match c
    case 'T' | 't' => Some(0)
    case 'C' | 'c' => Some(1)
    case 'A' | 'a' => Some(2)
    case 'G' | 'g' => Some(3)
    case _ => None
  }

  /** A codon of three nucleotides reads its table entry; any other codon gives 'X'. */
  function TranslateCodon(c1: byte, c2: byte, c3: byte): (r: byte)
    ensures !(IsNucleotide(c1) && IsNucleotide(c2) && IsNucleotide(c3)) ==> r == UNKNOWN
  {
    match (NucToIndex(c1), NucToIndex(c2), NucToIndex(c3))
    case (Some(i1), Some(i2), Some(i3)) => AMINO_ACIDS[i1 * 16 + i2 * 4 + i3]
    case _ => UNKNOWN
  }

  /** The four nucleotides. */
  datatype Nucleotide = T | C | A | G

  function Upper(n: Nucleotide): byte
  {
    match n
    case T => 'T'
    case C => 'C'
    case A => 'A'
    case G => 'G'
  }

  function Lower(n: Nucleotide): byte
  {
    match n
    case T => 't'
    case C => 'c'
    case A => 'a'
    case G => 'g'
  }

  /** `c` is nucleotide `n`, written in upper or lower case. */
  predicate Spells(c: byte, n: Nucleotide)
  {
    c == Upper(n) || c == Lower(n)
  }

  predicate IsNucleotide(c: byte)
  {
    c == 'T' || c == 'C' || c == 'A' || c == 'G' || c == 't' || c == 'c' || c == 'a' || c == 'g'
  }

  /**
   * The standard genetic code (NCBI translation table 1), written independently of the
   * table above in the usual codon-wheel layout: by second base, then first, then third.
   */
  function GeneticCode(first: Nucleotide, second: Nucleotide, third: Nucleotide): byte
  {
    var pyrimidine := third == T || third == C;
    match second
    case T =>
      (match first
       case T => if pyrimidine then 'F' else 'L'
       case C => 'L'
       case A => if third == G then 'M' else 'I'
       case G => 'V')
    case C =>
      (match first
       case T => 'S'
       case C => 'P'
       case A => 'T'
       case G => 'A')
    case A =>
      (match first
       case T => if pyrimidine then 'Y' else STOP
       case C => if pyrimidine then 'H' else 'Q'
       case A => if pyrimidine then 'N' else 'K'
       case G => if pyrimidine then 'D' else 'E')
    case G =>
      (match first
       case T => if pyrimidine then 'C' else if third == A then STOP else 'W'
       case C => 'R'
       case A => if pyrimidine then 'S' else 'R'
       case G => 'G')
  }

  /** Position of nucleotide `n` in the table's T, C, A, G order. */
  function Index(n: Nucleotide): nat
  {
    match n
    case T => 0
    case C => 1
    case A => 2
    case G => 3
  }

  /** The symbols accepted by the lookup are exactly the nucleotides, in either case. */
  lemma NucToIndexSpells(c: byte)
    ensures NucToIndex(c).Some? <==> IsNucleotide(c)
    ensures forall n :: Spells(c, n) ==> NucToIndex(c) == Some(Index(n))
  {
  }

  /** The nucleotide a symbol accepted by the lookup stands for. */
  lemma SpelledBy(c: byte) returns (n: Nucleotide)
    requires IsNucleotide(c)
    ensures Spells(c, n)
  {
    if c == 'T' || c == 't' {
      n := T;
    } else if c == 'C' || c == 'c' {
      n := C;
    } else if c == 'A' || c == 'a' {
      n := A;
    } else {
      n := G;
    }
  }

  /** The 16-codon row of the table for first base `n1`. */
  function Row(n1: Nucleotide): seq<byte>
  {
    AMINO_ACIDS[Index(n1) * 16..Index(n1) * 16 + 16]
  }

  /** Each row of the table, against the standard code. */
  lemma RowT(n2: Nucleotide, n3: Nucleotide)
    ensures Row(T)[Index(n2) * 4 + Index(n3)] == GeneticCode(T, n2, n3)
  {
    assert |ROW_T| == |ROW_C| == |ROW_A| == |ROW_G| == 16;
    assert Row(T) == ROW_T;
  }

  lemma RowC(n2: Nucleotide, n3: Nucleotide)
    ensures Row(C)[Index(n2) * 4 + Index(n3)] == GeneticCode(C, n2, n3)
  {
    assert |ROW_T| == |ROW_C| == |ROW_A| == |ROW_G| == 16;
    assert Row(C) == ROW_C;
  }

  lemma RowA(n2: Nucleotide, n3: Nucleotide)
    ensures Row(A)[Index(n2) * 4 + Index(n3)] == GeneticCode(A, n2, n3)
  {
    assert |ROW_T| == |ROW_C| == |ROW_A| == |ROW_G| == 16;
    assert Row(A) == ROW_A;
  }

  lemma RowG(n2: Nucleotide, n3: Nucleotide)
    ensures Row(G)[Index(n2) * 4 + Index(n3)] == GeneticCode(G, n2, n3)
  {
    assert |ROW_T| == |ROW_C| == |ROW_A| == |ROW_G| == 16;
    assert Row(G) == ROW_G;
  }

  lemma {:induction false} TableRow(n1: Nucleotide, n2: Nucleotide, n3: Nucleotide)
    ensures AMINO_ACIDS[Index(n1) * 16 + Index(n2) * 4 + Index(n3)] == GeneticCode(n1, n2, n3)
  {
    var k := Index(n2) * 4 + Index(n3);
    assert AMINO_ACIDS[Index(n1) * 16 + k] == Row(n1)[k];
    match n1
    case T => RowT(n2, n3);
    case C => RowC(n2, n3);
    case A => RowA(n2, n3);
    case G => RowG(n2, n3);
  }

  /** The lookup table agrees with the standard genetic code on all 64 codons, in either case. */
  lemma {:induction false} TranslateCodonIsGeneticCode(c1: byte, c2: byte, c3: byte, n1: Nucleotide, n2: Nucleotide, n3: Nucleotide)
    requires Spells(c1, n1) && Spells(c2, n2) && Spells(c3, n3)
    ensures TranslateCodon(c1, c2, c3) == GeneticCode(n1, n2, n3)
  {
    NucToIndexSpells(c1);
    NucToIndexSpells(c2);
    NucToIndexSpells(c3);
    TableRow(n1, n2, n3);
  }

  /** The standard code yields an amino acid or the stop symbol, never 'X' or the mismatch symbol. */
  lemma GeneticCodeInAlphabet(n1: Nucleotide, n2: Nucleotide, n3: Nucleotide)
    ensures GeneticCode(n1, n2, n3) in AMINO_ALPHABET
    ensures GeneticCode(n1, n2, n3) != UNKNOWN && GeneticCode(n1, n2, n3) != MISMATCH
  {
  }

  /** A codon translates to 'X' exactly when one of its symbols is not a nucleotide. */
  lemma TranslateCodonUnknown(c1: byte, c2: byte, c3: byte)
    ensures TranslateCodon(c1, c2, c3) == UNKNOWN <==> !(IsNucleotide(c1) && IsNucleotide(c2) && IsNucleotide(c3))
  {
    NucToIndexSpells(c1);
    NucToIndexSpells(c2);
    NucToIndexSpells(c3);
    if IsNucleotide(c1) && IsNucleotide(c2) && IsNucleotide(c3) {
      var n1 := SpelledBy(c1);
      var n2 := SpelledBy(c2);
      var n3 := SpelledBy(c3);
      TranslateCodonIsGeneticCode(c1, c2, c3, n1, n2, n3);
      GeneticCodeInAlphabet(n1, n2, n3);
    }
  }

  /** Every codon translates to one of the 20 amino acids, the stop symbol or 'X'. */
  lemma TranslateCodonInAlphabet(c1: byte, c2: byte, c3: byte)
    ensures TranslateCodon(c1, c2, c3) in AMINO_ALPHABET
    ensures TranslateCodon(c1, c2, c3) != MISMATCH
  {
    TranslateCodonUnknown(c1, c2, c3);
    if IsNucleotide(c1) && IsNucleotide(c2) && IsNucleotide(c3) {
      var n1 := SpelledBy(c1);
      var n2 := SpelledBy(c2);
      var n3 := SpelledBy(c3);
      TranslateCodonIsGeneticCode(c1, c2, c3, n1, n2, n3);
      GeneticCodeInAlphabet(n1, n2, n3);
    }
  }

  /** ATG codes for methionine; TAA, TAG and TGA are the stop codons. */
  lemma StartAndStopCodons()
    ensures TranslateCodon('A', 'T', 'G') == 'M'
    ensures TranslateCodon('T', 'A', 'A') == STOP
    ensures TranslateCodon('T', 'A', 'G') == STOP
    ensures TranslateCodon('T', 'G', 'A') == STOP
    ensures forall n1, n2, n3 :: GeneticCode(n1, n2, n3) == STOP <==>
      (n1, n2, n3) in {(T, A, A), (T, A, G), (T, G, A)}
  {
  }

  /** `s` read in consecutive triplets from its start; one or two trailing symbols are dropped. */
  function Translation(s: seq<byte>): (aa: seq<byte>)
    ensures |aa| == |s| / 3
  {
    if |s| < 3 then [] else [TranslateCodon(s[0], s[1], s[2])] + Translation(s[3..])
  }

  /** Entry i of a translation is the amino acid of the i-th codon. */
  lemma {:induction false} TranslationAt(s: seq<byte>, i: nat)
    requires i < |s| / 3
    ensures Translation(s)[i] == TranslateCodon(s[3 * i], s[3 * i + 1], s[3 * i + 2])
  {
    var rest := s[3..];
    assert Translation(s) == [TranslateCodon(s[0], s[1], s[2])] + Translation(rest);
    if i > 0 {
      TranslationAt(rest, i - 1);
      var j := 3 * (i - 1);
      assert j + 3 == 3 * i;
      assert rest[j] == s[j + 3] && rest[j + 1] == s[j + 4] && rest[j + 2] == s[j + 5];
    }
  }

  /** Translation distributes over concatenation at a codon boundary. */
  lemma {:induction false} TranslationAppend(s: seq<byte>, t: seq<byte>)
    requires |s| % 3 == 0
    ensures Translation(s + t) == Translation(s) + Translation(t)
  {
    if |s| == 0 {
      assert s + t == t;
    } else {
      var rest, st := s[3..], s + t;
      assert |s| >= 3 && |rest| % 3 == 0;
      assert st[0] == s[0] && st[1] == s[1] && st[2] == s[2];
      assert st[3..] == rest + t;
      TranslationAppend(rest, t);
    }
  }

  /** One or two symbols after the last whole codon do not change the translation. */
  lemma TranslationDropsTrailing(s: seq<byte>, tail: seq<byte>)
    requires |s| % 3 == 0 && |tail| < 3
    ensures Translation(s + tail) == Translation(s)
  {
    TranslationAppend(s, tail);
  }

  /** A translation never contains the mask's mismatch symbol. */
  lemma {:induction false} TranslationHasNoMismatch(s: seq<byte>)
    ensures MISMATCH !in Translation(s)
  {
    if |s| >= 3 {
      TranslateCodonInAlphabet(s[0], s[1], s[2]);
      TranslationHasNoMismatch(s[3..]);
    }
  }

  /** translate_dna_internal: the codon loop, proved to compute the translation. */
  method TranslateDna(s: seq<byte>) returns (aa: seq<byte>)
    ensures aa == Translation(s)
  {
    var codonCount := |s| / 3;
    aa := [];
    for i := 0 to codonCount
      invariant |aa| == i
      invariant forall k | 0 <= k < i :: aa[k] == TranslateCodon(s[3 * k], s[3 * k + 1], s[3 * k + 2])
    {
      var pos := i * 3;
      aa := aa + [TranslateCodon(s[pos], s[pos + 1], s[pos + 2])];
    }
    forall k | 0 <= k < codonCount
      ensures aa[k] == Translation(s)[k]
    {
      TranslationAt(s, k);
    }
  }
}
