/** Shared vocabulary of the comparison engine: bytes, the mismatch sentinel and small helpers. */
module Symbols {

  /** One byte of a sequence, written as the character with the same code (0..255). */
  type byte = c: char | c as int < 256

  /** The mask symbol that marks a mismatching position. */
  const MISMATCH: byte := '?'

  /** The largest value of the source's `i32`, used as the "no alignment yet" mismatch count. */
  const I32_MAX: int := 0x7FFF_FFFF

  datatype Option<+T> = None | Some(value: T)

  function Min(a: int, b: int): int
  {
    if a < b then a else b
  }

  function Abs(x: real): real
  {
    if x < 0.0 then -x else x
  }

  /** `x.ceil()` of an exact real. */
  function Ceil(x: real): (r: int)
    ensures x <= r as real < x + 1.0
  {
    -((-x).Floor)
  }

  /** Identity of a compared region: the fraction of its `len` positions that match. */
  function Identity(mismatches: nat, len: nat): (r: real)
    requires len > 0
    ensures r <= 1.0
    ensures r == 1.0 <==> mismatches == 0
  {
    1.0 - (mismatches as real) / (len as real)
  }

  lemma {:induction false} IdentityBounds(mismatches: nat, len: nat)
    requires 0 < len && mismatches <= len
    ensures 0.0 <= Identity(mismatches, len) <= 1.0
    ensures Identity(mismatches, len) == 1.0 <==> mismatches == 0
  {
    var q := (mismatches as real) / (len as real);
    assert q * (len as real) == mismatches as real;
    assert q <= 1.0 by {
      if q > 1.0 {
        assert q * (len as real) > 1.0 * (len as real);
      }
    }
  }

  lemma MulAtLeast(a: int, n: int)
    requires 1 <= a && 0 < n
    ensures n <= a * n
  {
  }

  /** Euclidean division leaves a unique remainder. */
  lemma ModUnique(x: int, q: int, r: int, n: int)
    requires 0 < n && 0 <= r < n && x == q * n + r
    ensures x % n == r
  {
    var q' := x / n;
    var r' := x % n;
    assert x == q' * n + r';
    assert (q - q') * n == r' - r;
    if q > q' {
      MulAtLeast(q - q', n);
    } else if q < q' {
      MulAtLeast(q' - q, n);
    }
  }

  lemma ModPlus(x: int, n: int)
    requires 0 < n
    ensures (x + n) % n == x % n
  {
    ModUnique(x + n, x / n + 1, x % n, n);
  }

  lemma IdentityOfAllMismatches(len: nat)
    requires 0 < len
    ensures Identity(len, len) == 0.0
  {
    var l := len as real;
    assert l / l == 1.0;
  }
}
