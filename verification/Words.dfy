/** Machine words and the division facts that every other module rests on. */
module Words {
  const TWO32: nat := 0x1_0000_0000
  const TWO63: int := 0x8000_0000_0000_0000
  const TWO64: nat := 0x1_0000_0000_0000_0000
  const TWO128: nat := 0x1_0000_0000_0000_0000_0000_0000_0000_0000
  const U64_MAX: nat := 0xFFFF_FFFF_FFFF_FFFF

  type u64 = n: nat | n < 0x1_0000_0000_0000_0000

  datatype Option<+T> = None | Some(value: T)

  function Max(a: int, b: int): int {
    if a < b then b else a
  }

  function Abs(a: int): nat {
    if a < 0 then -a else a
  }

  /** `u64::try_from(n).unwrap_or(fallback)`. */
  function TryU64(n: nat, fallback: u64): u64 {
    if n <= U64_MAX then n else fallback
  }

  /** `a.wrapping_sub(b)` on 64-bit words. */
  function WrappingSub(a: u64, b: u64): u64 {
    (a - b) % TWO64
  }

  function SaturatingSub(a: u64, b: u64): u64 {
    if b <= a then a - b else 0
  }

  function CheckedAdd(a: u64, b: u64): Option<u64> {
    if a + b <= U64_MAX then Some(a + b) else None
  }

  function CheckedSub(a: u64, b: u64): Option<u64> {
    if b <= a then Some(a - b) else None
  }

  function CeilDiv(a: nat, d: nat): nat
    requires 0 < d
  {
    (a + d - 1) / d
  }

  lemma DivBounds(a: nat, d: nat)
    requires 0 < d
    ensures (a / d) * d <= a < (a / d) * d + d
  {
    assert a == d * (a / d) + a % d;
  }

  lemma MulLe(a: int, b: int, c: nat)
    requires a <= b
    ensures a * c <= b * c
  {
    assert 0 <= (b - a) * c;
  }

  /** The quotient is the largest `x` with `x * d <= a`. */
  lemma QuotientIsLargest(a: nat, d: nat, x: int)
    requires 0 < d
    ensures x * d <= a <==> x <= a / d
  {
    DivBounds(a, d);
    if x <= a / d {
      MulLe(x, a / d, d);
    } else {
      MulLe(a / d + 1, x, d);
    }
  }

  lemma QuotientMonotone(a: nat, b: nat, d: nat)
    requires 0 < d && a <= b
    ensures a / d <= b / d
  {
    DivBounds(a, d);
    QuotientIsLargest(b, d, a / d);
  }

  /** The rounded-up quotient is the smallest `x` with `a <= x * d`. */
  lemma CeilingIsSmallest(a: nat, d: nat, x: int)
    requires 0 < d
    ensures a <= x * d <==> CeilDiv(a, d) <= x
  {
    QuotientIsLargest(a + d - 1, d, x + 1);
    assert (x + 1) * d == x * d + d;
    DivBounds(a + d - 1, d);
    if CeilDiv(a, d) <= x {
      MulLe(CeilDiv(a, d), x, d);
    } else {
      MulLe(x + 1, CeilDiv(a, d), d);
    }
  }
}
