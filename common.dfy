// Shared vocabulary of the model: bytes, optional values, results and the
// little-endian integer layout used by every on-disk record format.

module Common {

  /** One octet, as the `u8` of the original program. */
  type byte = b: int | 0 <= b < 256

  const U32_LIMIT: nat := 0x1_0000_0000
  const U64_LIMIT: nat := 0x1_0000_0000_0000_0000

  /** An unsigned 32-bit value. */
  type u32 = n: nat | n < U32_LIMIT

  /** An unsigned 64-bit value. */
  type u64 = n: nat | n < U64_LIMIT

  datatype Option<T> = None | Some(value: T)
  {
    /** `Option::unwrap_or`. */
    function GetOr(default: T): T
    {
      match this
      case None => default
      case Some(v) => v
    }
  }

  datatype Result<T, E> = Ok(value: T) | Err(error: E)

  function Min(a: int, b: int): int { if a <= b then a else b }

  function Max(a: int, b: int): int { if a >= b then a else b }

  function AbsDiff(a: int, b: int): nat { if a >= b then a - b else b - a }

  /** Distributing a product over a successor, kept apart because it is nonlinear. */
  lemma MulSucc(a: nat, m: nat)
    ensures (a + 1) * m == a * m + m
  {
  }

  /** A product of naturals is a natural; stated apart so that callers need no nonlinear search. */
  lemma MulNat(a: nat, b: nat)
    ensures a * b >= 0
  {
  }

  /** Multiplying by the same factor keeps the order. */
  lemma MulMono(a: nat, b: nat, m: nat)
    requires a <= b
    ensures a * m <= b * m
  {
  }

  /** Adding to a value already reduced modulo 2^64 reduces like adding to the whole value. */
  lemma WrapAdd(a: nat, b: nat)
    ensures (a % U64_LIMIT + b) % U64_LIMIT == (a + b) % U64_LIMIT
  {
  }

  /** A product with a positive factor cancels: x * k < (y + 1) * k means x <= y. */
  lemma MulCancel(x: nat, y: nat, k: nat)
    requires k > 0 && x * k < (y + 1) * k
    ensures x <= y
  {
  }

  /** The quotient of p by k is the largest q with q * k <= p. */
  lemma DivBounds(p: nat, k: nat)
    requires k > 0
    ensures (p / k) * k <= p < (p / k + 1) * k
  {
  }

  /** Division by a positive number keeps the order. */
  lemma DivMono(a: nat, b: nat, k: nat)
    requires a <= b && k > 0
    ensures a / k <= b / k
  {
    var qa, qb := a / k, b / k;
    DivBounds(a, k);
    DivBounds(b, k);
    assert qa * k < (qb + 1) * k;
    MulCancel(qa, qb, k);
  }

  lemma MulDivCancel(d: nat, k: nat)
    requires k > 0
    ensures (d * k) / k == d
  {
    var p := d * k;
    var q := p / k;
    DivBounds(p, k);
    assert q * k < (d + 1) * k by { assert (d + 1) * k == p + k; }
    MulCancel(q, d, k);
    assert d * k < (q + 1) * k by { assert (q + 1) * k == q * k + k; }
    MulCancel(d, q, k);
  }

  /** 256 to the power k: the number of values that fit in k bytes. */
  function Pow256(k: nat): (p: nat)
    ensures p >= 1
  {
    if k == 0 then 1 else 256 * Pow256(k - 1)
  }

  /** The k-byte little-endian encoding of n (`to_le_bytes`). */
  function LeBytes(n: nat, k: nat): (s: seq<byte>)
    requires n < Pow256(k)
  {
    if k == 0 then [] else [n % 256] + LeBytes(n / 256, k - 1)
  }

  /** The value of a little-endian byte string (`from_le_bytes`). */
  function FromLe(s: seq<byte>): (n: nat)
  {
    if |s| == 0 then 0 else s[0] + 256 * FromLe(s[1..])
  }

  /** Decoding an encoding gives back the number, and the encoding has exactly k bytes. */
  lemma {:induction false} LeRoundTrip(n: nat, k: nat)
    requires n < Pow256(k)
    ensures |LeBytes(n, k)| == k
    ensures FromLe(LeBytes(n, k)) == n
  {
    if k > 0 {
      LeRoundTrip(n / 256, k - 1);
      assert LeBytes(n, k)[1..] == LeBytes(n / 256, k - 1);
    }
  }

  /** A k-byte string never decodes to a value that does not fit in k bytes. */
  lemma {:induction false} FromLeBound(s: seq<byte>)
    ensures FromLe(s) < Pow256(|s|)
  {
    if |s| > 0 {
      FromLeBound(s[1..]);
    }
  }

  lemma Pow256Values()
    ensures Pow256(4) == U32_LIMIT
    ensures Pow256(8) == U64_LIMIT
  {
    assert Pow256(1) == 256;
    assert Pow256(2) == 65536;
    assert Pow256(4) == 256 * (256 * Pow256(2));
    assert Pow256(8) == 256 * (256 * (256 * (256 * Pow256(4))));
  }

  /** The concatenation of a list of byte strings. */
  function Flatten(parts: seq<seq<byte>>): (s: seq<byte>)
  {
    if |parts| == 0 then [] else parts[0] + Flatten(parts[1..])
  }

  lemma {:induction false} FlattenAppend(a: seq<seq<byte>>, b: seq<seq<byte>>)
    ensures Flatten(a + b) == Flatten(a) + Flatten(b)
  {
    if |a| == 0 {
      assert a + b == b;
    } else {
      assert (a + b)[1..] == a[1..] + b;
      FlattenAppend(a[1..], b);
    }
  }
}
