/** The integer widths of the program, and the small result types used throughout. */
module Numbers {
  const TWO_TO_THE_128: int := 0x1_0000_0000_0000_0000_0000_0000_0000_0000
  const TWO_TO_THE_64: int := 0x1_0000_0000_0000_0000
  const INT_MAX: int := 0x7FFF_FFFF

  type uint128 = x: int | 0 <= x < TWO_TO_THE_128
  type uint64 = x: int | 0 <= x < TWO_TO_THE_64
  type uint8 = x: int | 0 <= x < 256
  type int8 = x: int | -128 <= x < 128

  /** Adding one to an unchecked 128-bit unsigned number. */
  function Next(offset: uint128): uint128 {
    (offset + 1) % TWO_TO_THE_128
  }

  /** Passing an `int` where a `uint8_t` is expected. */
  function NarrowToUint8(count: int): (narrow: uint8)
    ensures 0 <= count < 256 ==> narrow == count
    ensures (count - narrow) % 256 == 0
  {
    count % 256
  }

  datatype Option<+T> = None | Some(value: T)

  datatype Result<+T, +E> = Ok(value: T) | Err(error: E)

  lemma {:induction false} SmallRemainder(x: nat, m: nat)
    requires x < m
    ensures x % m == x
  {
    RemainderUnique(x, 0, x, m);
  }

  lemma {:induction false} NextOfModulus(n: nat)
    ensures Next(n % TWO_TO_THE_128) == (n + 1) % TWO_TO_THE_128
  {
    var q, r := n / TWO_TO_THE_128, n % TWO_TO_THE_128;
    assert n == q * TWO_TO_THE_128 + r;
    if r + 1 < TWO_TO_THE_128 {
      assert n + 1 == q * TWO_TO_THE_128 + (r + 1);
    } else {
      assert n + 1 == (q + 1) * TWO_TO_THE_128;
    }
  }

  lemma {:induction false} EqualRemainders(a: nat, b: nat, m: nat)
    requires a <= b && m > 0
    ensures a % m == b % m <==> (b - a) % m == 0
  {
    var qa, qb, qd := a / m, b / m, (b - a) / m;
    assert a == qa * m + a % m && b == qb * m + b % m && b - a == qd * m + (b - a) % m;
    if a % m == b % m {
      assert b - a == (qb - qa) * m;
      MultipleHasNoRemainder(qb - qa, m);
    }
    if (b - a) % m == 0 {
      assert b == (qd + qa) * m + a % m;
      RemainderUnique(b, qd + qa, a % m, m);
    }
  }

  lemma {:induction false} MultipleHasNoRemainder(q: int, m: nat)
    requires m > 0
    ensures (q * m) % m == 0
  {
    RemainderUnique(q * m, q, 0, m);
  }

  lemma {:induction false} RemainderUnique(x: int, q: int, r: nat, m: nat)
    requires m > 0 && r < m && x == q * m + r
    ensures x % m == r && x / m == q
  {
    var q', r' := x / m, x % m;
    assert x == q' * m + r' && 0 <= r' < m;
    if q > q' {
      assert q * m == q' * m + (q - q') * m;
      AtLeastOne(q - q', m);
    } else if q < q' {
      assert q' * m == q * m + (q' - q) * m;
      AtLeastOne(q' - q, m);
    }
  }

  lemma {:induction false} AtLeastOne(k: int, m: nat)
    requires k >= 1
    ensures k * m >= m
  {
    assert k * m == m + (k - 1) * m;
  }
}
