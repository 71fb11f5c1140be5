/** Go's integer operators where they differ from mathematical ones. */
module GoInt {

  const MAX_INT32 := 0x7fff_ffff
  const MIN_INT32 := -0x8000_0000
  const TWO_32 := 0x1_0000_0000

  const MAX_INT64 := 0x7fff_ffff_ffff_ffff
  const MIN_INT64 := -0x8000_0000_0000_0000
  const TWO_64 := 0x1_0000_0000_0000_0000

  /** Two's-complement wrap-around to 64 bits. */
  function Wrap64(x: int): (r: int)
    ensures MIN_INT64 <= r <= MAX_INT64
    ensures MIN_INT64 <= x <= MAX_INT64 ==> r == x
    decreases if x > MAX_INT64 then 1 + x - MAX_INT64 else if x < MIN_INT64 then MIN_INT64 - x else 0
  {
    if x > MAX_INT64 then Wrap64(x - TWO_64) else if x < MIN_INT64 then Wrap64(x + TWO_64) else x
  }

  /** Two's-complement wrap-around to 32 bits. */
  function Wrap32(x: int): (r: int)
    ensures MIN_INT32 <= r <= MAX_INT32
    ensures MIN_INT32 <= x <= MAX_INT32 ==> r == x
    decreases if x > MAX_INT32 then 1 + x - MAX_INT32 else if x < MIN_INT32 then MIN_INT32 - x else 0
  {
    if x > MAX_INT32 then Wrap32(x - TWO_32) else if x < MIN_INT32 then Wrap32(x + TWO_32) else x
  }

  /** Division truncates toward zero. */
  function Div(x: int, y: int): int
    requires y > 0
  {
    if x >= 0 then x / y else -(-x / y)
  }

  /** The remainder has the sign of the dividend. */
  function Rem(x: int, y: int): int
    requires y > 0
  {
    if x >= 0 then x % y else -(-x % y)
  }

  /** The remainder is zero exactly for multiples, whatever the signs. */
  lemma RemZero(x: int, y: int)
    requires y > 0
    ensures Rem(x, y) == 0 <==> x % y == 0
  {
    if x < 0 {
      var q := -x / y;
      assert -x == q * y + -x % y;
      assert -q * y == -(q * y);
      if -x % y == 0 {
        ModUnique(x, -q, 0, y);
      } else {
        assert (-q - 1) * y == -(q * y) - y;
        ModUnique(x, -q - 1, y - -x % y, y);
      }
    }
  }

  /** Adding in two wrapped steps is wrapping once. */
  lemma {:induction false} WrapAdd64(x: int, y: int)
    ensures Wrap64(Wrap64(x) + y) == Wrap64(x + y)
    decreases if x > MAX_INT64 then 1 + x - MAX_INT64 else if x < MIN_INT64 then MIN_INT64 - x else 0
  {
    if x > MAX_INT64 {
      WrapAdd64(x - TWO_64, y);
      WrapShift64(x - TWO_64 + y);
    } else if x < MIN_INT64 {
      WrapAdd64(x + TWO_64, y);
      WrapShift64(x + y);
    }
  }

  lemma {:induction false} WrapShift64(x: int)
    ensures Wrap64(x + TWO_64) == Wrap64(x)
  {
  }

  lemma {:induction false} WrapAdd32(x: int, y: int)
    ensures Wrap32(Wrap32(x) + y) == Wrap32(x + y)
    decreases if x > MAX_INT32 then 1 + x - MAX_INT32 else if x < MIN_INT32 then MIN_INT32 - x else 0
  {
    if x > MAX_INT32 {
      WrapAdd32(x - TWO_32, y);
      WrapShift32(x - TWO_32 + y);
    } else if x < MIN_INT32 {
      WrapAdd32(x + TWO_32, y);
      WrapShift32(x + y);
    }
  }

  lemma {:induction false} WrapShift32(x: int)
    ensures Wrap32(x + TWO_32) == Wrap32(x)
  {
  }

  /** Quotient and remainder are determined by their defining equation. */
  lemma ModUnique(x: int, q: int, r: int, m: int)
    requires m > 0 && x == q * m + r && 0 <= r < m
    ensures x / m == q && x % m == r
  {
    var q', r' := x / m, x % m;
    assert x == q' * m + r';
    assert (q - q') * m == r' - r;
    MulGap(q - q', m);
  }

  lemma MulGap(k: int, m: int)
    requires m > 0
    ensures k >= 1 ==> k * m >= m
    ensures k <= -1 ==> k * m <= -m
  {
  }
}
