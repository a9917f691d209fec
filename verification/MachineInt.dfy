/** The machine integers the C and C++ sources compute with. */
module MachineInt {
  const UINT: int := 0x1_0000_0000               // 2^32, the values of an unsigned int
  const WORD: int := 0x1_0000_0000_0000_0000     // 2^64, the values of a size_t
  const HALF_UINT: int := 0x8000_0000
  const HALF_WORD: int := 0x8000_0000_0000_0000
  const INT_MAX: int := 0x7fff_ffff

  predicate IsInt(x: int) {
    -HALF_UINT <= x < HALF_UINT
  }

  predicate IsLong(x: int) {
    -HALF_WORD <= x < HALF_WORD
  }

  // Conversions to long, int and short wrap.
  function ToLong(x: int): (r: int)
    ensures IsLong(r)
  {
    (x + HALF_WORD) % WORD - HALF_WORD
  }

  function ToInt(x: int): (r: int)
    ensures IsInt(r)
  {
    (x + HALF_UINT) % UINT - HALF_UINT
  }

  function ToShort(x: int): (r: int)
    ensures -0x8000 <= r < 0x8000
  {
    (x + 0x8000) % 0x1_0000 - 0x8000
  }

  // The result differs from the argument by a multiple of 2^64, 2^32 and 2^16.
  lemma ConversionsWrap(x: int)
    ensures -0x8000_0000_0000_0000 <= ToLong(x) < 0x8000_0000_0000_0000
    ensures -0x8000_0000 <= ToInt(x) < 0x8000_0000 && -0x8000 <= ToShort(x) < 0x8000
    ensures exists k :: ToLong(x) == x + k * 0x1_0000_0000_0000_0000
    ensures exists k :: ToInt(x) == x + k * 0x1_0000_0000
    ensures exists k :: ToShort(x) == x + k * 0x1_0000
  {
    assert ToLong(x) == x + -((x + HALF_WORD) / WORD) * WORD;
    assert ToInt(x) == x + -((x + HALF_UINT) / UINT) * UINT;
    assert ToShort(x) == x + -((x + 0x8000) / 0x1_0000) * 0x1_0000;
  }

  // Quotient and remainder are the only ones of their kind.
  lemma QuotientUnique(y: int, m: int, q: int, r: int)
    requires m > 0 && 0 <= r < m && y == q * m + r
    ensures y / m == q && y % m == r
  {
    var d := y / m - q;
    assert y % m - r == -d * m;
    assert d >= 1 ==> d * m >= m;
    assert d <= -1 ==> d * m <= -m;
  }
}
