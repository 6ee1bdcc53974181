/** The fixed-width integers of the server: sums and differences wrap around. */
module Words {

  const M32 := 0x1_0000_0000
  const M64 := 0x1_0000_0000_0000_0000

  function Add64(a: nat, b: nat): (c: nat) { (a + b) % M64 }

  function Sub64(a: nat, b: nat): (c: nat) { (a - b) % M64 }

  function Add32(a: nat, b: nat): (c: nat) { (a + b) % M32 }

  function Sub32(a: nat, b: nat): (c: nat) { (a - b) % M32 }

  /** A 64-bit value cut down to a signed 32-bit one. */
  function ToInt32(v: nat): (i: int)
    ensures -0x8000_0000 <= i < 0x8000_0000
  {
    var low := v % M32;
    if low < 0x8000_0000 then low else low - M32
  }

  /** A signed 32-bit value widened to an unsigned 64-bit one, as a comparison with one does. */
  function FromInt32(i: int): (v: nat)
    requires -0x8000_0000 <= i < 0x8000_0000
    ensures v < M64
  {
    if 0 <= i then i else i + M64
  }

  lemma ModAdd(a: nat, b: nat, m: nat)
    requires 0 < m
    ensures (a % m + b) % m == (a + b) % m
  {
    var q := a / m;
    assert a == q * m + a % m;
    ModShift(a % m + b, q, m);
  }

  lemma ModSub(a: nat, b: nat, m: nat)
    requires 0 < m && b <= a
    ensures (a % m - b) % m == (a - b) % m
  {
    var q := a / m;
    assert a == q * m + a % m;
    ModShift(a % m - b, q, m);
  }

  lemma ModShift(x: int, q: int, m: nat)
    requires 0 < m
    ensures (x + q * m) % m == x % m
  {
    var k := x / m;
    assert x == k * m + x % m;
    assert x + q * m == (k + q) * m + x % m;
    DivUnique(x + q * m, k + q, x % m, m);
  }

  lemma DivUnique(x: int, k: int, r: int, m: int)
    requires 0 <= r < m && x == k * m + r
    ensures x % m == r
  {
    var d := x / m - k;
    assert x == (x / m) * m + x % m;
    assert d * m == r - x % m;
    assert -m < d * m < m;
  }
}
