/** Fixed-width C integer types and the little-endian byte helpers the
    driver relies on when it stores through `uint16_t *` casts. */
module Bytes {

  type uint8 = x: int | 0 <= x < 0x100
  type uint16 = x: int | 0 <= x < 0x1_0000
  type uint32 = x: int | 0 <= x < 0x1_0000_0000
  type int32 = x: int | -0x8000_0000 <= x < 0x8000_0000

  /** `n` zero bytes. */
  function Zeros(n: nat): (r: seq<uint8>)
    ensures |r| == n
    ensures forall i :: 0 <= i < n ==> r[i] == 0
  {
    seq(n, _ => 0)
  }

  /** The two bytes a little-endian `uint16_t` store leaves in memory when it is
      given `v`: the value is first truncated to 16 bits, as C's conversion does. */
  function Le16(v: nat): (r: seq<uint8>)
    ensures |r| == 2
    ensures r[0] as int + 0x100 * r[1] as int == v % 0x1_0000
  {
    Le16Value(v);
    [v % 0x100, (v / 0x100) % 0x100]
  }

  /** The low byte and the next byte of `v` together make up its low 16 bits. */
  lemma Le16Value(v: nat)
    ensures v % 0x100 + 0x100 * ((v / 0x100) % 0x100) == v % 0x1_0000
  {
    var a, l := v / 0x100, v % 0x100;
    var q, h := a / 0x100, a % 0x100;
    assert v == 0x100 * a + l;
    assert a == 0x100 * q + h;
    assert v == 0x1_0000 * q + (0x100 * h + l);
    assert 0 <= 0x100 * h + l < 0x1_0000;
  }

  /** The value a little-endian `uint16_t` load reads at `off`. */
  function Get16(s: seq<uint8>, off: nat): (v: uint16)
    requires off + 2 <= |s|
  {
    s[off] as int + 0x100 * s[off + 1] as int
  }

  /** All bytes of `s` from `k` onward are zero. */
  ghost predicate ZeroFrom(s: seq<uint8>, k: nat)
  {
    forall i :: k <= i < |s| ==> s[i] == 0
  }

  /** A 16-bit store sees only the low 16 bits of what it is given. */
  lemma Le16Mod(v: nat)
    ensures Le16(v) == Le16(v % 0x1_0000)
  {
    var q, m := v / 0x1_0000, v % 0x1_0000;
    var a, l := m / 0x100, m % 0x100;
    DivMod256(m, a, l);
    DivMod256(v, 0x100 * q + a, l);
    DivMod256(0x100 * q + a, q, a);
    DivMod256(a, 0, a);
  }

  /** Quotient and remainder by 256 are the unique such decomposition. */
  lemma DivMod256(v: nat, q: nat, r: nat)
    requires r < 0x100 && v == 0x100 * q + r
    ensures v / 0x100 == q && v % 0x100 == r
  {
  }

  lemma Get16OfLe16(v: nat)
    ensures Get16(Le16(v), 0) == v % 0x1_0000
  {
  }
}
