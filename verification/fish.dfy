/**
 * The parts of the fishnet API header that the L3 engine relies on: the
 * fixed-width integer types, the address types, the protocol constants and the
 * two link-layer address predicates.
 *
 * Multi-byte values are laid out in memory in host byte order; this model fixes
 * the host as little-endian (the least significant byte at the lowest address).
 */
module Fish {

  /** The C fixed-width unsigned integer types. */
  type u8 = x: int | 0 <= x < 0x100
  type u16 = x: int | 0 <= x < 0x1_0000
  type u32 = x: int | 0 <= x < 0x1_0000_0000

  /** fnaddr_t: a fishnet L3 address. */
  type Addr = u32

  /** Largest total packet length on the wire (unused by the L3 engine itself). */
  const MTU: int := 1500

  /** Largest hop budget a frame may carry. */
  const MAX_TTL: u8 := 64

  /** The L3 broadcast address, htonl(0xFFFFFFFF); see AllNeighborsUnaffectedByHtonl. */
  const ALL_NEIGHBORS: Addr := 0xFFFF_FFFF

  /** The four bytes of a 32-bit value as they lie in (little-endian) memory. */
  function Le32(x: u32): (b: seq<u8>)
    ensures |b| == 4
  {
    [x % 0x100, (x / 0x100) % 0x100, (x / 0x1_0000) % 0x100, x / 0x100_0000]
  }

  /** The 32-bit value stored in four bytes of (little-endian) memory. */
  function FromLe32(b: seq<u8>): (r: u32)
    requires |b| == 4
  {
    b[0] as int + 0x100 * b[1] as int + 0x1_0000 * b[2] as int + 0x100_0000 * b[3] as int
  }

  /** Reading back what was stored gives the stored value. */
  lemma {:induction false} Le32RoundTrip(x: u32)
    ensures FromLe32(Le32(x)) == x
  {
    var q1 := x / 0x100;
    var q2 := q1 / 0x100;
    assert x == x % 0x100 + 0x100 * q1;
    assert q1 == q1 % 0x100 + 0x100 * q2;
    assert q2 == q2 % 0x100 + 0x100 * (q2 / 0x100);
    assert q2 == x / 0x1_0000;
    assert q2 / 0x100 == x / 0x100_0000;
  }

  /** Division by 256 of a value given as a low byte plus a multiple of 256. */
  lemma ByteDivMod(n: int, low: int, q: int)
    requires 0 <= low < 0x100 && 0 <= q && n == low + 0x100 * q
    ensures n % 0x100 == low && n / 0x100 == q
  {
  }

  /** Storing what was read back gives the same four bytes. */
  lemma {:induction false} FromLe32RoundTrip(b: seq<u8>)
    requires |b| == 4
    ensures Le32(FromLe32(b)) == b
  {
    var x: int := FromLe32(b);
    var q2: int := b[2] as int + 0x100 * b[3] as int;
    var q1: int := b[1] as int + 0x100 * q2;
    ByteDivMod(x, b[0], q1);
    ByteDivMod(q1, b[1], q2);
    ByteDivMod(q2, b[2], b[3]);
    assert x / 0x1_0000 == q1 / 0x100;
    assert x / 0x100_0000 == q2 / 0x100;
  }

  /** Two 32-bit values are equal exactly when their stored bytes are. */
  lemma Le32Injective(x: u32, y: u32)
    ensures Le32(x) == Le32(y) <==> x == y
  {
    if Le32(x) == Le32(y) {
      Le32RoundTrip(x);
      Le32RoundTrip(y);
    }
  }

  /** htonl on a little-endian host: the stored bytes in reverse order. */
  function Htonl(x: u32): (r: u32)
    ensures Le32(r) == [Le32(x)[3], Le32(x)[2], Le32(x)[1], Le32(x)[0]]
  {
    var b := Le32(x);
    FromLe32RoundTrip([b[3], b[2], b[1], b[0]]);
    FromLe32([b[3], b[2], b[1], b[0]])
  }

  /** The broadcast address has four equal bytes, so htonl does not change it. */
  lemma AllNeighborsUnaffectedByHtonl()
    ensures Htonl(ALL_NEIGHBORS) == ALL_NEIGHBORS
  {
    Le32Injective(Htonl(ALL_NEIGHBORS), ALL_NEIGHBORS);
  }

  /** fn_l2addr_t: six link-layer address bytes. */
  type L2Addr = s: seq<u8> | |s| == 6 witness [0, 0, 0, 0, 0, 0]

  /** memcmp(a, b, n) == 0: the first n bytes agree. */
  function MemEq(a: seq<u8>, b: seq<u8>, n: nat): (r: bool)
    requires n <= |a| && n <= |b|
    ensures r <==> a[..n] == b[..n]
  {
    if n == 0 then true
    else
      assert a[..n] == a[..n - 1] + [a[n - 1]] && b[..n] == b[..n - 1] + [b[n - 1]];
      MemEq(a, b, n - 1) && a[n - 1] == b[n - 1]
  }

  /** FNL2_EQ: two link-layer addresses are the same address. */
  function L2Eq(x: L2Addr, y: L2Addr): (r: bool)
    ensures r <==> x == y
    ensures r <==> forall i :: 0 <= i < 6 ==> x[i] == y[i]
  {
    assert x[..6] == x && y[..6] == y;
    MemEq(x, y, 6)
  }

  /** FNL2_VALID: an address is valid unless all six bytes are zero. */
  function L2Valid(x: L2Addr): (r: bool)
    ensures r <==> x != [0, 0, 0, 0, 0, 0]
    ensures r <==> exists i :: 0 <= i < 6 && x[i] != 0
  {
    x[0] != 0 || x[1] != 0 || x[2] != 0 || x[3] != 0 || x[4] != 0 || x[5] != 0
  }
}
