/**
 * Bytes and the little-endian integer encoding of a 64-bit x86 target:
 * an n-byte integer store writes its value modulo 256^n, least
 * significant byte first.
 */
module Bytes {

  newtype byte = x: int | 0 <= x < 256

  function Pow256(n: nat): (r: nat)
    ensures r > 0
  {
    if n == 0 then 1 else 256 * Pow256(n - 1)
  }

  /** The n bytes an n-byte integer store writes for `v` (two's complement for negatives). */
  function ToLE(v: int, n: nat): (r: seq<byte>)
    ensures |r| == n
    decreases n
  {
    if n == 0 then [] else [(v % 256) as byte] + ToLE(v / 256, n - 1)
  }

  /** The unsigned value an n-byte load reads from `b`. */
  function FromLE(b: seq<byte>): (r: nat)
    ensures r < Pow256(|b|)
  {
    if b == [] then 0 else b[0] as nat + 256 * FromLE(b[1..])
  }

  /** The signed (two's complement) value of the unsigned n-byte reading `u`. */
  function ToSigned(u: nat, n: nat): int
    requires 0 < n
  {
    if u >= Pow256(n) / 2 then u - Pow256(n) else u
  }

  /** Euclidean division is unique: a witness decomposition is the remainder. */
  lemma ModUnique(v: int, m: int, a: int, b: int)
    requires 0 < m && v == a * m + b && 0 <= b < m
    ensures v % m == b && v / m == a
  {
    var k := a - v / m;
    assert k * m == v % m - b;
  }

  lemma ModSplit(v: int, p: int)
    requires 0 < p
    ensures v % (256 * p) == v % 256 + 256 * ((v / 256) % p)
  {
    var q, r := v / 256, v % 256;
    var q2, r2 := q / p, q % p;
    assert v == q2 * (256 * p) + (256 * r2 + r);
    ModUnique(v, 256 * p, q2, 256 * r2 + r);
  }

  /** Loading what an n-byte store wrote gives the stored value modulo 256^n. */
  lemma {:induction false} FromToLE(v: int, n: nat)
    ensures FromLE(ToLE(v, n)) == v % Pow256(n)
    decreases n
  {
    if n > 0 {
      var b := ToLE(v, n);
      assert b[0] as nat == v % 256;
      assert b[1..] == ToLE(v / 256, n - 1);
      FromToLE(v / 256, n - 1);
      ModSplit(v, Pow256(n - 1));
      calc {
        FromLE(b);
        b[0] as nat + 256 * FromLE(b[1..]);
        v % 256 + 256 * ((v / 256) % Pow256(n - 1));
        v % Pow256(n);
      }
    }
  }

  /** Storing what an n-byte load read writes back the same bytes. */
  lemma {:induction false} ToFromLE(b: seq<byte>)
    ensures ToLE(FromLE(b), |b|) == b
  {
    if b != [] {
      var v := FromLE(b);
      ModUnique(v, 256, FromLE(b[1..]), b[0] as nat);
      ToFromLE(b[1..]);
    }
  }

  /** Reducing modulo 256^n does not change the bytes an n-byte store writes. */
  lemma StoreIgnoresHighBits(v: int, n: nat)
    ensures ToLE(v % Pow256(n), n) == ToLE(v, n)
  {
    FromToLE(v, n);
    ToFromLE(ToLE(v, n));
  }

  /** A value in the signed range of n bytes survives a store and a signed load. */
  lemma SignedRoundTrip(v: int, n: nat)
    requires 0 < n && -(Pow256(n) / 2) <= v < Pow256(n) / 2
    ensures ToSigned(FromLE(ToLE(v, n)), n) == v
  {
    FromToLE(v, n);
    if v < 0 {
      ModUnique(v, Pow256(n), -1, v + Pow256(n));
    } else {
      ModUnique(v, Pow256(n), 0, v);
    }
  }

  /** A value in the unsigned range of n bytes survives a store and an unsigned load. */
  lemma UnsignedRoundTrip(v: int, n: nat)
    requires 0 <= v < Pow256(n)
    ensures FromLE(ToLE(v, n)) == v
  {
    FromToLE(v, n);
    ModUnique(v, Pow256(n), 0, v);
  }

  /** More bytes hold at least as many values. */
  lemma {:induction false} Pow256Monotone(a: nat, b: nat)
    requires a <= b
    ensures Pow256(a) <= Pow256(b)
    decreases b
  {
    if a < b {
      Pow256Monotone(a, b - 1);
    }
  }

  /** Storing the signed reading of `b` writes `b` back. */
  lemma SignedLoadStore(b: seq<byte>)
    requires 0 < |b|
    ensures ToLE(ToSigned(FromLE(b), |b|), |b|) == b
  {
    ToFromLE(b);
    SignedStoreSame(FromLE(b), |b|);
  }

  /** An n-byte store writes the same bytes for an unsigned reading and its signed reading. */
  lemma SignedStoreSame(u: nat, n: nat)
    requires 0 < n && u < Pow256(n)
    ensures ToLE(ToSigned(u, n), n) == ToLE(u, n)
  {
    var p: int := Pow256(n);
    if u >= p / 2 {
      assert ToSigned(u, n) == u - p;
      ModUnique(u - p, p, -1, u);
      StoreIgnoresHighBits(u - p, n);
    }
  }
}
