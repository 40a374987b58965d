/** Bytes and the fixed-width integer layouts every other module builds on. */
module Bytes {

  /** One octet of a byte region. */
  type byte = x: int | 0 <= x < 256

  /** The IEEE-754 bit pattern of a binary32 or binary64 number, as the
      little-endian bytes a DataView float store writes. */
  type Bits32 = s: seq<byte> | |s| == 4 witness [0, 0, 0, 0]
  type Bits64 = s: seq<byte> | |s| == 8 witness [0, 0, 0, 0, 0, 0, 0, 0]

  function Pow256(n: nat): (r: int)
    ensures r > 0
  {
    if n == 0 then 1 else 256 * Pow256(n - 1)
  }

  /** The n bytes of v, least significant first. With Euclidean division these are
      the bytes of v modulo 256^n, two's complement for negative v: what a DataView
      store of width n writes for an integral number, signed or unsigned. */
  function LE(v: int, n: nat): (r: seq<byte>)
    ensures |r| == n
    decreases n
  {
    if n == 0 then [] else [v % 256] + LE(v / 256, n - 1)
  }

  /** The same n bytes, most significant first. */
  function BE(v: int, n: nat): (r: seq<byte>)
    ensures |r| == n
    decreases n
  {
    if n == 0 then [] else BE(v / 256, n - 1) + [v % 256]
  }

  /** The unsigned number a little-endian byte sequence denotes. */
  function FromLE(s: seq<byte>): (r: int)
    ensures 0 <= r < Pow256(|s|)
  {
    if s == [] then 0 else s[0] + 256 * FromLE(s[1..])
  }

  /** The unsigned number a big-endian byte sequence denotes. */
  function FromBE(s: seq<byte>): (r: int)
    ensures 0 <= r < Pow256(|s|)
  {
    if s == [] then 0 else 256 * FromBE(s[..|s| - 1]) + s[|s| - 1]
  }

  /** The two's-complement reading of an n-byte unsigned value u. */
  function Signed(u: int, n: nat): int
  {
    if 2 * u >= Pow256(n) then u - Pow256(n) else u
  }

  function Reverse(s: seq<byte>): (r: seq<byte>)
    ensures |r| == |s|
    ensures forall i :: 0 <= i < |s| ==> r[i] == s[|s| - 1 - i]
  {
    if s == [] then [] else Reverse(s[1..]) + [s[0]]
  }

  function Zeros(n: nat): (r: seq<byte>)
    ensures |r| == n && forall i :: 0 <= i < n ==> r[i] == 0
  {
    if n == 0 then [] else Zeros(n - 1) + [0]
  }

  /** Any run of a zeroed region is zeroed. */
  lemma ZerosSlice(n: nat, i: nat, j: nat)
    requires i <= j <= n
    ensures Zeros(n)[i..j] == Zeros(j - i)
  {
  }

  /** Storing bytes at the start of a zeroed run leaves the rest of the run zeroed. */
  lemma FillZeros(prefix: seq<byte>, bytes: seq<byte>, k: nat)
    requires |bytes| <= k
    ensures
      var s := prefix + Zeros(k);
      s[..|prefix|] + bytes + s[|prefix| + |bytes|..] == prefix + bytes + Zeros(k - |bytes|)
  {
    var s := prefix + Zeros(k);
    assert s[..|prefix|] == prefix;
    assert s[|prefix| + |bytes|..] == Zeros(k)[|bytes|..];
    ZerosSlice(k, |bytes|, k);
  }

  /** A zeroed run is a zero byte followed by a shorter zeroed run. */
  lemma ZerosCons(k: nat)
    ensures Zeros(k + 1) == [0] + Zeros(k)
  {
  }

  /** Euclidean division is unique: the quotient and remainder a caller exhibits are the ones. */
  lemma DivModUnique(v: int, m: int, q: int, r: int)
    requires 0 < m && v == m * q + r && 0 <= r < m
    ensures v / m == q && v % m == r
  {
    var q', r' := v / m, v % m;
    assert m * (q - q') == r' - r;
    if q > q' {
      MulAtLeast(m, q - q');
    } else if q < q' {
      MulAtLeast(m, q' - q);
    }
  }

  lemma MulAtLeast(m: int, k: int)
    requires 0 < m && 1 <= k
    ensures m * k >= m
  {
    assert m * k == m + m * (k - 1);
  }

  /** Byte k of the layout is the k-th base-256 digit of v. */
  lemma {:induction false} LEDigit(v: int, n: nat, k: nat)
    requires k < n
    ensures LE(v, n)[k] == (v / Pow256(k)) % 256
    decreases k
  {
    if k > 0 {
      LEDigit(v / 256, n - 1, k - 1);
      ModSplit(v, Pow256(k - 1));
    }
  }

  /** Splitting v modulo 256 * p into its low byte and the rest; dividing by
      256 and then by p is dividing by 256 * p. */
  lemma ModSplit(v: int, p: int)
    requires p > 0
    ensures v % (256 * p) == v % 256 + 256 * ((v / 256) % p)
    ensures v / (256 * p) == (v / 256) / p
  {
    var q, a, b := v / 256, (v / 256) / p, (v / 256) % p;
    assert q == p * a + b;
    assert v == (256 * p) * a + (256 * b + v % 256);
    DivModUnique(v, 256 * p, a, 256 * b + v % 256);
  }

  /** Decoding the little-endian bytes of v gives v modulo 256^n. */
  lemma {:induction false} LERoundTrip(v: int, n: nat)
    ensures FromLE(LE(v, n)) == v % Pow256(n)
    decreases n
  {
    if n > 0 {
      LERoundTrip(v / 256, n - 1);
      assert LE(v, n)[1..] == LE(v / 256, n - 1);
      ModSplit(v, Pow256(n - 1));
    }
  }

  /** Encoding what a byte sequence denotes gives the sequence back. */
  lemma {:induction false} FromLERoundTrip(s: seq<byte>)
    ensures LE(FromLE(s), |s|) == s
  {
    if s != [] {
      var x := FromLE(s[1..]);
      DivModUnique(FromLE(s), 256, x, s[0]);
      FromLERoundTrip(s[1..]);
    }
  }

  /** Only v modulo 256^n matters to its n-byte layout. */
  lemma LEMod(v: int, n: nat)
    ensures LE(v, n) == LE(v % Pow256(n), n)
  {
    LERoundTrip(v, n);
    FromLERoundTrip(LE(v, n));
  }

  /** The two-byte case the packet headers use. */
  lemma U16RoundTrip(v: int)
    ensures FromLE(LE(v, 2)) == v % 0x1_0000
    ensures 0 <= v < 0x1_0000 ==> FromLE(LE(v, 2)) == v
  {
    LERoundTrip(v, 2);
    assert Pow256(2) == 0x1_0000;
    if 0 <= v < 0x1_0000 {
      DivModUnique(v, 0x1_0000, 0, v);
    }
  }

  /** The big-endian layout is the little-endian one reversed. */
  lemma {:induction false} BEIsReversedLE(v: int, n: nat)
    ensures BE(v, n) == Reverse(LE(v, n))
    decreases n
  {
    if n > 0 {
      BEIsReversedLE(v / 256, n - 1);
    }
  }

  /** Decoding the big-endian bytes of v gives v modulo 256^n. */
  lemma {:induction false} BERoundTrip(v: int, n: nat)
    ensures FromBE(BE(v, n)) == v % Pow256(n)
    decreases n
  {
    if n > 0 {
      var s := BE(v, n);
      assert s[..n - 1] == BE(v / 256, n - 1);
      BERoundTrip(v / 256, n - 1);
      ModSplit(v, Pow256(n - 1));
    }
  }

  /** In-range signed values survive a store and a signed load of the same width. */
  lemma SignedRoundTrip(v: int, n: nat)
    requires n > 0 && -Pow256(n) <= 2 * v < Pow256(n)
    ensures Signed(FromLE(LE(v, n)), n) == v
  {
    LERoundTrip(v, n);
    if v < 0 {
      DivModUnique(v, Pow256(n), -1, v + Pow256(n));
    } else {
      DivModUnique(v, Pow256(n), 0, v);
    }
  }

  /** Stores bytes into a region at an offset (a DataView store, Uint8Array.set or
      TextEncoder.encodeInto that fits), leaving every other byte as it was. */
  method CopyInto(a: array<byte>, at: nat, bytes: seq<byte>)
    requires at + |bytes| <= a.Length
    modifies a
    ensures a[..] == old(a[..at]) + bytes + old(a[at + |bytes|..])
  {
    forall i | at <= i < at + |bytes| {
      a[i] := bytes[i - at];
    }
    assert a[..] == old(a[..at]) + bytes + old(a[at + |bytes|..]);
  }

  /** Stores bytes at offset at, the start of the zeroed run after a prefix. */
  method StoreIntoZeros(a: array<byte>, at: nat, bytes: seq<byte>, ghost prefix: seq<byte>, k: nat)
    requires a[..] == prefix + Zeros(k) && |prefix| == at && |bytes| <= k
    modifies a
    ensures a[..] == prefix + bytes + Zeros(k - |bytes|)
  {
    CopyInto(a, at, bytes);
    FillZeros(prefix, bytes, k);
  }

  /** A fresh zeroed region of `size` bytes with bytes stored at offset 0 (a new
      ArrayBuffer and one DataView store of the bytes). */
  method StoreInFreshRegion(size: nat, bytes: seq<byte>) returns (r: seq<byte>)
    requires |bytes| <= size
    ensures r == bytes + Zeros(size - |bytes|)
  {
    var buffer := new byte[size](_ => 0);
    assert buffer[..] == Zeros(size);
    CopyInto(buffer, 0, bytes);
    FillZeros([], bytes, size);
    r := buffer[..];
  }
}
