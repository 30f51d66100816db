/** Byte strings and fixed-width integers as Python's `struct` module packs them. */
module Bytes {

  type Byte = b: int | 0 <= b < 0x100
  type U16 = x: int | 0 <= x < 0x1_0000
  type U32 = x: int | 0 <= x < 0x1_0000_0000
  type U64 = x: int | 0 <= x < 0x1_0000_0000_0000_0000

  datatype Option<T> = None | Some(value: T)

  function Min(a: int, b: int): int { if a <= b then a else b }
  function Max(a: int, b: int): int { if a >= b then a else b }

  function Pow256(n: nat): (p: nat)
    ensures p > 0
  {
    if n == 0 then 1 else 256 * Pow256(n - 1)
  }

  /** `n` zero bytes. */
  function Zeros(n: nat): (r: seq<Byte>)
    ensures |r| == n
    ensures forall i :: 0 <= i < n ==> r[i] == 0
  {
    if n == 0 then [] else [0] + Zeros(n - 1)
  }

  /** The `n` low bytes of `x`, least significant first; for a negative `x`
      these are the bytes of its two's complement, as `x & 0xFF` and
      `x >> 8` compute them. */
  function LE(x: int, n: nat): (r: seq<Byte>)
    ensures |r| == n
    decreases n
  {
    if n == 0 then [] else [x % 256] + LE(x / 256, n - 1)
  }

  /** The unsigned little-endian value of `s` (`struct.unpack('<L')`, `'<Q'`). */
  function FromLE(s: seq<Byte>): (x: nat)
    ensures x < Pow256(|s|)
  {
    if s == [] then 0 else s[0] + 256 * FromLE(s[1..])
  }

  /** A `struct` field of format `ns`: the string cut to `n` bytes, or padded with NULs. */
  function Fixed(s: seq<Byte>, n: nat): (r: seq<Byte>)
    ensures |r| == n
    ensures |s| == n ==> r == s
  {
    if |s| >= n then s[..n] else s + Zeros(n - |s|)
  }

  /** A string shorter than its field is padded with NULs. */
  lemma FixedPad(s: seq<Byte>, n: nat, k: nat)
    requires |s| + k == n
    ensures Fixed(s, n) == s + Zeros(k)
  {
  }

  lemma {:induction false} MulAtLeast(k: int, d: int)
    requires k >= 1 && d > 0
    ensures k * d >= d
    decreases k
  {
    if k > 1 {
      MulAtLeast(k - 1, d);
      assert k * d == (k - 1) * d + d;
    }
  }

  lemma ModUnique(x: int, d: int, q: int, r: int)
    requires d > 0 && 0 <= r < d && x == q * d + r
    ensures x / d == q && x % d == r
  {
    var q', r' := x / d, x % d;
    assert x == q' * d + r';
    if q' > q {
      assert (q' - q) * d == r - r';
      MulAtLeast(q' - q, d);
    } else if q' < q {
      assert (q - q') * d == r' - r;
      MulAtLeast(q - q', d);
    }
  }

  lemma ModMul256(x: int, p: nat)
    requires p > 0
    ensures x % (256 * p) == x % 256 + 256 * ((x / 256) % p)
  {
    var q, r := x / 256, x % 256;
    var k, m := q / p, q % p;
    assert q == k * p + m;
    assert x == k * (256 * p) + (256 * m + r);
    ModUnique(x, 256 * p, k, 256 * m + r);
  }

  /** Reading back `n` packed bytes gives `x` modulo 256^n. */
  lemma {:induction false} LEMod(x: int, n: nat)
    ensures FromLE(LE(x, n)) == x % Pow256(n)
    decreases n
  {
    if n > 0 {
      var s := LE(x, n);
      assert s[1..] == LE(x / 256, n - 1);
      LEMod(x / 256, n - 1);
      ModMul256(x, Pow256(n - 1));
    }
  }

  /** Packing a value that fits in `n` bytes and reading it back is the identity. */
  lemma LERoundTrip(x: nat, n: nat)
    requires x < Pow256(n)
    ensures FromLE(LE(x, n)) == x
  {
    LEMod(x, n);
  }

  /** Unpacking `n` bytes and packing the value again reproduces the bytes. */
  lemma {:induction false} FromLERoundTrip(s: seq<Byte>)
    ensures LE(FromLE(s), |s|) == s
  {
    if s != [] {
      var x := FromLE(s);
      assert x % 256 == s[0] && x / 256 == FromLE(s[1..]);
      FromLERoundTrip(s[1..]);
    }
  }

  /** The packed bytes of `x` depend only on `x` modulo 256^n. */
  lemma LEModulo(x: int, n: nat)
    ensures LE(x, n) == LE(x % Pow256(n), n)
  {
    FromLERoundTrip(LE(x, n));
    LEMod(x, n);
  }

  lemma Pow256Values()
    ensures Pow256(4) == 0x1_0000_0000
    ensures Pow256(8) == 0x1_0000_0000_0000_0000
  {
  }

  /** Two sequences that share a head and a tail, around middles of one length, agree
      outside the middle. */
  lemma SplitAround<T>(a: seq<T>, b: seq<T>, head: seq<T>, x: seq<T>, y: seq<T>, tail: seq<T>)
    requires a == head + (x + tail) && b == head + (y + tail) && |x| == |y|
    ensures a[..|head|] == b[..|head|] && a[|head|..|head| + |x|] == x
    ensures a[|head| + |x|..] == b[|head| + |x|..]
  {
    assert a[..|head|] == head == b[..|head|];
    assert a[|head|..] == x + tail && b[|head|..] == y + tail;
    assert a[|head|..|head| + |x|] == a[|head|..][..|x|];
    assert a[|head| + |x|..] == a[|head|..][|x|..] == tail;
    assert b[|head| + |x|..] == b[|head|..][|x|..] == tail;
  }

  lemma AppendAssoc<T>(a: seq<T>, b: seq<T>, c: seq<T>)
    ensures a + (b + c) == (a + b) + c
  {
  }
}
