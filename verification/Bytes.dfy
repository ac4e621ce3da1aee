/** Bytes, and the little-endian form of unsigned numbers. */
module Bytes {
  type Byte = b: nat | b < 0x100

  function Pow256(width: nat): (p: nat)
    ensures p > 0
  {
    if width == 0 then 1 else 0x100 * Pow256(width - 1)
  }

  lemma Pow256OfEight()
    ensures Pow256(8) == 0x1_0000_0000_0000_0000
  {
    assert Pow256(1) == 0x100;
    assert Pow256(2) == 0x1_0000;
    assert Pow256(3) == 0x100_0000;
    assert Pow256(4) == 0x1_0000_0000;
    assert Pow256(5) == 0x100_0000_0000;
    assert Pow256(6) == 0x1_0000_0000_0000;
    assert Pow256(7) == 0x100_0000_0000_0000;
  }

  /** The bytes of a trivially copyable number of the given width, least significant first; a number that
      does not fit loses its high part, as in a conversion to a narrower type. */
  function ToBytes(n: nat, width: nat): (bytes: seq<Byte>)
    ensures |bytes| == width
  {
    if width == 0 then [] else [n % 0x100] + ToBytes(n / 0x100, width - 1)
  }

  function FromBytes(bytes: seq<Byte>): nat {
    if bytes == [] then 0 else bytes[0] + 0x100 * FromBytes(bytes[1..])
  }

  lemma {:induction false} NumberRoundTrip(n: nat, width: nat)
    ensures FromBytes(ToBytes(n, width)) == n % Pow256(width)
  {
    if width > 0 {
      NumberRoundTrip(n / 0x100, width - 1);
      SplitRemainder(n, Pow256(width - 1));
    }
  }

  lemma SplitRemainder(n: nat, p: nat)
    requires p > 0
    ensures n % (0x100 * p) == n % 0x100 + 0x100 * (n / 0x100 % p)
  {
    var high := n / 0x100;
    var r := n % 0x100 + 0x100 * (high % p);
    assert n == 0x100 * p * (high / p) + r by {
      assert high == p * (high / p) + high % p;
      assert 0x100 * (p * (high / p)) == 0x100 * p * (high / p);
    }
    RemainderIs(n, 0x100 * p, high / p, r);
  }

  lemma RemainderIs(n: nat, p: nat, times: nat, r: nat)
    requires n == p * times + r && r < p
    ensures n % p == r
  {
    var d := n / p - times;
    assert n == p * (n / p) + n % p;
    assert p * d == r - n % p;
    if d > 0 {
      AtLeast(p, d);
    } else if d < 0 {
      AtLeast(p, 0 - d);
    }
  }

  lemma {:induction false} AtLeast(p: nat, d: nat)
    requires d > 0
    ensures p * d >= p
  {
    if d > 1 {
      AtLeast(p, d - 1);
      assert p * d == p * (d - 1) + p;
    }
  }

  lemma {:induction false} BytesRoundTrip(bytes: seq<Byte>)
    ensures ToBytes(FromBytes(bytes), |bytes|) == bytes
    ensures FromBytes(bytes) < Pow256(|bytes|)
  {
    if bytes != [] {
      BytesRoundTrip(bytes[1..]);
    }
  }

  /** Byte by byte, the least significant one first. */
  lemma {:induction false} ByteOf(n: nat, width: nat, k: nat)
    requires k < width
    ensures ToBytes(n, width)[k] == n / Pow256(k) % 0x100
  {
    if k > 0 {
      ByteOf(n / 0x100, width - 1, k - 1);
      DivideTwice(n, Pow256(k - 1));
    }
  }

  lemma DivideTwice(n: nat, b: nat)
    requires b > 0
    ensures n / 0x100 / b == n / (0x100 * b)
  {
    var m := n / 0x100;
    var q, s := m / b, m % b;
    Decompose(m, b);
    var p, r := 0x100 * b, 0x100 * s + n % 0x100;
    assert q * p == 0x100 * (q * b);
    QuotientIs(n, p, q, r);
  }

  lemma Decompose(m: nat, b: nat)
    requires b > 0
    ensures m == (m / b) * b + m % b && m % b < b
  {
  }

  lemma QuotientIs(n: nat, p: nat, times: nat, r: nat)
    requires p > 0 && n == times * p + r && r < p
    ensures n / p == times
  {
    RemainderIs(n, p, times, r);
    assert n == p * (n / p) + n % p;
    assert p * (n / p) == p * times;
    Cancel(p, n / p, times);
  }

  lemma Cancel(p: nat, a: nat, b: nat)
    requires p > 0 && p * a == p * b
    ensures a == b
  {
    if a > b {
      assert p * (a - b) == p * a - p * b;
      AtLeast(p, a - b);
    } else if b > a {
      assert p * (b - a) == p * b - p * a;
      AtLeast(p, b - a);
    }
  }
}
