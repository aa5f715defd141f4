/** Octets, big-endian length fields and the XOR masking of section 5.3 of RFC 6455. */
module Bytes {

  /** An octet, as PHP's `ord` gives it. */
  type Byte = x: int | 0 <= x < 256

  /** The 4-byte masking key that a masked frame carries. */
  type Mask = m: seq<Byte> | |m| == 4 witness [0, 0, 0, 0]

  datatype Option<T> = None | Some(value: T)

  /** 256 to the power k. */
  function Pow256(k: nat): (r: nat)
    ensures r > 0
  {
    if k == 0 then 1 else 256 * Pow256(k - 1)
  }

  const TwoTo63: nat := 0x8000_0000_0000_0000
  const TwoTo64: nat := 0x1_0000_0000_0000_0000

  lemma Pow256Of8()
    ensures Pow256(7) == 0x100_0000_0000_0000 && Pow256(8) == TwoTo64
  {
  }

  /**
   * The `width` low-order octets of `n`, most significant first: what
   * `str_split(sprintf('%0Nb', n), 8)` yields, octet by octet, for N = 8 * width.
   */
  function BigEndian(n: nat, width: nat): (r: seq<Byte>)
    ensures |r| == width
  {
    if width == 0 then [] else BigEndian(n / 256, width - 1) + [n % 256]
  }

  /** The number that a big-endian octet string denotes (`bindec` of its bits). */
  function FromBigEndian(s: seq<Byte>): (r: nat)
    ensures r < Pow256(|s|)
  {
    if s == [] then 0 else FromBigEndian(s[..|s| - 1]) * 256 + s[|s| - 1]
  }

  lemma MulCancel(a: int, b: int, d: int)
    requires d > 0 && a * d < b * d
    ensures a < b
  {
    assert (b - a) * d == b * d - a * d;
  }

  lemma DivUnique(n: int, d: int, q: int, r: int)
    requires d > 0 && 0 <= r < d && n == q * d + r
    ensures n / d == q
  {
    var q', r' := n / d, n % d;
    assert n == q' * d + r';
    MulCancel(q, q' + 1, d);
    MulCancel(q', q + 1, d);
  }

  lemma QuotientBound(n: nat, d: nat, p: nat)
    requires d > 0 && n < d * p
    ensures n / d < p
  {
    assert (n / d) * d <= n;
  }

  lemma DivDiv(n: nat, a: nat, b: nat)
    requires a > 0 && b > 0
    ensures n / a / b == n / (a * b)
  {
    var q, r := n / a, n % a;
    var q2, r2 := q / b, q % b;
    assert q * a == q2 * (a * b) + r2 * a by {
      assert q == q2 * b + r2;
      assert q * a == (q2 * b + r2) * a;
      assert (q2 * b + r2) * a == q2 * b * a + r2 * a;
      assert q2 * b * a == q2 * (a * b);
    }
    assert r2 * a + r < a * b by {
      var t: nat := b - 1 - r2;
      assert t * a >= 0;
      assert t * a == a * b - a - r2 * a;
    }
    DivUnique(n, a * b, q2, r2 * a + r);
  }

  lemma FromBigEndianSnoc(init: seq<Byte>, b: Byte)
    ensures FromBigEndian(init + [b]) == FromBigEndian(init) * 256 + b
  {
    assert (init + [b])[..|init|] == init;
  }

  /** Decoding the octets of a number that fits gives the number back. */
  lemma {:induction false} FromBigEndianInverse(n: nat, width: nat)
    requires n < Pow256(width)
    ensures FromBigEndian(BigEndian(n, width)) == n
  {
    if width > 0 {
      var init := BigEndian(n / 256, width - 1);
      FromBigEndianSnoc(init, n % 256);
      QuotientBound(n, 256, Pow256(width - 1));
      FromBigEndianInverse(n / 256, width - 1);
    }
  }

  /** Encoding the number an octet string denotes gives the octets back. */
  lemma {:induction false} BigEndianInverse(s: seq<Byte>)
    ensures BigEndian(FromBigEndian(s), |s|) == s
  {
    if s != [] {
      var init, last := s[..|s| - 1], s[|s| - 1];
      var v := FromBigEndian(s);
      DivUnique(v, 256, FromBigEndian(init), last);
      BigEndianInverse(init);
      assert s == init + [last];
    }
  }

  /** The leading octet of a `width`-octet encoding is `n` divided by 256^(width-1). */
  lemma {:induction false} BigEndianHead(n: nat, width: nat)
    requires 0 < width && n < Pow256(width)
    ensures BigEndian(n, width)[0] as int == n / Pow256(width - 1)
  {
    if width == 1 {
      assert BigEndian(n, 1) == [n % 256];
    } else {
      QuotientBound(n, 256, Pow256(width - 1));
      BigEndianHead(n / 256, width - 1);
      DivDiv(n, 256, Pow256(width - 2));
    }
  }

  /** The 64-bit length field has its top bit set exactly for lengths of 2^63 or more. */
  lemma TopBitOf64(n: nat)
    requires n < TwoTo64
    ensures (BigEndian(n, 8)[0] as int > 127) <==> n >= TwoTo63
  {
    Pow256Of8();
    BigEndianHead(n, 8);
  }

  /** 2 to the power k. */
  function Pow2(k: nat): (r: nat)
    ensures r > 0
  {
    if k == 0 then 1 else 2 * Pow2(k - 1)
  }

  /** Exclusive or of the `k` low-order bits of `a` and `b`, bit by bit. */
  function XorBits(a: nat, b: nat, k: nat): (r: nat)
    ensures r < Pow2(k)
  {
    if k == 0 then 0 else (a % 2 + b % 2) % 2 + 2 * XorBits(a / 2, b / 2, k - 1)
  }

  /** PHP's `^` on two one-octet strings. */
  function Xor(a: Byte, b: Byte): Byte
  {
    assert Pow2(8) == 256;
    XorBits(a, b, 8)
  }

  /** One step of XOR-ing twice: the low bit comes back and the rest is XOR-ed again. */
  lemma XorBitsStep(a: nat, b: nat, k: nat)
    requires k > 0
    ensures XorBits(XorBits(a, b, k), b, k) == a % 2 + 2 * XorBits(XorBits(a / 2, b / 2, k - 1), b / 2, k - 1)
  {
    var c, y := (a % 2 + b % 2) % 2, XorBits(a / 2, b / 2, k - 1);
    var x := XorBits(a, b, k);
    assert x == y * 2 + c;
    DivUnique(x, 2, y, c);
    assert x % 2 == c;
    assert (c + b % 2) % 2 == a % 2;
  }

  /** XOR-ing twice with the same bits restores the original bits. */
  lemma {:induction false} XorBitsTwice(a: nat, b: nat, k: nat)
    requires a < Pow2(k)
    ensures XorBits(XorBits(a, b, k), b, k) == a
  {
    if k > 0 {
      XorBitsStep(a, b, k);
      QuotientBound(a, 2, Pow2(k - 1));
      XorBitsTwice(a / 2, b / 2, k - 1);
    }
  }

  lemma XorTwice(a: Byte, b: Byte)
    ensures Xor(Xor(a, b), b) == a
  {
    assert Pow2(8) == 256;
    XorBitsTwice(a, b, 8);
  }

  /**
   * `s` with octet i XOR-ed with `mask[i % 4]`, built one octet at a time as the
   * server appends it to the frame.
   */
  function Masked(s: seq<Byte>, mask: Mask): (r: seq<Byte>)
    ensures |r| == |s|
    ensures forall i :: 0 <= i < |s| ==> r[i] == Xor(s[i], mask[i % 4])
  {
    if s == [] then [] else Masked(s[..|s| - 1], mask) + [Xor(s[|s| - 1], mask[(|s| - 1) % 4])]
  }

  /** Masking is an involution: unmasking with the same key recovers the octets. */
  lemma MaskedTwice(s: seq<Byte>, mask: Mask)
    ensures Masked(Masked(s, mask), mask) == s
  {
    var r := Masked(Masked(s, mask), mask);
    forall i | 0 <= i < |s| ensures r[i] == s[i] {
      XorTwice(s[i], mask[i % 4]);
    }
  }
}
