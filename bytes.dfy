/**
  Octets and the fixed-width, big-endian (network byte order) unsigned
  integers that `struct.pack("!H")` and `struct.pack("!Q")` produce.
 */
module Bytes {

  newtype byte = x: int | 0 <= x < 256

  /** A value, or the error a library call raised instead. */
  datatype Option<T> = None | Some(value: T)

  /** 256 to the power `w`: the number of values that fit in `w` bytes. */
  function Pow256(w: nat): (p: nat)
    ensures p >= 1
  {
    if w == 0 then 1 else 256 * Pow256(w - 1)
  }

  /** The first `k` elements of `s`, or all of `s` when it is shorter. */
  function Take<T>(s: seq<T>, k: nat): (r: seq<T>)
    ensures r <= s
    ensures |r| == if k <= |s| then k else |s|
  {
    if k <= |s| then s[..k] else s
  }

  /** Taking from a concatenation takes all of the first part before any of
      the second. */
  lemma TakeConcat<T>(a: seq<T>, b: seq<T>, k: nat)
    ensures k <= |a| ==> Take(a + b, k) == Take(a, k)
    ensures |a| <= k ==> Take(a + b, k) == a + Take(b, k - |a|)
  {
    if |a| <= k {
      if k - |a| <= |b| {
        assert (a + b)[..k] == a + b[..k - |a|];
      }
    } else {
      assert (a + b)[..k] == a[..k];
    }
  }

  /** `x` written in `width` bytes, most significant byte first. */
  function EncodeBE(x: nat, width: nat): (r: seq<byte>)
    requires x < Pow256(width)
    ensures |r| == width
  {
    if width == 0 then []
    else EncodeBE(x / 256, width - 1) + [(x % 256) as byte]
  }

  /** The unsigned number that the bytes `s` denote, most significant byte first. */
  function DecodeBE(s: seq<byte>): (x: nat)
    ensures x < Pow256(|s|)
  {
    if s == [] then 0
    else DecodeBE(s[..|s| - 1]) * 256 + s[|s| - 1] as nat
  }

  /** Decoding an encoding gives the number back. */
  lemma {:induction false} DecodeEncode(x: nat, width: nat)
    requires x < Pow256(width)
    ensures DecodeBE(EncodeBE(x, width)) == x
  {
    if width > 0 {
      var e := EncodeBE(x, width);
      assert e[..width - 1] == EncodeBE(x / 256, width - 1);
      DecodeEncode(x / 256, width - 1);
    }
  }

  /** Encoding a decoded byte string gives the same bytes: every `width`-byte
      string is the encoding of exactly one number. */
  lemma {:induction false} EncodeDecode(s: seq<byte>)
    ensures EncodeBE(DecodeBE(s), |s|) == s
  {
    if s != [] {
      var init, last := s[..|s| - 1], s[|s| - 1] as nat;
      var x := DecodeBE(s);
      assert x / 256 == DecodeBE(init) && x % 256 == last;
      EncodeDecode(init);
      assert s == init + [s[|s| - 1]];
    }
  }

  /** Two numbers with the same encoding are equal. */
  lemma EncodeInjective(x: nat, y: nat, width: nat)
    requires x < Pow256(width) && y < Pow256(width)
    requires EncodeBE(x, width) == EncodeBE(y, width)
    ensures x == y
  {
    DecodeEncode(x, width);
    DecodeEncode(y, width);
  }

  /** Byte `i` of the encoding carries the digit of weight 256^(width-1-i):
      the most significant byte goes first on the wire. */
  lemma {:induction false} EncodeDigit(x: nat, width: nat, i: nat)
    requires x < Pow256(width) && i < width
    ensures EncodeBE(x, width)[i] as nat == (x / Pow256(width - 1 - i)) % 256
  {
    if i < width - 1 {
      EncodeDigit(x / 256, width - 1, i);
      DivDiv(x, 256, Pow256(width - 2 - i));
    }
  }

  lemma DivDiv(x: nat, a: nat, b: nat)
    requires a > 0 && b > 0
    ensures x / a / b == x / (a * b)
  {
    var q, r := x / a, x % a;
    DivMod(x, a);
    var q2, r2 := q / b, q % b;
    DivMod(q, b);
    assert a * q == a * (b * q2 + r2);
    MulDistributes(a, b * q2, r2);
    MulAssociates(a, b, q2);
    assert x == (a * b) * q2 + (a * r2 + r);
    MulMonotone(a, r2, b - 1);
    MulDistributes(a, b - 1, 1);
    DivUnique(x, a * b, q2, a * r2 + r);
  }

  lemma DivMod(x: nat, d: nat)
    requires d > 0
    ensures x == d * (x / d) + x % d && x % d < d
  {
  }

  lemma DivUnique(x: nat, d: nat, q: nat, r: nat)
    requires d > 0 && r < d && x == d * q + r
    ensures x / d == q
  {
    var q0, r0 := x / d, x % d;
    if q0 < q {
      MulMonotone(d, q0 + 1, q);
      MulDistributes(d, q0, 1);
    } else if q < q0 {
      MulMonotone(d, q + 1, q0);
      MulDistributes(d, q, 1);
    }
  }

  lemma MulMonotone(d: nat, a: nat, b: nat)
    requires a <= b
    ensures d * a <= d * b
  {
    MulDistributes(d, a, b - a);
  }

  lemma MulDistributes(d: int, a: int, b: int)
    ensures d * (a + b) == d * a + d * b
  {
  }

  lemma MulAssociates(a: int, b: int, c: int)
    ensures a * (b * c) == (a * b) * c
  {
  }
}
