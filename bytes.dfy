/** Byte strings and little-endian field decoding, shared by the loader model. */
module Bytes {

  newtype byte = x: int | 0 <= x < 256

  datatype Option<T> = None | Some(value: T)

  /** 256 to the power n: the number of values an n-byte field can hold. */
  function Pow256(n: nat): (r: nat)
    ensures r >= 1
    ensures n >= 1 ==> r >= 256
  {
    if n == 0 then 1 else 256 * Pow256(n - 1)
  }

  /** The unsigned value of a little-endian byte string. */
  function LE(s: seq<byte>): nat
  {
    if s == [] then 0 else s[0] as nat + 256 * LE(s[1..])
  }

  lemma {:induction false} LEBound(s: seq<byte>)
    ensures LE(s) < Pow256(|s|)
  {
    if s != [] {
      LEBound(s[1..]);
      assert LE(s[1..]) <= Pow256(|s| - 1) - 1;
      assert 256 * LE(s[1..]) <= 256 * Pow256(|s| - 1) - 256;
    }
  }

  /** The n-byte little-endian field at byte offset off of buf. */
  function ReadLE(buf: seq<byte>, off: nat, n: nat): (r: nat)
    requires off + n <= |buf|
    ensures r < Pow256(n)
  {
    LEBound(buf[off..off + n]);
    LE(buf[off..off + n])
  }

  /** Two-, four- and eight-byte fields written out byte by byte. */
  lemma ReadLE2(buf: seq<byte>, off: nat)
    requires off + 2 <= |buf|
    ensures ReadLE(buf, off, 2) == buf[off] as nat + 256 * buf[off + 1] as nat
  {
    var s := buf[off..off + 2];
    assert s[1..] == [buf[off + 1]];
    assert LE(s[1..]) == buf[off + 1] as nat by { assert s[1..][1..] == []; }
    assert LE(s) == buf[off] as nat + 256 * LE(s[1..]);
  }

  lemma ReadLE4(buf: seq<byte>, off: nat)
    requires off + 4 <= |buf|
    ensures ReadLE(buf, off, 4) == ReadLE(buf, off, 2) + 0x1_0000 * ReadLE(buf, off + 2, 2)
  {
    LEConcat(buf[off..off + 2], buf[off + 2..off + 4]);
    assert buf[off..off + 2] + buf[off + 2..off + 4] == buf[off..off + 4];
  }

  lemma ReadLE8(buf: seq<byte>, off: nat)
    requires off + 8 <= |buf|
    ensures ReadLE(buf, off, 8) == ReadLE(buf, off, 4) + 0x1_0000_0000 * ReadLE(buf, off + 4, 4)
  {
    LEConcat(buf[off..off + 4], buf[off + 4..off + 8]);
    assert buf[off..off + 4] + buf[off + 4..off + 8] == buf[off..off + 8];
  }

  lemma ReadLE8Bytes(buf: seq<byte>, off: nat)
    requires off + 8 <= |buf|
    ensures ReadLE(buf, off, 8) ==
            buf[off] as nat + 0x100 * buf[off + 1] as nat + 0x1_0000 * buf[off + 2] as nat
            + 0x100_0000 * buf[off + 3] as nat + 0x1_0000_0000 * buf[off + 4] as nat
            + 0x100_0000_0000 * buf[off + 5] as nat + 0x1_0000_0000_0000 * buf[off + 6] as nat
            + 0x100_0000_0000_0000 * buf[off + 7] as nat
  {
    ReadLE8(buf, off); ReadLE4(buf, off); ReadLE4(buf, off + 4);
    ReadLE2(buf, off); ReadLE2(buf, off + 2); ReadLE2(buf, off + 4); ReadLE2(buf, off + 6);
  }

  lemma ReadLE4Bytes(buf: seq<byte>, off: nat)
    requires off + 4 <= |buf|
    ensures ReadLE(buf, off, 4) ==
            buf[off] as nat + 0x100 * buf[off + 1] as nat + 0x1_0000 * buf[off + 2] as nat
            + 0x100_0000 * buf[off + 3] as nat
  {
    ReadLE4(buf, off); ReadLE2(buf, off); ReadLE2(buf, off + 2);
  }

  /** The value of a concatenation: the high part is scaled by the width of the low one. */
  lemma {:induction false} LEConcat(s: seq<byte>, t: seq<byte>)
    ensures LE(s + t) == LE(s) + Pow256(|s|) * LE(t)
  {
    if s != [] {
      var u := s + t;
      assert u[0] == s[0] && u[1..] == s[1..] + t;
      LEConcat(s[1..], t);
      var a, p, b := LE(s[1..]), Pow256(|s| - 1), LE(t);
      var c := p * b;
      assert LE(u) == s[0] as nat + 256 * a + 256 * c;
      assert LE(s) == s[0] as nat + 256 * a;
      assert Pow256(|s|) == 256 * p;
      ScaleAssoc(p, b);
    } else {
      assert s + t == t;
    }
  }

  lemma ScaleAssoc(p: nat, b: nat)
    ensures (256 * p) * b == 256 * (p * b)
  {
  }

  /** Whether bytes [off, off + len) lie inside a buffer of bufsize bytes. */
  predicate Fits(off: nat, len: nat, bufsize: nat)
  {
    off + len <= bufsize
  }

  /** The same test as the C expression `off + len > bufsize` evaluates it when
      `off + len` is computed in an unsigned integer of `modulus` values. */
  predicate FitsAsWritten(off: nat, len: nat, bufsize: nat, modulus: nat)
    requires modulus > 0
  {
    (off + len) % modulus <= bufsize
  }

  /** A range the exact test accepts passes the wrapping test too, and the two
      tests agree when the sum does not wrap. */
  lemma FitsAsWrittenAgrees(off: nat, len: nat, bufsize: nat, modulus: nat)
    requires modulus > 0
    ensures Fits(off, len, bufsize) ==> FitsAsWritten(off, len, bufsize, modulus)
    ensures off + len < modulus ==> (FitsAsWritten(off, len, bufsize, modulus) <==> Fits(off, len, bufsize))
  {
    var x := off + len;
    assert x % modulus <= x by {
      if x >= modulus {
        assert x == (x / modulus) * modulus + x % modulus;
        assert x / modulus >= 1;
        assert (x / modulus) * modulus >= modulus;
      }
    }
  }
}
