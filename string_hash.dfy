/** The string hash and key match of macelf/hashtable.c (hash_string_djbxor,
    hash_hash_string, hash_keymatch_string) on NUL-terminated byte buffers. */
module StringHash {
  import opened Bytes

  /** The bytes of a C string, without the terminating NUL. */
  type CString = s: seq<byte> | 0 !in s witness []

  /** strlen: the index of the first NUL. */
  function StrLen(mem: seq<byte>): (r: nat)
    requires 0 in mem
    ensures r < |mem| && mem[r] == 0 && 0 !in mem[..r]
  {
    if mem[0] == 0 then 0
    else
      assert 0 in mem[1..];
      var r := 1 + StrLen(mem[1..]);
      assert mem[..r] == [mem[0]] + mem[1..][..r - 1];
      r
  }

  /** The string of a NUL-terminated buffer ends at its first NUL. */
  lemma StrLenOfTerminated(s: CString, rest: seq<byte>)
    ensures StrLen(s + [0] + rest) == |s|
  {
    var mem := s + [0] + rest;
    assert mem[|s|] == 0;
  }

  /** The value *str contributes to the xor: the char promoted to int and
      converted to uint32. Its low byte is c; its upper 24 bits are all set
      exactly when char is signed and c is 128 or more (sign extension). */
  function CharBits(signedChar: bool, c: byte): (r: bv32)
    ensures r & 0xFF == c as bv32
    ensures r >> 8 == if signedChar && c >= 128 then 0xFF_FFFF else 0
  {
    if signedChar && c >= 128 then (c as bv32) | 0xFFFF_FF00 else c as bv32
  }

  /** One step of djb's xor hash: hash = ((hash << 5) + hash) ^ c. */
  function DjbStep(signedChar: bool, h: bv32, c: byte): bv32
  {
    Mix(h, CharBits(signedChar, c))
  }

  function Mix(h: bv32, x: bv32): bv32
  {
    ((h << 5) + h) ^ x
  }

  /** The step multiplies by 33 modulo 2^32 before the xor. */
  lemma DjbStepMultiplies(signedChar: bool, h: bv32, c: byte)
    ensures DjbStep(signedChar, h, c) == (h * 33) ^ CharBits(signedChar, c)
  {
    MixMultiplies(h, CharBits(signedChar, c));
  }

  lemma MixMultiplies(h: bv32, x: bv32)
    ensures Mix(h, x) == (h * 33) ^ x
  {
    assert h << 5 == h * 32;
    assert (h << 5) + h == h * 33;
  }

  /** djb's xor hash of a byte string, from 5381. */
  function DjbHash(signedChar: bool, s: seq<byte>): bv32
  {
    if s == [] then 5381 else DjbStep(signedChar, DjbHash(signedChar, s[..|s| - 1]), s[|s| - 1])
  }

  /** hash_string_djbxor (macelf/hashtable.c:218-224): the loop over len bytes. */
  method Djbxor(signedChar: bool, str: seq<byte>, len: nat) returns (h: bv32)
    requires len <= |str|
    ensures h == DjbHash(signedChar, str[..len])
  {
    h := 5381;
    var i := 0;
    while i < len
      invariant 0 <= i <= len
      invariant h == DjbHash(signedChar, str[..i])
    {
      assert str[..i + 1][..i] == str[..i];
      h := DjbStep(signedChar, h, str[i]);
      i := i + 1;
    }
  }

  /** hash_hash_string (macelf/hashtable.c:231-235): the hash of the bytes
      before the first NUL. */
  method HashHashString(signedChar: bool, mem: seq<byte>) returns (h: bv32)
    requires 0 in mem
    ensures h == DjbHash(signedChar, mem[..StrLen(mem)])
  {
    h := Djbxor(signedChar, mem, StrLen(mem));
  }

  /** hash_keymatch_string (macelf/hashtable.c:237-241): strcmp(a, b) == 0. */
  predicate KeymatchString(a: seq<byte>, b: seq<byte>)
    requires 0 in a && 0 in b
  {
    a[..StrLen(a)] == b[..StrLen(b)]
  }

  /** The hash and the key match agree: matching strings hash alike, whatever
      follows their NULs. */
  lemma KeymatchHashesAlike(signedChar: bool, a: seq<byte>, b: seq<byte>)
    requires 0 in a && 0 in b && KeymatchString(a, b)
    ensures DjbHash(signedChar, a[..StrLen(a)]) == DjbHash(signedChar, b[..StrLen(b)])
  {
  }

  /** On NUL-terminated strings the key match is equality of the strings, and
      the hash is DjbHash of the string. */
  lemma KeymatchIsEquality(signedChar: bool, x: CString, y: CString)
    ensures 0 in x + [0] && 0 in y + [0]
    ensures KeymatchString(x + [0], y + [0]) <==> x == y
    ensures (x + [0])[..StrLen(x + [0])] == x
  {
    assert x + [0] == x + [0] + [];
    assert y + [0] == y + [0] + [];
    StrLenOfTerminated(x, []);
    StrLenOfTerminated(y, []);
    assert (x + [0])[..|x|] == x && (y + [0])[..|y|] == y;
  }
}
