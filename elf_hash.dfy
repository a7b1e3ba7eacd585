/**
 * The SDBM-style string hash of elf_sym.h: a 64-bit wrapping polynomial fold
 * over the bytes of a NUL-terminated string.
 */
module ElfHash {
  import opened ElfRegion

  /** Initial value of the fold. */
  const Seed: nat := 1125899906842597

  /** `char` is signed on the x86-64 target, so a byte at or above 0x80
      contributes a negative amount to the sum. */
  function CharValue(b: byte): (v: int)
    ensures -128 <= v < 128
    ensures v % 256 == b as int
  {
    if b < 128 then b as int else b as int - 256
  }

  /** The bytes a C string routine sees: everything before the first NUL
      (or the whole sequence when it holds none). */
  function CStr(s: seq<byte>): (r: seq<byte>)
    ensures r <= s && 0 !in r
    ensures |r| < |s| ==> s[|r|] == 0
  {
    if s == [] || s[0] == 0 then [] else [s[0]] + CStr(s[1..])
  }

  /** The fold itself over a NUL-free string: 31 * hash + c, mod 2^64. */
  function Hash(s: seq<byte>): (h: nat)
    ensures h < U64
  {
    if s == [] then Seed
    else (31 * Hash(s[..|s| - 1]) + CharValue(s[|s| - 1])) % U64
  }

  /** ESym_StringHash: walks the string until its NUL. */
  method StringHash(str: seq<byte>) returns (hash: nat)
    ensures hash == Hash(CStr(str))
  {
    hash := Seed;
    var i := 0;
    while i < |str| && str[i] != 0
      invariant 0 <= i <= |str|
      invariant 0 !in str[..i]
      invariant hash == Hash(str[..i])
    {
      assert str[..i + 1][..i] == str[..i];
      hash := (31 * hash + CharValue(str[i])) % U64;
      i := i + 1;
    }
    CStrOfPrefix(str, i);
  }

  /** When `s[..i]` holds no NUL and `s[i]` is the first NUL (or `i` is the
      end), C sees exactly `s[..i]`. */
  lemma {:induction false} CStrOfPrefix(s: seq<byte>, i: nat)
    requires i <= |s| && 0 !in s[..i]
    requires i < |s| ==> s[i] == 0
    ensures CStr(s) == s[..i]
  {
    if i > 0 {
      assert s[0] in s[..i];
      assert s[1..][..i - 1] == s[..i][1..];
      CStrOfPrefix(s[1..], i - 1);
    }
  }

  /** The empty string hashes to the seed. */
  lemma HashOfEmpty(t: seq<byte>)
    requires t == [] || t[0] == 0
    ensures Hash(CStr(t)) == 1125899906842597
  {
  }

  /** Appending a non-NUL byte performs one step of the fold. */
  lemma {:induction false} HashAppend(s: seq<byte>, c: byte)
    requires 0 !in s && c != 0
    ensures Hash(CStr(s + [c])) == (31 * Hash(CStr(s)) + CharValue(c)) % U64
  {
    CStrOfPrefix(s, |s|);
    assert s == s[..|s|];
    CStrOfPrefix(s + [c], |s| + 1);
    assert (s + [c])[..|s| + 1] == s + [c];
    assert (s + [c])[..|s|] == s;
  }

  /** Bytes after the first NUL do not affect the hash. */
  lemma {:induction false} HashStopsAtNul(s: seq<byte>, t: seq<byte>)
    requires 0 !in s
    ensures Hash(CStr(s + [0] + t)) == Hash(CStr(s))
  {
    var u := s + [0] + t;
    assert u[..|s|] == s;
    assert u[|s|] == 0;
    CStrOfPrefix(u, |s|);
    assert s[..|s|] == s;
    CStrOfPrefix(s, |s|);
  }
}
