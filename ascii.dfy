/**
 * ASCII case mapping over UTF-8 bytes, as `str::make_ascii_uppercase` and
 * `str::make_ascii_lowercase` do it for `String::make_ascii_uppercase` and
 * `String::make_ascii_lowercase` (src/string/mod.rs): every byte is mapped
 * on its own, and only the 26 ASCII letters of one case change.
 */
module Ascii {
  import opened Utf8Syntax

  predicate IsAsciiLower(b: byte) {
    0x61 <= b <= 0x7A
  }

  predicate IsAsciiUpper(b: byte) {
    0x41 <= b <= 0x5A
  }

  /** `u8::to_ascii_uppercase`. */
  function ToUpper(b: byte): (r: byte)
    ensures r != b <==> IsAsciiLower(b)
    ensures IsAsciiLower(b) ==> IsAsciiUpper(r) && r | 0x20 == b
    ensures !IsAsciiLower(r)
    ensures r <= 0x7F <==> b <= 0x7F
  {
    if IsAsciiLower(b) then b - 0x20 else b
  }

  /** `u8::to_ascii_lowercase`. */
  function ToLower(b: byte): (r: byte)
    ensures r != b <==> IsAsciiUpper(b)
    ensures IsAsciiUpper(b) ==> IsAsciiLower(r) && r & 0xDF == b
    ensures !IsAsciiUpper(r)
    ensures r <= 0x7F <==> b <= 0x7F
  {
    if IsAsciiUpper(b) then b + 0x20 else b
  }

  /** Every byte of `s` mapped by `ToUpper`. */
  function Uppercase(s: seq<byte>): (r: seq<byte>)
    ensures |r| == |s|
  {
    seq(|s|, i requires 0 <= i < |s| => ToUpper(s[i]))
  }

  /** Every byte of `s` mapped by `ToLower`. */
  function Lowercase(s: seq<byte>): (r: seq<byte>)
    ensures |r| == |s|
  {
    seq(|s|, i requires 0 <= i < |s| => ToLower(s[i]))
  }

  /** `[u8]::is_ascii`. */
  predicate IsAscii(s: seq<byte>) {
    forall i :: 0 <= i < |s| ==> s[i] <= 0x7F
  }

  /**
   * Upper-casing changes lower-case ASCII letters into their capitals and
   * leaves every other byte as it is; no lower-case letter is left.
   */
  lemma UppercaseChanges(s: seq<byte>)
    ensures forall i :: 0 <= i < |s| ==> (Uppercase(s)[i] != s[i] <==> IsAsciiLower(s[i]))
    ensures forall i :: 0 <= i < |s| ==> !IsAsciiLower(Uppercase(s)[i])
  {
  }

  /**
   * Lower-casing changes upper-case ASCII letters into their small forms
   * and leaves every other byte as it is; no capital is left.
   */
  lemma LowercaseChanges(s: seq<byte>)
    ensures forall i :: 0 <= i < |s| ==> (Lowercase(s)[i] != s[i] <==> IsAsciiUpper(s[i]))
    ensures forall i :: 0 <= i < |s| ==> !IsAsciiUpper(Lowercase(s)[i])
  {
  }

  /** Case mapping neither makes nor breaks well-formed UTF-8. */
  lemma CaseMappingKeepsUtf8(s: seq<byte>)
    ensures IsUtf8(Uppercase(s)) <==> IsUtf8(s)
    ensures IsUtf8(Lowercase(s)) <==> IsUtf8(s)
  {
    AsciiSubstitution(s, Uppercase(s));
    AsciiSubstitution(s, Lowercase(s));
  }

  /** Mapping twice is mapping once, and either mapping undoes the case the other one chose. */
  lemma CaseMappingIdempotent(s: seq<byte>)
    ensures Uppercase(Uppercase(s)) == Uppercase(s)
    ensures Lowercase(Lowercase(s)) == Lowercase(s)
    ensures Uppercase(Lowercase(s)) == Uppercase(s)
    ensures Lowercase(Uppercase(s)) == Lowercase(s)
  {
  }

  /** ASCII text is well-formed UTF-8, and every offset in it is a character boundary. */
  lemma {:induction false} AsciiIsUtf8(s: seq<byte>)
    requires IsAscii(s)
    ensures IsUtf8(s)
    ensures forall i :: 0 <= i <= |s| ==> IsCharBoundary(s, i)
    decreases |s|
  {
    if s != [] {
      assert CharWidth(s) == 1;
      AsciiIsUtf8(s[1..]);
    }
  }

  /** Case mapping keeps ASCII text ASCII, and non-ASCII text non-ASCII. */
  lemma CaseMappingKeepsAscii(s: seq<byte>)
    ensures IsAscii(Uppercase(s)) <==> IsAscii(s)
    ensures IsAscii(Lowercase(s)) <==> IsAscii(s)
  {
    if !IsAscii(s) {
      var i :| 0 <= i < |s| && s[i] > 0x7F;
      assert Uppercase(s)[i] > 0x7F && Lowercase(s)[i] > 0x7F;
    }
  }
}
