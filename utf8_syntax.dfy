/**
 * The byte syntax of UTF-8 as RFC 3629 defines it: section 3 for how a
 * scalar value is laid out in one to four bytes, section 4 for which byte
 * sequences are well formed. The crate leaves all of this to Rust's `str`
 * and `char` (validation, `valid_up_to`, `is_char_boundary`,
 * `encode_utf8`); this module states it so that the rest of the model has
 * something to be proved against.
 */
module Utf8Syntax {

  /** An octet. */
  type byte = bv8

  /** A Unicode scalar value (a Rust `char`): a code point that is not a surrogate. */
  type Scalar = c: bv32 | c <= 0x10FFFF && !(0xD800 <= c <= 0xDFFF)

  /** The `10xxxxxx` pattern of a continuation byte (UTF8-tail in RFC 3629). */
  predicate IsContinuation(b: byte) {
    b & 0xC0 == 0x80
  }

  /** The range RFC 3629, section 4, allows for the byte that follows lead byte `b0`. */
  predicate SecondByteOk(b0: byte, b1: byte) {
    if b0 == 0xE0 then 0xA0 <= b1 <= 0xBF
    else if b0 == 0xED then 0x80 <= b1 <= 0x9F
    else if b0 == 0xF0 then 0x90 <= b1 <= 0xBF
    else if b0 == 0xF4 then 0x80 <= b1 <= 0x8F
    else IsContinuation(b1)
  }

  /**
   * The length of the well-formed character (UTF8-char of RFC 3629,
   * section 4) that `s` starts with, or 0 when `s` starts with none.
   */
  function CharWidth(s: seq<byte>): (k: nat)
    ensures k <= 4 && k <= |s|
    ensures k > 0 ==> !IsContinuation(s[0])
  {
    if |s| == 0 then 0
    else if s[0] <= 0x7F then 1
    else if 0xC2 <= s[0] <= 0xDF then
      if |s| >= 2 && IsContinuation(s[1]) then 2 else 0
    else if 0xE0 <= s[0] <= 0xEF then
      if |s| >= 3 && SecondByteOk(s[0], s[1]) && IsContinuation(s[2]) then 3 else 0
    else if 0xF0 <= s[0] <= 0xF4 then
      if |s| >= 4 && SecondByteOk(s[0], s[1]) && IsContinuation(s[2]) && IsContinuation(s[3])
      then 4 else 0
    else 0
  }

  /** Well-formed UTF-8: a sequence of well-formed characters. */
  predicate IsUtf8(s: seq<byte>)
    decreases |s|
  {
    s == [] || (CharWidth(s) > 0 && IsUtf8(s[CharWidth(s)..]))
  }

  /**
   * Rust's `str::is_char_boundary`: offset `i` does not split a character,
   * that is, it is an end of `s` or it holds a byte that is no continuation byte.
   */
  predicate IsCharBoundary(s: seq<byte>, i: nat) {
    i == 0 || i == |s| || (i < |s| && !IsContinuation(s[i]))
  }

  /** Every byte of a well-formed character after its first is a continuation byte. */
  lemma CharWidthTail(s: seq<byte>, j: nat)
    requires 0 < j < CharWidth(s)
    ensures IsContinuation(s[j])
  {
  }

  /** A well-formed character is recognised from its own bytes, whatever follows them. */
  lemma CharWidthPrefix(s: seq<byte>, t: seq<byte>)
    requires CharWidth(s) > 0
    requires CharWidth(s) <= |t| && t[..CharWidth(s)] == s[..CharWidth(s)]
    ensures CharWidth(t) == CharWidth(s)
  {
    var k := CharWidth(s);
    assert t[0] == s[0];
    if k >= 2 { assert t[1] == s[1]; }
    if k >= 3 { assert t[2] == s[2]; }
    if k >= 4 { assert t[3] == s[3]; }
  }

  /**
   * The length of the longest prefix of `s` that is well-formed UTF-8
   * (`Utf8Error::valid_up_to` of Rust's `str::from_utf8`).
   */
  function ValidUpTo(s: seq<byte>): (r: nat)
    ensures r <= |s| && IsUtf8(s[..r])
    ensures r == |s| <==> IsUtf8(s)
    decreases |s|
  {
    var k := CharWidth(s);
    if k == 0 then
      assert s[..0] == [];
      0
    else
      var rest := ValidUpTo(s[k..]);
      CharWidthPrefix(s, s[..k + rest]);
      assert s[..k + rest][k..] == s[k..][..rest];
      assert s[..|s|] == s;
      k + rest
  }

  /** No prefix longer than `ValidUpTo(s)` is well formed. */
  lemma {:induction false} ValidUpToIsLongest(s: seq<byte>, j: nat)
    requires j <= |s| && IsUtf8(s[..j])
    ensures j <= ValidUpTo(s)
    decreases |s|
  {
    if j > 0 {
      var k := CharWidth(s[..j]);
      CharWidthPrefix(s[..j], s);
      assert s[..j][k..] == s[k..][..j - k];
      ValidUpToIsLongest(s[k..], j - k);
    }
  }

  /** `ValidUpTo(s)` is the longest well-formed prefix, quantified over all longer prefixes. */
  lemma LongerPrefixesInvalid(s: seq<byte>)
    ensures forall j :: ValidUpTo(s) < j <= |s| ==> !IsUtf8(s[..j])
  {
    forall j | ValidUpTo(s) < j <= |s|
      ensures !IsUtf8(s[..j])
    {
      if IsUtf8(s[..j]) {
        ValidUpToIsLongest(s, j);
      }
    }
  }

  /** Well-formed UTF-8 is closed under concatenation. */
  lemma {:induction false} ConcatUtf8(a: seq<byte>, b: seq<byte>)
    requires IsUtf8(a) && IsUtf8(b)
    ensures IsUtf8(a + b)
    decreases |a|
  {
    if a == [] {
      assert a + b == b;
    } else {
      var k := CharWidth(a);
      CharWidthPrefix(a, a + b);
      assert (a + b)[k..] == a[k..] + b;
      ConcatUtf8(a[k..], b);
    }
  }

  /** Cutting well-formed UTF-8 at a character boundary leaves two well-formed halves. */
  lemma {:induction false} SplitAtBoundary(s: seq<byte>, i: nat)
    requires IsUtf8(s) && i <= |s| && IsCharBoundary(s, i)
    ensures IsUtf8(s[..i]) && IsUtf8(s[i..])
    decreases |s|
  {
    if i == 0 {
      assert s[..0] == [] && s[0..] == s;
    } else if i == |s| {
      assert s[..i] == s && s[i..] == [];
    } else {
      var k := CharWidth(s);
      if i < k {
        CharWidthTail(s, i);
        assert false;
      }
      assert s[k..][i - k] == s[i];
      SplitAtBoundary(s[k..], i - k);
      CharWidthPrefix(s, s[..i]);
      SliceShift(s, k, i);
    }
  }

  /** Slicing at `i` after dropping the first `k` bytes is slicing at `i` and then dropping them. */
  lemma SliceShift(s: seq<byte>, k: nat, i: nat)
    requires k <= i <= |s|
    ensures s[..i][k..] == s[k..][..i - k] && s[i..] == s[k..][i - k..]
  {
  }

  /** At a boundary below the end of well-formed UTF-8 starts a well-formed character. */
  lemma CharAt(s: seq<byte>, i: nat)
    requires IsUtf8(s) && IsCharBoundary(s, i) && i < |s|
    ensures IsUtf8(s[i..]) && CharWidth(s[i..]) > 0
  {
    SplitAtBoundary(s, i);
  }

  /** The bytes of the character a sequence starts with form that character on their own. */
  lemma CharWidthOwn(s: seq<byte>, x: seq<byte>)
    requires CharWidth(s) > 0 && x == s[..CharWidth(s)]
    ensures CharWidth(x) == |x|
  {
    assert x[..CharWidth(s)] == x;
    CharWidthPrefix(s, x);
  }

  /**
   * On well-formed UTF-8, an offset is a character boundary exactly when
   * cutting there leaves two well-formed halves.
   */
  lemma BoundarySplit(s: seq<byte>, i: nat)
    requires IsUtf8(s)
    ensures IsCharBoundary(s, i) <==> i <= |s| && IsUtf8(s[..i]) && IsUtf8(s[i..])
  {
    if IsCharBoundary(s, i) {
      SplitAtBoundary(s, i);
    }
  }

  /**
   * Substituting ASCII bytes for ASCII bytes, and nothing else, neither
   * makes nor breaks well-formedness: no multi-byte character contains an
   * ASCII byte.
   */
  lemma {:induction false} AsciiSubstitution(s: seq<byte>, t: seq<byte>)
    requires |s| == |t|
    requires forall i :: 0 <= i < |s| ==> s[i] == t[i] || (s[i] <= 0x7F && t[i] <= 0x7F)
    ensures IsUtf8(s) <==> IsUtf8(t)
    decreases |s|
  {
    if s != [] {
      assert CharWidth(s) == CharWidth(t) by {
        if s[0] != t[0] {
          assert s[0] <= 0x7F && t[0] <= 0x7F;
        } else if |s| >= 2 {
          assert s[1] == t[1] || (s[1] <= 0x7F && t[1] <= 0x7F);
          if |s| >= 3 { assert s[2] == t[2] || (s[2] <= 0x7F && t[2] <= 0x7F); }
          if |s| >= 4 { assert s[3] == t[3] || (s[3] <= 0x7F && t[3] <= 0x7F); }
        }
      }
      var k := CharWidth(s);
      if k > 0 {
        AsciiSubstitution(s[k..], t[k..]);
      }
    }
  }

  /** `char::len_utf8`: the number of bytes RFC 3629 uses for a scalar value. */
  function LenUtf8(c: Scalar): (k: nat)
    ensures 1 <= k <= 4
  {
    if c <= 0x7F then 1 else if c <= 0x7FF then 2 else if c <= 0xFFFF then 3 else 4
  }

  /**
   * The UTF-8 encoding of a scalar value (RFC 3629, section 3): the lead
   * byte carries a length marker (`0xxxxxxx`, `110xxxxx`, `1110xxxx`,
   * `11110xxx`) and the high bits, each continuation byte `10xxxxxx` six
   * more bits (Rust's `char::encode_utf8`).
   */
  function Encode(c: Scalar): (r: seq<byte>)
    ensures 1 <= |r| <= 4
  {
    if c <= 0x7F then
      [c as byte]
    else if c <= 0x7FF then
      [(0xC0 | (c >> 6)) as byte, (0x80 | (c & 0x3F)) as byte]
    else if c <= 0xFFFF then
      [(0xE0 | (c >> 12)) as byte, (0x80 | ((c >> 6) & 0x3F)) as byte, (0x80 | (c & 0x3F)) as byte]
    else
      [(0xF0 | (c >> 18)) as byte, (0x80 | ((c >> 12) & 0x3F)) as byte,
       (0x80 | ((c >> 6) & 0x3F)) as byte, (0x80 | (c & 0x3F)) as byte]
  }

  /** `char::len_utf8` is the length of the encoding. */
  lemma EncodeLength(c: Scalar)
    ensures |Encode(c)| == LenUtf8(c)
  {
  }

  /** The encoding of every scalar value is exactly one well-formed character. */
  lemma EncodeWellFormed(c: Scalar)
    ensures CharWidth(Encode(c)) == |Encode(c)|
    ensures IsUtf8(Encode(c))
  {
    var e := Encode(c);
    assert e[|e|..] == [];
  }

  /** The concatenated encodings of a sequence of scalar values (collecting `char`s into a string). */
  function EncodeAll(cs: seq<Scalar>): (r: seq<byte>)
    ensures |r| >= |cs|
  {
    if cs == [] then [] else Encode(cs[0]) + EncodeAll(cs[1..])
  }

  /** Appending one more scalar value appends its encoding. */
  lemma {:induction false} EncodeAllSnoc(cs: seq<Scalar>, k: nat)
    requires k < |cs|
    ensures EncodeAll(cs[..k + 1]) == EncodeAll(cs[..k]) + Encode(cs[k])
  {
    if k > 0 {
      assert cs[..k + 1][1..] == cs[1..][..k];
      assert cs[..k][1..] == cs[1..][..k - 1];
      EncodeAllSnoc(cs[1..], k - 1);
    } else {
      assert cs[..1][1..] == [];
    }
  }

  /** The encoding of any sequence of scalar values is well-formed UTF-8. */
  lemma {:induction false} EncodeAllUtf8(cs: seq<Scalar>)
    ensures IsUtf8(EncodeAll(cs))
  {
    if cs != [] {
      EncodeWellFormed(cs[0]);
      EncodeAllUtf8(cs[1..]);
      ConcatUtf8(Encode(cs[0]), EncodeAll(cs[1..]));
    }
  }
}
