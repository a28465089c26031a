/**
 * The crate's own UTF-8 helpers (src/utf8/mod.rs): the length of a
 * character from its lead byte, and the decoding of one character at a
 * character boundary of a string.
 */
module Utf8 {
  import opened Wrappers
  import opened Utf8Syntax

  /** The number of one bits from bit `bit` of `b` downwards, up to the first zero bit. */
  function OnesFrom(b: byte, bit: nat): (r: nat)
    requires bit < 8
    ensures r <= bit + 1
    decreases bit
  {
    if (b >> bit) & 1 == 0 then 0
    else if bit == 0 then 1
    else 1 + OnesFrom(b, bit - 1)
  }

  /** Rust's `u8::leading_ones`. */
  function LeadingOnes(b: byte): (r: nat)
    ensures r <= 8
  {
    OnesFrom(b, 7)
  }

  /**
   * `utf8_char_len`: the length of a character read off its lead byte. A
   * clear top bit means one byte; otherwise the two lowest bits are masked
   * off and the leading one bits are counted, so that the historic five-
   * and six-byte forms give 5 and 6. A continuation byte is no lead byte,
   * and callers must not pass one.
   */
  function CharLen(prefix: byte): (r: nat)
    requires !IsContinuation(prefix)
    ensures 1 <= r <= 6
    ensures prefix <= 0x7F ==> r == 1
    ensures 0xC0 <= prefix <= 0xDF ==> r == 2
    ensures 0xE0 <= prefix <= 0xEF ==> r == 3
    ensures 0xF0 <= prefix <= 0xF7 ==> r == 4
    ensures 0xF8 <= prefix <= 0xFB ==> r == 5
    ensures 0xFC <= prefix ==> r == 6
  {
    if prefix <= 0x7F then 1
    else
      var masked := prefix & 0xFC;
      assert OnesFrom(masked, 1) == 0;
      LeadingOnes(masked)
  }

  /**
   * `utf8_char_len` in a release build, where the debug assertion is
   * compiled out: every byte gets a length, and a continuation byte,
   * whose masked form `10xxxx00` has one leading one bit, gets 1.
   */
  function CharLenRelease(prefix: byte): (r: nat)
    ensures 1 <= r <= 6
    ensures !IsContinuation(prefix) ==> r == CharLen(prefix)
    ensures IsContinuation(prefix) ==> r == 1
  {
    if prefix <= 0x7F then 1
    else
      var masked := prefix & 0xFC;
      assert OnesFrom(masked, 1) == 0;
      assert IsContinuation(prefix) ==> OnesFrom(masked, 6) == 0;
      LeadingOnes(masked)
  }

  /**
   * `utf8_char_len` in a debug build, as it checks its argument: `None`
   * where its debug assertion fires. The assertion compares the byte with
   * `10000000` only after the two low bits are masked off, so it catches
   * 0x80 to 0x83 and lets every other continuation byte through.
   */
  function CharLenAsWritten(prefix: byte): (r: Option<nat>)
    ensures r.None? <==> 0x80 <= prefix <= 0x83
    ensures r.Some? ==> r.value == CharLenRelease(prefix)
    ensures r.Some? && !IsContinuation(prefix) ==> r.value == CharLen(prefix)
    ensures r.Some? && IsContinuation(prefix) ==> r.value == 1
  {
    if prefix <= 0x7F then Some(1)
    else if prefix & 0xFC == 0x80 then None
    else Some(LeadingOnes(prefix & 0xFC))
  }

  /** The continuation byte 0x84 passes the debug assertion and is given length 1. */
  lemma CharLenAsWrittenAcceptsContinuation()
    ensures IsContinuation(0x84) && CharLenAsWritten(0x84) == Some(1)
  {
    assert OnesFrom(0x84, 6) == 0;
  }

  /** The length test vectors of src/utf8/test.rs, one lead byte per length. */
  lemma CharLenTestVectors()
    ensures CharLen(0x7F) == 1 && CharLen(0xDF) == 2 && CharLen(0xEF) == 3
    ensures CharLen(0xF7) == 4 && CharLen(0xFB) == 5 && CharLen(0xFF) == 6
  {
  }

  /** On the lead byte of a well-formed character, `CharLen` is that character's length. */
  lemma CharLenOfWellFormed(s: seq<byte>)
    requires CharWidth(s) > 0
    ensures CharLen(s[0]) == CharWidth(s)
  {
  }

  /**
   * The scalar assembled from the bytes of one character, as the match in
   * `decode_utf8` does it: the lead byte's length marker is removed with
   * XOR 0xC0, 0xE0 or 0xF0 and its bits shifted by 6, 12 or 18; each
   * continuation byte gives its low six bits (XOR 0x80).
   */
  function Assemble(bytes: seq<byte>): (c: bv32)
    requires 1 <= |bytes| <= 4
  {
    match |bytes|
    case 1 =>
      bytes[0] as bv32
    case 2 =>
      ((bytes[0] as bv32 ^ 0xC0) << 6)
      | (bytes[1] as bv32 ^ 0x80)
    case 3 =>
      ((bytes[0] as bv32 ^ 0xE0) << 12)
      | ((bytes[1] as bv32 ^ 0x80) << 6)
      | (bytes[2] as bv32 ^ 0x80)
    case 4 =>
      ((bytes[0] as bv32 ^ 0xF0) << 18)
      | ((bytes[1] as bv32 ^ 0x80) << 12)
      | ((bytes[2] as bv32 ^ 0x80) << 6)
      | (bytes[3] as bv32 ^ 0x80)
  }

  /** Assembling the bytes of a well-formed character gives the scalar value they encode. */
  lemma AssembleWellFormed(bytes: seq<byte>)
    requires 1 <= |bytes| <= 4 && CharWidth(bytes) == |bytes|
    ensures var c := Assemble(bytes); c <= 0x10FFFF && !(0xD800 <= c <= 0xDFFF)
    ensures Encode(Assemble(bytes) as Scalar) == bytes
  {
    if |bytes| == 1 {
      AssembleWellFormedOne(bytes);
    } else if |bytes| == 2 {
      AssembleWellFormedTwo(bytes);
    } else if |bytes| == 3 {
      AssembleWellFormedThree(bytes);
    } else {
      AssembleWellFormedFour(bytes);
    }
  }

  // AssembleWellFormed, one lemma per character length: each names the
  // bytes, states the ranges CharWidth checked, and hands them to the
  // bit-level lemma for that length.

  lemma AssembleWellFormedOne(bytes: seq<byte>)
    requires |bytes| == 1 && CharWidth(bytes) == 1
    ensures Assemble(bytes) <= 0x7F && Encode(Assemble(bytes) as Scalar) == bytes
  {
    var b0 := bytes[0];
    assert b0 <= 0x7F;
    assert Assemble(bytes) == b0 as bv32;
    EncodeShape(b0 as bv32 as Scalar);
    assert bytes == [b0];
  }

  lemma AssembleWellFormedTwo(bytes: seq<byte>)
    requires |bytes| == 2 && CharWidth(bytes) == 2
    ensures 0x80 <= Assemble(bytes) <= 0x7FF && Encode(Assemble(bytes) as Scalar) == bytes
  {
    var b0, b1 := bytes[0], bytes[1];
    assert 0xC2 <= b0 <= 0xDF && IsContinuation(b1);
    AssembleOfTwo(bytes);
    AssembleTwo(b0, b1, Assemble(bytes));
    assert bytes == [b0, b1];
  }

  lemma AssembleWellFormedThree(bytes: seq<byte>)
    requires |bytes| == 3 && CharWidth(bytes) == 3
    ensures var c := Assemble(bytes); 0x800 <= c <= 0xFFFF && !(0xD800 <= c <= 0xDFFF)
    ensures Encode(Assemble(bytes) as Scalar) == bytes
  {
    var b0, b1, b2 := bytes[0], bytes[1], bytes[2];
    assert 0xE0 <= b0 <= 0xEF && SecondByteOk(b0, b1) && IsContinuation(b2);
    AssembleOfThree(bytes);
    AssembleThree(b0, b1, b2, Assemble(bytes));
    assert bytes == [b0, b1, b2];
  }

  lemma AssembleWellFormedFour(bytes: seq<byte>)
    requires |bytes| == 4 && CharWidth(bytes) == 4
    ensures 0x10000 <= Assemble(bytes) <= 0x10FFFF && Encode(Assemble(bytes) as Scalar) == bytes
  {
    var b0, b1, b2, b3 := bytes[0], bytes[1], bytes[2], bytes[3];
    assert 0xF0 <= b0 <= 0xF4 && SecondByteOk(b0, b1) && IsContinuation(b2) && IsContinuation(b3);
    AssembleOfFour(bytes);
    AssembleFour(b0, b1, b2, b3, Assemble(bytes));
    assert bytes == [b0, b1, b2, b3];
  }

  lemma AssembleTwo(b0: byte, b1: byte, c: bv32)
    requires 0xC2 <= b0 <= 0xDF && IsContinuation(b1)
    requires c == ((b0 as bv32 ^ 0xC0) << 6) | (b1 as bv32 ^ 0x80)
    ensures 0x80 <= c <= 0x7FF && Encode(c as Scalar) == [b0, b1]
  {
    TwoBits(b0, b1, c);
    EncodeShape(c as Scalar);
  }

  lemma AssembleThree(b0: byte, b1: byte, b2: byte, c: bv32)
    requires 0xE0 <= b0 <= 0xEF && SecondByteOk(b0, b1) && IsContinuation(b2)
    requires c == ((b0 as bv32 ^ 0xE0) << 12) | ((b1 as bv32 ^ 0x80) << 6) | (b2 as bv32 ^ 0x80)
    ensures 0x800 <= c <= 0xFFFF && !(0xD800 <= c <= 0xDFFF) && Encode(c as Scalar) == [b0, b1, b2]
  {
    ThreeBits(b0, b1, b2, c);
    EncodeShape(c as Scalar);
  }

  lemma AssembleFour(b0: byte, b1: byte, b2: byte, b3: byte, c: bv32)
    requires 0xF0 <= b0 <= 0xF4 && SecondByteOk(b0, b1) && IsContinuation(b2) && IsContinuation(b3)
    requires c == ((b0 as bv32 ^ 0xF0) << 18) | ((b1 as bv32 ^ 0x80) << 12)
                  | ((b2 as bv32 ^ 0x80) << 6) | (b3 as bv32 ^ 0x80)
    ensures 0x10000 <= c <= 0x10FFFF && Encode(c as Scalar) == [b0, b1, b2, b3]
  {
    FourBits(b0, b1, b2, b3, c);
    EncodeShape(c as Scalar);
  }

  // The bit-level facts behind the four lemmas above and AssembleEncode,
  // kept apart from sequences so that the solver sees bit-vectors only.

  lemma TwoBits(b0: byte, b1: byte, c: bv32)
    requires 0xC2 <= b0 <= 0xDF && IsContinuation(b1)
    requires c == ((b0 as bv32 ^ 0xC0) << 6) | (b1 as bv32 ^ 0x80)
    ensures 0x80 <= c <= 0x7FF
    ensures (0xC0 | (c >> 6)) as byte == b0 && (0x80 | (c & 0x3F)) as byte == b1
  {
  }

  lemma ThreeBits(b0: byte, b1: byte, b2: byte, c: bv32)
    requires 0xE0 <= b0 <= 0xEF && SecondByteOk(b0, b1) && IsContinuation(b2)
    requires c == ((b0 as bv32 ^ 0xE0) << 12) | ((b1 as bv32 ^ 0x80) << 6) | (b2 as bv32 ^ 0x80)
    ensures 0x800 <= c <= 0xFFFF && !(0xD800 <= c <= 0xDFFF)
    ensures (0xE0 | (c >> 12)) as byte == b0 && (0x80 | ((c >> 6) & 0x3F)) as byte == b1
    ensures (0x80 | (c & 0x3F)) as byte == b2
  {
  }

  lemma FourBits(b0: byte, b1: byte, b2: byte, b3: byte, c: bv32)
    requires 0xF0 <= b0 <= 0xF4 && SecondByteOk(b0, b1) && IsContinuation(b2) && IsContinuation(b3)
    requires c == ((b0 as bv32 ^ 0xF0) << 18) | ((b1 as bv32 ^ 0x80) << 12)
                  | ((b2 as bv32 ^ 0x80) << 6) | (b3 as bv32 ^ 0x80)
    ensures 0x10000 <= c <= 0x10FFFF
    ensures (0xF0 | (c >> 18)) as byte == b0 && (0x80 | ((c >> 12) & 0x3F)) as byte == b1
    ensures (0x80 | ((c >> 6) & 0x3F)) as byte == b2 && (0x80 | (c & 0x3F)) as byte == b3
  {
  }

  lemma EncodeShape(c: Scalar)
    ensures c <= 0x7F ==> Encode(c) == [c as byte]
    ensures 0x80 <= c <= 0x7FF ==> Encode(c) == [(0xC0 | (c >> 6)) as byte, (0x80 | (c & 0x3F)) as byte]
    ensures 0x800 <= c <= 0xFFFF ==> (Encode(c) ==
      [(0xE0 | (c >> 12)) as byte, (0x80 | ((c >> 6) & 0x3F)) as byte, (0x80 | (c & 0x3F)) as byte])
    ensures 0x10000 <= c ==> (Encode(c) ==
      [(0xF0 | (c >> 18)) as byte, (0x80 | ((c >> 12) & 0x3F)) as byte,
       (0x80 | ((c >> 6) & 0x3F)) as byte, (0x80 | (c & 0x3F)) as byte])
  {
  }

  lemma EncodeTwoBits(c: bv32, b0: byte, b1: byte)
    requires 0x80 <= c <= 0x7FF
    requires b0 == (0xC0 | (c >> 6)) as byte && b1 == (0x80 | (c & 0x3F)) as byte
    ensures ((b0 as bv32 ^ 0xC0) << 6) | (b1 as bv32 ^ 0x80) == c
  {
  }

  lemma EncodeThreeBits(c: bv32, b0: byte, b1: byte, b2: byte)
    requires 0x800 <= c <= 0xFFFF
    requires b0 == (0xE0 | (c >> 12)) as byte && b1 == (0x80 | ((c >> 6) & 0x3F)) as byte
    requires b2 == (0x80 | (c & 0x3F)) as byte
    ensures ((b0 as bv32 ^ 0xE0) << 12) | ((b1 as bv32 ^ 0x80) << 6) | (b2 as bv32 ^ 0x80) == c
  {
  }

  lemma EncodeFourBits(c: bv32, b0: byte, b1: byte, b2: byte, b3: byte)
    requires 0x10000 <= c <= 0x10FFFF
    requires b0 == (0xF0 | (c >> 18)) as byte && b1 == (0x80 | ((c >> 12) & 0x3F)) as byte
    requires b2 == (0x80 | ((c >> 6) & 0x3F)) as byte && b3 == (0x80 | (c & 0x3F)) as byte
    ensures ((b0 as bv32 ^ 0xF0) << 18) | ((b1 as bv32 ^ 0x80) << 12)
            | ((b2 as bv32 ^ 0x80) << 6) | (b3 as bv32 ^ 0x80) == c
  {
  }

  // The encoding byte by byte, and Assemble unfolded for each length: the
  // steps that join the bit-level lemmas above to sequences.

  lemma EncodeBytesTwo(c: Scalar)
    requires 0x80 <= c <= 0x7FF
    ensures var e := Encode(c);
      |e| == 2 && e[0] == (0xC0 | (c >> 6)) as byte && e[1] == (0x80 | (c & 0x3F)) as byte
  {
  }

  lemma EncodeBytesThree(c: Scalar)
    requires 0x800 <= c <= 0xFFFF
    ensures var e := Encode(c);
      |e| == 3 && e[0] == (0xE0 | (c >> 12)) as byte && e[1] == (0x80 | ((c >> 6) & 0x3F)) as byte
      && e[2] == (0x80 | (c & 0x3F)) as byte
  {
  }

  lemma EncodeBytesFour(c: Scalar)
    requires 0x10000 <= c
    ensures var e := Encode(c);
      |e| == 4 && e[0] == (0xF0 | (c >> 18)) as byte && e[1] == (0x80 | ((c >> 12) & 0x3F)) as byte
      && e[2] == (0x80 | ((c >> 6) & 0x3F)) as byte && e[3] == (0x80 | (c & 0x3F)) as byte
  {
  }

  lemma AssembleOfTwo(e: seq<byte>)
    requires |e| == 2
    ensures Assemble(e) == ((e[0] as bv32 ^ 0xC0) << 6) | (e[1] as bv32 ^ 0x80)
  {
  }

  lemma AssembleOfThree(e: seq<byte>)
    requires |e| == 3
    ensures Assemble(e) == ((e[0] as bv32 ^ 0xE0) << 12) | ((e[1] as bv32 ^ 0x80) << 6) | (e[2] as bv32 ^ 0x80)
  {
  }

  lemma AssembleOfFour(e: seq<byte>)
    requires |e| == 4
    ensures Assemble(e) == ((e[0] as bv32 ^ 0xF0) << 18) | ((e[1] as bv32 ^ 0x80) << 12)
                           | ((e[2] as bv32 ^ 0x80) << 6) | (e[3] as bv32 ^ 0x80)
  {
  }

  lemma AssembleEncodeTwo(c: Scalar)
    requires 0x80 <= c <= 0x7FF
    ensures Assemble(Encode(c)) == c
  {
    EncodeBytesTwo(c);
    AssembleOfTwo(Encode(c));
    EncodeTwoBits(c, Encode(c)[0], Encode(c)[1]);
  }

  lemma AssembleEncodeThree(c: Scalar)
    requires 0x800 <= c <= 0xFFFF
    ensures Assemble(Encode(c)) == c
  {
    EncodeBytesThree(c);
    AssembleOfThree(Encode(c));
    EncodeThreeBits(c, Encode(c)[0], Encode(c)[1], Encode(c)[2]);
  }

  lemma AssembleEncodeFour(c: Scalar)
    requires 0x10000 <= c
    ensures Assemble(Encode(c)) == c
  {
    EncodeBytesFour(c);
    AssembleOfFour(Encode(c));
    EncodeFourBits(c, Encode(c)[0], Encode(c)[1], Encode(c)[2], Encode(c)[3]);
  }

  /** Assembling the encoding of a scalar value gives that value back. */
  lemma AssembleEncode(c: Scalar)
    ensures Assemble(Encode(c)) == c
  {
    if c <= 0x7F {
      assert Encode(c) == [c as byte];
    } else if c <= 0x7FF {
      AssembleEncodeTwo(c);
    } else if c <= 0xFFFF {
      AssembleEncodeThree(c);
    } else {
      AssembleEncodeFour(c);
    }
  }

  /** Distinct scalar values have distinct encodings. */
  lemma EncodeInjective(c: Scalar, d: Scalar)
    requires Encode(c) == Encode(d)
    ensures c == d
  {
    AssembleEncode(c);
    AssembleEncode(d);
  }

  /**
   * `decode_utf8`: the character at offset `index` of the string `buf`,
   * and its length in bytes. `buf` is a `str`, hence well formed; the
   * source aborts unless `index` is a character boundary, and indexes
   * `buf[index]`, so `index` is also below the length.
   */
  function DecodeUtf8(buf: seq<byte>, index: nat): (r: (Scalar, nat))
    requires IsUtf8(buf)
    requires IsCharBoundary(buf, index) && index < |buf|
    ensures 1 <= r.1 <= 4 && r.1 == CharLen(buf[index])
    ensures index + r.1 <= |buf| && buf[index..index + r.1] == Encode(r.0)
  {
    CharAtBoundary(buf, index);
    var len := CharLen(buf[index]);
    AssembleWellFormed(buf[index..index + len]);
    (Assemble(buf[index..index + len]) as Scalar, len)
  }

  /**
   * At a boundary below the end of well-formed UTF-8, the `utf8_char_len`
   * bytes are there and form one well-formed character.
   */
  lemma CharAtBoundary(buf: seq<byte>, index: nat)
    requires IsUtf8(buf) && IsCharBoundary(buf, index) && index < |buf|
    ensures !IsContinuation(buf[index])
    ensures var k := CharLen(buf[index]);
      1 <= k <= 4 && index + k <= |buf| && CharWidth(buf[index..index + k]) == k
  {
    CharAt(buf, index);
    CharStart(buf[index..]);
    CharStartAt(buf, index, buf[index..]);
  }

  /** `CharStart` for the suffix `rest` of `buf` from `index`, stated about `buf`. */
  lemma CharStartAt(buf: seq<byte>, index: nat, rest: seq<byte>)
    requires index < |buf| && rest == buf[index..] && CharWidth(rest) > 0
    requires !IsContinuation(rest[0]) && CharLen(rest[0]) == CharWidth(rest)
    requires CharWidth(rest[..CharWidth(rest)]) == CharWidth(rest)
    ensures !IsContinuation(buf[index])
    ensures var k := CharLen(buf[index]);
      1 <= k <= 4 && index + k <= |buf| && CharWidth(buf[index..index + k]) == k
  {
    var k := CharWidth(rest);
    assert rest[0] == buf[index] && rest[..k] == buf[index..index + k];
  }

  /** A well-formed character at the start of `rest`, read off its lead byte. */
  lemma CharStart(rest: seq<byte>)
    requires CharWidth(rest) > 0
    ensures !IsContinuation(rest[0]) && CharLen(rest[0]) == CharWidth(rest)
    ensures CharWidth(rest[..CharWidth(rest)]) == CharWidth(rest)
  {
    CharWidthOwn(rest, rest[..CharWidth(rest)]);
    CharLenOfWellFormed(rest);
  }

  /** Decoding the encoding of a scalar value at offset 0 gives the value and its encoded length. */
  lemma DecodeEncoded(c: Scalar)
    ensures IsUtf8(Encode(c)) && DecodeUtf8(Encode(c), 0) == (c, |Encode(c)|)
  {
    EncodeWellFormed(c);
    var e := Encode(c);
    var r := DecodeUtf8(e, 0);
    CharLenOfWellFormed(e);
    assert e[0..r.1] == e;
    AssembleEncode(c);
    AssembleEncode(r.0);
  }

  /**
   * `decode_utf8` reads nothing but the bytes of the character at `index`:
   * two strings that hold the same character at two boundaries decode to
   * the same result there.
   */
  lemma DecodeReadsOneCharacter(a: seq<byte>, i: nat, b: seq<byte>, j: nat)
    requires IsUtf8(a) && IsCharBoundary(a, i) && i < |a|
    requires IsUtf8(b) && IsCharBoundary(b, j) && j < |b|
    requires var k := DecodeUtf8(a, i).1; j + k <= |b| && a[i..i + k] == b[j..j + k]
    ensures DecodeUtf8(a, i) == DecodeUtf8(b, j)
  {
    var k := DecodeUtf8(a, i).1;
    CharAtBoundary(a, i);
    SameCharacterBytes(a, i, b, j, k);
    var x := a[i..i + k];
    DecodeUtf8Assembles(a, i, x);
    DecodeUtf8Assembles(b, j, x);
  }

  /** Two equal byte runs that start with the same lead byte give the same character length. */
  lemma SameCharacterBytes(a: seq<byte>, i: nat, b: seq<byte>, j: nat, k: nat)
    requires 0 < k && i + k <= |a| && j + k <= |b| && a[i..i + k] == b[j..j + k]
    requires !IsContinuation(a[i]) && k == CharLen(a[i])
    ensures !IsContinuation(b[j]) && CharLen(b[j]) == k && j + CharLen(b[j]) <= |b|
    ensures b[j..j + CharLen(b[j])] == a[i..i + k]
  {
    assert a[i..i + k][0] == b[j..j + k][0];
  }

  /**
   * The scalar `decode_utf8` returns is the assembly of `x`, the
   * `utf8_char_len` bytes at `index`.
   */
  lemma DecodeUtf8Assembles(buf: seq<byte>, index: nat, x: seq<byte>)
    requires IsUtf8(buf) && IsCharBoundary(buf, index) && index < |buf|
    requires index + CharLen(buf[index]) <= |buf| && x == buf[index..index + CharLen(buf[index])]
    ensures DecodeUtf8(buf, index).1 == |x| && DecodeUtf8(buf, index).0 as bv32 == Assemble(x)
  {
    var r := DecodeUtf8(buf, index);
    assert r.1 == CharLen(buf[index]);
  }

  /** The decoding test vectors of src/utf8/test.rs: one character of each length. */
  lemma DecodeTestVectors()
    ensures IsUtf8([0x00]) && DecodeUtf8([0x00], 0) == (0x00, 1)
    ensures IsUtf8([0xC2, 0xB1]) && DecodeUtf8([0xC2, 0xB1], 0) == (0xB1, 2)
    ensures IsUtf8([0xEF, 0xB7, 0xB2]) && DecodeUtf8([0xEF, 0xB7, 0xB2], 0) == (0xFDF2, 3)
    ensures IsUtf8([0xF0, 0x9F, 0x95, 0x8B])
      && DecodeUtf8([0xF0, 0x9F, 0x95, 0x8B], 0) == (0x1F54B, 4)
  {
    assert Encode(0x00) == [0x00];
    DecodeEncoded(0x00);
    assert Encode(0xB1) == [0xC2, 0xB1];
    DecodeEncoded(0xB1);
    assert Encode(0xFDF2) == [0xEF, 0xB7, 0xB2];
    DecodeEncoded(0xFDF2);
    assert Encode(0x1F54B) == [0xF0, 0x9F, 0x95, 0x8B];
    DecodeEncoded(0x1F54B);
  }
}
