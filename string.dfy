/**
 * `String<N>` (src/string/mod.rs): a string of at most `N` bytes of UTF-8
 * kept in a buffer of exactly `N` bytes, of which the first `len` are in
 * use. The buffer is an array owned by the string; constructors fill a
 * fresh zeroed array and hand it to `FromRawParts`, as the source does.
 */
module ConstStr {
  import opened Wrappers
  import opened Utf8Syntax
  import opened Errors
  import opened LexOrder
  import Ascii

  /** `oct::error::CollectionDecodeError<LengthError, Utf8Error>`. */
  datatype CollectionDecodeError = BadLength(length: LengthError) | BadItem(item: Utf8Error)

  /** All bytes are zero. */
  predicate AllZero(s: seq<byte>) {
    forall i :: 0 <= i < |s| ==> s[i] == 0
  }

  /**
   * The outcome of `str::from_utf8` as the crate reports a failure: `None`
   * for well-formed data, otherwise the byte at `valid_up_to` and that
   * offset.
   */
  function FirstInvalid(data: seq<byte>): (r: Option<Utf8Error>)
    ensures r.None? <==> IsUtf8(data)
    ensures r.Some? ==> r.value.index < |data| && r.value.value == data[r.value.index]
    ensures r.Some? ==> IsUtf8(data[..r.value.index])
    ensures r.Some? ==> forall j :: r.value.index < j <= |data| ==> !IsUtf8(data[..j])
  {
    if IsUtf8(data) then None
    else
      var i := ValidUpTo(data);
      LongerPrefixesInvalid(data);
      Some(Utf8Error(data[i], i))
  }

  /** Copying `src` over `dst[at..at + |src|]` (`copy_nonoverlapping` of `src.len()` bytes). */
  method CopyInto(dst: array<byte>, at: nat, src: seq<byte>)
    requires at + |src| <= dst.Length
    modifies dst
    ensures dst[..at] == old(dst[..at])
    ensures dst[at..at + |src|] == src
    ensures dst[at + |src|..] == old(dst[at + |src|..])
  {
    forall i | 0 <= i < |src| {
      dst[at + i] := src[i];
    }
  }

  /**
   * The number of characters of `cs` that `FromIterator` stores when
   * `room` bytes are free: it takes characters in order until the next
   * one's encoding no longer fits.
   */
  function TakenCount(room: nat, cs: seq<Scalar>): (k: nat)
    ensures k <= |cs|
  {
    if cs == [] || room < LenUtf8(cs[0]) then 0
    else 1 + TakenCount(room - LenUtf8(cs[0]), cs[1..])
  }

  lemma EncodeAllCons(cs: seq<Scalar>, j: nat)
    requires 0 < j <= |cs|
    ensures EncodeAll(cs[..j]) == Encode(cs[0]) + EncodeAll(cs[1..][..j - 1])
  {
    assert cs[..j][0] == cs[0];
    assert cs[..j][1..] == cs[1..][..j - 1];
  }

  /** The length of the encoded first `j` characters, one character at a time. */
  lemma EncodeAllLengthCons(cs: seq<Scalar>, j: nat)
    requires 0 < j <= |cs|
    ensures |EncodeAll(cs[..j])| == LenUtf8(cs[0]) + |EncodeAll(cs[1..][..j - 1])|
  {
    EncodeAllCons(cs, j);
    EncodeLength(cs[0]);
  }

  /**
   * The characters `FromIterator` takes fit in the room, one more would
   * not, and no longer prefix fits: the greedy stop is the longest prefix
   * that fits.
   */
  lemma {:induction false} TakenCountIsLongestFit(room: nat, cs: seq<Scalar>)
    ensures |EncodeAll(cs[..TakenCount(room, cs)])| <= room
    ensures forall j :: TakenCount(room, cs) < j <= |cs| ==> room < |EncodeAll(cs[..j])|
    decreases |cs|
  {
    var k := TakenCount(room, cs);
    if cs == [] {
    } else if room < LenUtf8(cs[0]) {
      assert cs[..0] == [];
      forall j | 0 < j <= |cs|
        ensures room < |EncodeAll(cs[..j])|
      {
        EncodeAllLengthCons(cs, j);
      }
    } else {
      var e := LenUtf8(cs[0]);
      TakenCountIsLongestFit(room - e, cs[1..]);
      EncodeAllLengthCons(cs, k);
      forall j | k < j <= |cs|
        ensures room < |EncodeAll(cs[..j])|
      {
        EncodeAllLengthCons(cs, j);
      }
    }
  }

  /**
   * One step of `FromIterator` over `room` free bytes at character `i`:
   * it stops there when the encoding does not fit, and otherwise takes it
   * and goes on with the room that is left.
   */
  lemma TakenCountStep(room: nat, cs: seq<Scalar>, i: nat)
    requires i < |cs|
    ensures room < LenUtf8(cs[i]) ==> TakenCount(room, cs[i..]) == 0
    ensures LenUtf8(cs[i]) <= room ==>
      TakenCount(room, cs[i..]) == 1 + TakenCount(room - LenUtf8(cs[i]), cs[i + 1..])
  {
    assert cs[i..][0] == cs[i];
    assert cs[i..][1..] == cs[i + 1..];
  }

  /**
   * Writing `e` at offset `len` of a buffer holding `p` followed by zeros
   * leaves it holding `p + e` followed by zeros.
   */
  lemma Appended(before: seq<byte>, after: seq<byte>, len: nat, e: seq<byte>)
    requires len + |e| <= |before| == |after|
    requires after[..len] == before[..len] && after[len..len + |e|] == e
    requires after[len + |e|..] == before[len + |e|..] && AllZero(before[len..])
    ensures after[..len + |e|] == before[..len] + e && AllZero(after[len + |e|..])
  {
    assert after[..len + |e|] == after[..len] + after[len..len + |e|];
    assert forall j :: len + |e| <= j < |after| ==> after[j] == before[len..][j - len];
  }

  /**
   * What holds of `FromIterator` after `i` characters: the `n`-byte buffer
   * holds their encodings, `len` bytes in all, then zeros, and the
   * characters still to come are taken as from the start.
   */
  ghost predicate FromIterInvariant(n: nat, cs: seq<Scalar>, i: nat, len: nat, buf: seq<byte>) {
    i <= |cs| && len <= n == |buf|
    && buf[..len] == EncodeAll(cs[..i]) && AllZero(buf[len..])
    && TakenCount(n, cs) == i + TakenCount(n - len, cs[i..])
  }

  /** One character that fits, written at `len`, keeps the invariant. */
  lemma FromIterStep(n: nat, cs: seq<Scalar>, i: nat, len: nat, before: seq<byte>, after: seq<byte>)
    requires FromIterInvariant(n, cs, i, len, before) && i < |cs|
    requires len + LenUtf8(cs[i]) <= n && |Encode(cs[i])| == LenUtf8(cs[i]) && |after| == |before|
    requires after[..len] == before[..len] && after[len..len + LenUtf8(cs[i])] == Encode(cs[i])
    requires after[len + LenUtf8(cs[i])..] == before[len + LenUtf8(cs[i])..]
    ensures FromIterInvariant(n, cs, i + 1, len + LenUtf8(cs[i]), after)
  {
    Appended(before, after, len, Encode(cs[i]));
    EncodeAllSnoc(cs, i);
    TakenCountStep(n - len, cs, i);
  }

  /** Where the loop ends, by exhaustion or at a character that does not fit, all `TakenCount` characters are in. */
  lemma FromIterDone(n: nat, cs: seq<Scalar>, i: nat, len: nat, buf: seq<byte>)
    requires FromIterInvariant(n, cs, i, len, buf)
    requires i < |cs| ==> n - len < LenUtf8(cs[i])
    ensures i == TakenCount(n, cs) && len <= |buf| && IsUtf8(buf[..len])
    ensures buf[..len] == EncodeAll(cs[..TakenCount(n, cs)]) && AllZero(buf[len..])
  {
    if i == |cs| {
      assert cs[i..] == [];
    } else {
      TakenCountStep(n - len, cs, i);
    }
    EncodeAllUtf8(cs[..i]);
  }

  /**
   * `char::encode_utf8` into `dst[start..start + len_utf8]`: the encoding
   * of `c` is written there and nothing else changes.
   */
  method EncodeUtf8Into(c: Scalar, dst: array<byte>, start: nat)
    requires start + LenUtf8(c) <= dst.Length
    modifies dst
    ensures |Encode(c)| == LenUtf8(c)
    ensures dst[..start] == old(dst[..start])
    ensures dst[start..start + LenUtf8(c)] == Encode(c)
    ensures dst[start + LenUtf8(c)..] == old(dst[start + LenUtf8(c)..])
  {
    EncodeLength(c);
    CopyInto(dst, start, Encode(c));
  }

  /** A zero-filled array of `n` bytes. */
  method Zeroed(n: nat) returns (a: array<byte>)
    ensures fresh(a) && a.Length == n && AllZero(a[..])
  {
    a := new byte[n](_ => 0);
  }

  /** `n` zero bytes (`[0x00; N]`). */
  function Zeros(n: nat): (r: seq<byte>)
    ensures |r| == n && AllZero(r)
  {
    if n == 0 then [] else Zeros(n - 1) + [0]
  }

  /**
   * `<[u8]>::copy_from_slice`: copies `src` over all of `dst`. It reports
   * `false` where the source panics on a length mismatch, and then leaves
   * `dst` as it was.
   */
  method CopyFromSlice(dst: array<byte>, src: seq<byte>) returns (ok: bool)
    modifies dst
    ensures ok <==> dst.Length == |src|
    ensures ok ==> dst[..] == src
    ensures !ok ==> dst[..] == old(dst[..])
  {
    if dst.Length != |src| {
      return false;
    }
    CopyInto(dst, 0, src);
    assert dst[..] == dst[0..|src|];
    ok := true;
  }

  /**
   * `String::from_utf8_unchecked` as written: the buffer it builds, or
   * `None` where it panics. Unless `n` and `|data|` are equal it copies
   * all of `data` over a zeroed buffer of `n` bytes, which panics.
   */
  method UncheckedBufferAsWritten(n: nat, data: seq<byte>) returns (r: Option<seq<byte>>)
    requires |data| <= n
    ensures r.Some? <==> n == |data|
    ensures r.Some? ==> r.value == data
  {
    if n == |data| {
      return Some(data);
    }
    var buf := Zeroed(n);
    var ok := CopyFromSlice(buf, data);
    var contents := buf[..];
    r := if ok then Some(contents) else None;
  }

  /**
   * One byte of well-formed data in a capacity of four passes the
   * function's own compile-time check and still makes it panic.
   */
  method UncheckedBufferAsWrittenPanics() returns (data: seq<byte>, r: Option<seq<byte>>)
    ensures data == [0x41] && |data| <= 4 && IsUtf8(data) && r.None?
  {
    data := [0x41];
    assert CharWidth(data) == 1 && data[1..] == [];
    r := UncheckedBufferAsWritten(4, data);
  }

  /** The test of src/string/test.rs: "hello world" collected into four bytes is "hell". */
  lemma FromIterTestVector()
    ensures var cs: seq<Scalar> := [0x68, 0x65, 0x6C, 0x6C, 0x6F, 0x20, 0x77, 0x6F, 0x72, 0x6C, 0x64];
      TakenCount(4, cs) == 4 && EncodeAll(cs[..4]) == [0x68, 0x65, 0x6C, 0x6C]
  {
    var cs: seq<Scalar> := [0x68, 0x65, 0x6C, 0x6C, 0x6F, 0x20, 0x77, 0x6F, 0x72, 0x6C, 0x64];
    assert cs[4..][0] == 0x6F;
    assert TakenCount(0, cs[4..]) == 0;
    assert cs[3..][1..] == cs[4..];
    assert cs[2..][1..] == cs[3..];
    assert cs[1..][1..] == cs[2..];
    assert TakenCount(1, cs[3..]) == 1;
    assert TakenCount(2, cs[2..]) == 2;
    assert TakenCount(3, cs[1..]) == 3;
    var h: seq<Scalar> := cs[..4];
    assert h == [0x68, 0x65, 0x6C, 0x6C];
    assert Encode(0x68) == [0x68] && Encode(0x65) == [0x65] && Encode(0x6C) == [0x6C];
    assert h[3..][1..] == [] && EncodeAll(h[3..]) == [0x6C];
    assert h[2..][1..] == h[3..] && EncodeAll(h[2..]) == [0x6C, 0x6C];
    assert h[1..][1..] == h[2..] && EncodeAll(h[1..]) == [0x65, 0x6C, 0x6C];
  }

  /** The `from_utf8` tests of src/string/test.rs: two rejections with their byte and offset, two acceptances. */
  lemma FromUtf8TestVectors()
    ensures FirstInvalid([0x41, 0xF7, 0x63]) == Some(Utf8Error(0xF7, 1))
    ensures FirstInvalid([0x41, 0xC3, 0xBC, 0x63]) == None
    ensures FirstInvalid([0x32, 0x30, 0x20, 0xAC]) == Some(Utf8Error(0xAC, 3))
    ensures FirstInvalid([0x32, 0x30, 0xE2, 0x82, 0xAC]) == None
  {
    var a: seq<byte> := [0x41, 0xF7, 0x63];
    assert CharWidth(a) == 1 && CharWidth(a[1..]) == 0;
    assert ValidUpTo(a[1..]) == 0;
    assert !IsUtf8(a[1..]);
    var b: seq<byte> := [0x41, 0xC3, 0xBC, 0x63];
    assert CharWidth(b) == 1 && CharWidth(b[1..]) == 2 && b[1..][2..] == b[3..];
    assert CharWidth(b[3..]) == 1 && b[3..][1..] == [];
    var c: seq<byte> := [0x32, 0x30, 0x20, 0xAC];
    assert c[1..][1..] == c[2..] && c[2..][1..] == c[3..];
    assert CharWidth(c[3..]) == 0 && ValidUpTo(c[3..]) == 0;
    assert !IsUtf8(c[3..]) && !IsUtf8(c[2..]) && !IsUtf8(c[1..]);
    var d: seq<byte> := [0x32, 0x30, 0xE2, 0x82, 0xAC];
    assert d[1..][1..] == d[2..] && CharWidth(d[2..]) == 3 && d[2..][3..] == [];
  }

  /** The decoding test of src/string/test.rs: a twelve-byte length prefix and "if constexpr" decode to that text. */
  lemma DecodeTestVector()
    ensures var text: seq<byte> := [0x69, 0x66, 0x20, 0x63, 0x6F, 0x6E, 0x73, 0x74, 0x65, 0x78, 0x70, 0x72];
      |text| == 12 <= 0x100 && FirstInvalid(text[..12]) == None
  {
    var text: seq<byte> := [0x69, 0x66, 0x20, 0x63, 0x6F, 0x6E, 0x73, 0x74, 0x65, 0x78, 0x70, 0x72];
    assert text[..12] == text;
    Ascii.AsciiIsUtf8(text);
  }

  /** The ordering tests of src/string/test.rs, on "Hello there!", "MEIN_GRO\u{1E9E}_GOTT" and "Hello". */
  lemma OrderingTestVectors()
    ensures var s0: seq<byte> := [0x48, 0x65, 0x6C, 0x6C, 0x6F, 0x20, 0x74, 0x68, 0x65, 0x72, 0x65, 0x21];
      var s1: seq<byte> := [0x4D, 0x45, 0x49, 0x4E, 0x5F, 0x47, 0x52, 0x4F, 0xE1, 0xBA, 0x9E, 0x5F, 0x47, 0x4F, 0x54, 0x54];
      var s2: seq<byte> := [0x48, 0x65, 0x6C, 0x6C, 0x6F];
      Compare(s0, s0) == Equal && Compare(s0, s1) == Less && Compare(s0, s2) == Greater
      && Compare(s1, s0) == Greater && Compare(s1, s1) == Equal && Compare(s1, s2) == Greater
      && Compare(s2, s0) == Less && Compare(s2, s1) == Less && Compare(s2, s2) == Equal
  {
    var s0: seq<byte> := [0x48, 0x65, 0x6C, 0x6C, 0x6F, 0x20, 0x74, 0x68, 0x65, 0x72, 0x65, 0x21];
    var s1: seq<byte> := [0x4D, 0x45, 0x49, 0x4E, 0x5F, 0x47, 0x52, 0x4F, 0xE1, 0xBA, 0x9E, 0x5F, 0x47, 0x4F, 0x54, 0x54];
    var s2: seq<byte> := [0x48, 0x65, 0x6C, 0x6C, 0x6F];
    assert s2 == s0[..5];
    assert LexLess(s2, s0);
    assert s0[..0] == s1[..0];
    assert LexLess(s0, s1) && LexLess(s2, s1);
    CompareMeaning(s0, s1);
    CompareMeaning(s0, s2);
    CompareMeaning(s1, s2);
  }

  class String {
    /** The capacity `N`, in bytes. */
    const N: nat
    /** The storage `buf: [u8; N]`. */
    const buf: array<byte>
    /** The number of bytes in use. */
    var len: nat

    /** What `from_raw_parts` demands of its caller, and what every string keeps. */
    ghost predicate Valid()
      reads this, buf
    {
      buf.Length == N && len <= N && IsUtf8(buf[..len])
    }

    /** The bytes past `len` are zero, as every safe constructor leaves them. */
    ghost predicate TailZeroed()
      reads this, buf
      requires Valid()
    {
      AllZero(buf[len..])
    }

    /** `String::from_raw_parts`: adopts `raw` as the buffer, untested beyond its contract. */
    constructor FromRawParts(raw: array<byte>, rawLen: nat)
      requires rawLen <= raw.Length && IsUtf8(raw[..rawLen])
      ensures Valid() && N == raw.Length && buf == raw && len == rawLen
    {
      N := raw.Length;
      buf := raw;
      len := rawLen;
    }

    /** `String::new_unchecked`: `s` is a `str` that the caller promises fits. */
    static method NewUnchecked(n: nat, s: seq<byte>) returns (t: String)
      requires IsUtf8(s) && |s| <= n
      ensures fresh(t) && fresh(t.buf) && t.Valid() && t.N == n
      ensures t.AsBytes() == s && t.TailZeroed()
    {
      var a := Zeroed(n);
      ghost var zeros := a[..];
      CopyInto(a, 0, s);
      assert a[|s|..] == zeros[|s|..];
      assert a[..|s|] == s;
      t := new String.FromRawParts(a, |s|);
    }

    /** `String::new`: fails with the capacity and the length exactly when `s` does not fit. */
    static method New(n: nat, s: seq<byte>) returns (r: Result<String, LengthError>)
      requires IsUtf8(s)
      ensures r.Err? <==> n < |s|
      ensures r.Err? ==> r.error == LengthError(n, |s|)
      ensures r.Ok? ==> fresh(r.value) && fresh(r.value.buf) && r.value.Valid() && r.value.N == n
      ensures r.Ok? ==> r.value.AsBytes() == s && r.value.TailZeroed()
    {
      if |s| > n {
        return Err(LengthError(n, |s|));
      }
      var t := NewUnchecked(n, s);
      return Ok(t);
    }

    /**
     * `String::from_utf8_unchecked`, with the copy into a longer buffer
     * made into the first `|data|` bytes. `data` is a `[u8; M]` with
     * `M <= N`, which the source checks when it is compiled.
     */
    static method FromUtf8Unchecked(n: nat, data: seq<byte>) returns (t: String)
      requires |data| <= n && IsUtf8(data)
      ensures fresh(t) && fresh(t.buf) && t.Valid() && t.N == n
      ensures t.AsBytes() == data && t.TailZeroed()
    {
      var a: array<byte>;
      if n == |data| {
        // The data array becomes the buffer.
        a := new byte[n](i => if 0 <= i < |data| then data[i] else 0);
        assert a[..|data|] == a[..] == data;
      } else {
        a := Zeroed(n);
        ghost var zeros := a[..];
        CopyInto(a, 0, data);
        assert a[|data|..] == zeros[|data|..];
        assert a[..|data|] == data;
      }
      t := new String.FromRawParts(a, |data|);
    }

    /**
     * `String::from_utf8`: the first invalid byte and its offset when `data`
     * is not well formed, otherwise a string of exactly those bytes.
     */
    static method FromUtf8(n: nat, data: seq<byte>) returns (r: Result<String, Utf8Error>)
      requires |data| <= n
      ensures r.Err? <==> !IsUtf8(data)
      ensures r.Err? ==> FirstInvalid(data) == Some(r.error)
      ensures r.Ok? ==> fresh(r.value) && fresh(r.value.buf) && r.value.Valid() && r.value.N == n
      ensures r.Ok? ==> r.value.AsBytes() == data && r.value.TailZeroed()
    {
      var invalid := FirstInvalid(data);
      if invalid.Some? {
        return Err(invalid.value);
      }
      var t := FromUtf8Unchecked(n, data);
      return Ok(t);
    }

    /** `Default::default`: the empty string over a zeroed buffer. */
    static method Default(n: nat) returns (t: String)
      ensures fresh(t) && fresh(t.buf) && t.Valid() && t.N == n
      ensures t.AsBytes() == [] && t.TailZeroed()
    {
      var a := Zeroed(n);
      assert a[..0] == [];
      t := new String.FromRawParts(a, 0);
    }

    /**
     * `FromIterator<char>`: appends the encoding of each character in turn
     * and stops silently at the first one that does not fit.
     */
    static method FromIter(n: nat, cs: seq<Scalar>) returns (t: String)
      ensures fresh(t) && fresh(t.buf) && t.Valid() && t.N == n && t.TailZeroed()
      ensures t.AsBytes() == EncodeAll(cs[..TakenCount(n, cs)])
    {
      var a := Zeroed(n);
      var len: nat := 0;
      var i := 0;
      while i < |cs|
        invariant FromIterInvariant(n, cs, i, len, a[..])
      {
        var rem := n - len;
        var req := LenUtf8(cs[i]);
        if rem < req {
          break;
        }
        ghost var before := a[..];
        EncodeUtf8Into(cs[i], a, len);
        FromIterStep(n, cs, i, len, before, a[..]);
        len := len + req;
        i := i + 1;
      }
      FromIterDone(n, cs, i, len, a[..]);
      t := new String.FromRawParts(a, len);
    }

    /** `TryFrom<char>`: the character's encoding parsed as a string, which can fail on length. */
    static method TryFromChar(n: nat, c: Scalar) returns (r: Result<String, LengthError>)
      ensures r.Err? <==> n < |Encode(c)|
      ensures r.Err? ==> r.error == LengthError(n, |Encode(c)|)
      ensures r.Ok? ==> fresh(r.value) && fresh(r.value.buf) && r.value.Valid() && r.value.N == n
      ensures r.Ok? ==> r.value.AsBytes() == Encode(c) && r.value.TailZeroed()
    {
      EncodeWellFormed(c);
      r := New(n, Encode(c));
    }

    /** `__string`, behind the `string!` macro: a literal that must fit. */
    static method FromLiteral(n: nat, s: seq<byte>) returns (t: String)
      requires IsUtf8(s) && |s| <= n
      ensures fresh(t) && fresh(t.buf) && t.Valid() && t.N == n
      ensures t.AsBytes() == s && t.TailZeroed()
    {
      t := NewUnchecked(n, s);
    }

    /**
     * `Decode::decode` once the length prefix `count` has been read from
     * the input: too long a length is refused, then the next `count` input
     * bytes are read into a zeroed buffer and checked.
     */
    static method Decode(n: nat, count: nat, input: seq<byte>)
      returns (r: Result<String, CollectionDecodeError>)
      requires count <= n ==> count <= |input|
      ensures n < count ==> r == Err(BadLength(LengthError(n, count)))
      ensures count <= n ==> (r.Err? <==> !IsUtf8(input[..count]))
      ensures count <= n && r.Err? ==> r.error.BadItem? && FirstInvalid(input[..count]) == Some(r.error.item)
      ensures r.Ok? ==> fresh(r.value) && fresh(r.value.buf) && r.value.Valid() && r.value.N == n
      ensures r.Ok? ==> r.value.AsBytes() == input[..count] && r.value.TailZeroed()
    {
      if count > n {
        return Err(BadLength(LengthError(n, count)));
      }
      var a := Zeroed(n);
      ghost var zeros := a[..];
      CopyInto(a, 0, input[..count]);
      assert a[count..] == zeros[count..];
      assert a[..count] == input[..count];
      var invalid := FirstInvalid(a[..count]);
      if invalid.Some? {
        return Err(BadItem(invalid.value));
      }
      var t := new String.FromRawParts(a, count);
      return Ok(t);
    }

    /** `as_bytes`: the bytes in use, and nothing past them. */
    function AsBytes(): (r: seq<byte>)
      requires Valid()
      reads this, buf
      ensures |r| == len && IsUtf8(r)
      ensures forall i :: 0 <= i < len ==> r[i] == buf[i]
    {
      buf[..len]
    }

    /** `as_str`: the same bytes, which are well-formed UTF-8. */
    function AsStr(): (r: seq<byte>)
      requires Valid()
      reads this, buf
      ensures IsUtf8(r) && r == AsBytes()
    {
      AsBytes()
    }

    /** `len`: the number of bytes in use, at most the capacity. */
    function Len(): (r: nat)
      requires Valid()
      reads this, buf
      ensures r == |AsBytes()| && r <= N
    {
      len
    }

    /** `is_empty`. */
    function IsEmpty(): (r: bool)
      requires Valid()
      reads this, buf
      ensures r <==> AsBytes() == []
    {
      Len() == 0
    }

    /** `is_char_boundary`: `index` splits the string into two well-formed halves. */
    function IsCharBoundary(index: nat): (r: bool)
      requires Valid()
      reads this, buf
      ensures r <==> index <= len && IsUtf8(AsBytes()[..index]) && IsUtf8(AsBytes()[index..])
    {
      BoundarySplit(AsBytes(), index);
      Utf8Syntax.IsCharBoundary(AsBytes(), index)
    }

    /** `is_ascii`: every byte in use is ASCII, so every offset is a boundary. */
    function IsAscii(): (r: bool)
      requires Valid()
      reads this, buf
      ensures r <==> forall i :: 0 <= i < len ==> buf[i] <= 0x7F
      ensures r ==> forall i :: 0 <= i <= len ==> Utf8Syntax.IsCharBoundary(AsBytes(), i)
    {
      if Ascii.IsAscii(AsBytes()) then
        Ascii.AsciiIsUtf8(AsBytes());
        true
      else false
    }

    /** `split_at`: the two halves at a boundary (the source panics elsewhere). */
    function SplitAt(mid: nat): (r: (seq<byte>, seq<byte>))
      requires Valid() && IsCharBoundary(mid)
      reads this, buf
      ensures |r.0| == mid && r.0 + r.1 == AsBytes()
      ensures IsUtf8(r.0) && IsUtf8(r.1)
    {
      (AsBytes()[..mid], AsBytes()[mid..])
    }

    /** `split_at_checked`: the two halves, or `None` off a boundary. */
    function SplitAtChecked(mid: nat): (r: Option<(seq<byte>, seq<byte>)>)
      requires Valid()
      reads this, buf
      ensures r.Some? <==> IsCharBoundary(mid)
      ensures r.Some? ==> |r.value.0| == mid && r.value.0 + r.value.1 == AsBytes()
    {
      if IsCharBoundary(mid) then Some(SplitAt(mid)) else None
    }

    /** `into_raw_parts`: the whole buffer and the length, fit to be given back to `from_raw_parts`. */
    function IntoRawParts(): (r: (seq<byte>, nat))
      requires Valid()
      reads this, buf
      ensures |r.0| == N && r.1 <= |r.0| && IsUtf8(r.0[..r.1])
      ensures r.0[..r.1] == AsBytes()
      ensures r.0 == buf[..] && r.1 == len
    {
      (buf[..], len)
    }

    /**
     * `PartialOrd::partial_cmp` between strings of any two capacities:
     * always an answer, given by the bytes in use alone.
     */
    function PartialCmp(other: String): (r: Option<Ordering>)
      requires Valid() && other.Valid()
      reads this, buf, other, other.buf
      ensures r.Some?
      ensures r.value == Less <==> LexLess(AsBytes(), other.AsBytes())
      ensures r.value == Equal <==> AsBytes() == other.AsBytes()
      ensures r.value == Greater <==> LexLess(other.AsBytes(), AsBytes())
    {
      CompareMeaning(AsBytes(), other.AsBytes());
      Some(Compare(AsBytes(), other.AsBytes()))
    }

    /** `Ord::cmp`, between strings of the same capacity: agrees with `partial_cmp`. */
    function Cmp(other: String): (r: Ordering)
      requires Valid() && other.Valid() && other.N == N
      reads this, buf, other, other.buf
      ensures PartialCmp(other) == Some(r)
    {
      Compare(AsBytes(), other.AsBytes())
    }

    /** `PartialEq`: the same bytes in use, whatever the capacities and the bytes past `len`. */
    function Eq(other: String): (r: bool)
      requires Valid() && other.Valid()
      reads this, buf, other, other.buf
      ensures r <==> len == other.len && forall i :: 0 <= i < len ==> buf[i] == other.buf[i]
      ensures r <==> PartialCmp(other) == Some(Equal)
    {
      AsBytes() == other.AsBytes()
    }

    /** `PartialOrd::lt`. */
    function Lt(other: String): (r: bool)
      requires Valid() && other.Valid()
      reads this, buf, other, other.buf
      ensures r <==> LexLess(AsBytes(), other.AsBytes())
    {
      CompareMeaning(AsBytes(), other.AsBytes());
      Compare(AsBytes(), other.AsBytes()) == Less
    }

    /** `PartialOrd::le`. */
    function Le(other: String): (r: bool)
      requires Valid() && other.Valid()
      reads this, buf, other, other.buf
      ensures r <==> LexLess(AsBytes(), other.AsBytes()) || AsBytes() == other.AsBytes()
    {
      CompareMeaning(AsBytes(), other.AsBytes());
      Compare(AsBytes(), other.AsBytes()) != Greater
    }

    /** `PartialOrd::gt`. */
    function Gt(other: String): (r: bool)
      requires Valid() && other.Valid()
      reads this, buf, other, other.buf
      ensures r <==> LexLess(other.AsBytes(), AsBytes())
    {
      CompareMeaning(AsBytes(), other.AsBytes());
      Compare(AsBytes(), other.AsBytes()) == Greater
    }

    /** `PartialOrd::ge`. */
    function Ge(other: String): (r: bool)
      requires Valid() && other.Valid()
      reads this, buf, other, other.buf
      ensures r <==> LexLess(other.AsBytes(), AsBytes()) || AsBytes() == other.AsBytes()
    {
      CompareMeaning(AsBytes(), other.AsBytes());
      Compare(AsBytes(), other.AsBytes()) != Less
    }

    /**
     * `make_ascii_uppercase`: upper-cases the ASCII letters in use, in
     * place; the length and the bytes past it stay as they were.
     */
    method MakeAsciiUppercase()
      requires Valid()
      modifies buf
      ensures Valid() && AsBytes() == Ascii.Uppercase(old(AsBytes()))
      ensures buf[len..] == old(buf[len..])
    {
      var i := 0;
      while i < len
        invariant i <= len
        invariant forall j :: 0 <= j < i ==> buf[j] == Ascii.ToUpper(old(buf[j]))
        invariant forall j :: i <= j < N ==> buf[j] == old(buf[j])
      {
        buf[i] := Ascii.ToUpper(buf[i]);
        i := i + 1;
      }
      assert buf[..len] == Ascii.Uppercase(old(buf[..len]));
      Ascii.CaseMappingKeepsUtf8(old(buf[..len]));
    }

    /**
     * `make_ascii_lowercase`: lower-cases the ASCII letters in use, in
     * place; the length and the bytes past it stay as they were.
     */
    method MakeAsciiLowercase()
      requires Valid()
      modifies buf
      ensures Valid() && AsBytes() == Ascii.Lowercase(old(AsBytes()))
      ensures buf[len..] == old(buf[len..])
    {
      var i := 0;
      while i < len
        invariant i <= len
        invariant forall j :: 0 <= j < i ==> buf[j] == Ascii.ToLower(old(buf[j]))
        invariant forall j :: i <= j < N ==> buf[j] == old(buf[j])
      {
        buf[i] := Ascii.ToLower(buf[i]);
        i := i + 1;
      }
      assert buf[..len] == Ascii.Lowercase(old(buf[..len]));
      Ascii.CaseMappingKeepsUtf8(old(buf[..len]));
    }
  }

  /**
   * What `into_raw_parts` returns, given back to `from_raw_parts`, makes a
   * string with the same capacity, buffer and length, equal to the first.
   */
  method RawPartsRoundTrip(s: String) returns (t: String)
    requires s.Valid()
    ensures fresh(t) && t.Valid() && t.N == s.N && t.buf[..] == s.buf[..] && t.len == s.len
    ensures t.Eq(s)
  {
    var parts := s.IntoRawParts();
    var a := new byte[|parts.0|](i => if 0 <= i < |parts.0| then parts.0[i] else 0);
    assert a[..] == parts.0;
    t := new String.FromRawParts(a, parts.1);
  }
}
