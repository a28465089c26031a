# conststr in Dafny

A model of the core of the Rust crate `conststr`, with proofs about it. The crate provides `String<N>`, a string of at most `N` bytes of UTF-8 stored inline in a `[u8; N]` buffer together with the number of bytes in use. It also has two crate-internal UTF-8 helpers.

The model has five modules:

- `Utf8Syntax` (`utf8_syntax.dfy`) states the UTF-8 byte syntax of RFC 3629. Section 4 gives well-formedness and section 3 gives the encoding of a scalar value. It also states what the crate takes from Rust's `str` and `char`:
  - `str::from_utf8` together with `Utf8Error::valid_up_to`;
  - `str::is_char_boundary`;
  - `char::len_utf8` and `char::encode_utf8`.
- `Utf8` (`utf8.dfy`) models `utf8_char_len` and `decode_utf8` of `src/utf8/mod.rs`. Both are modelled as pure functions over bit-vectors, mirroring the source's masks, XORs and shifts. Decoding is proved to be the inverse of the RFC 3629 encoder.
- `LexOrder` (`lex_order.dfy`) is the byte-lexicographic order of `str` that every comparison of `String<N>` defers to.
- `Ascii` (`ascii.dfy`) is the byte-wise ASCII case mapping behind `make_ascii_uppercase` and `make_ascii_lowercase`.
- `ConstStr` (`string.dfy`) holds the class `String`:
  - `N` is a constant field, `buf` an array of exactly `N` bytes, and `len` a mutable field.
  - `Valid()` is the invariant that the source's safety comments rely on: `len <= N`, and the first `len` bytes are well-formed UTF-8.
  - Every constructor funnels into `FromRawParts`, as in the source.
  - The constructors that fill a zeroed buffer are methods that copy into a fresh array.
  - `FromIterator` is a method with the source's loop.
  - The case mappings are in-place loops over `buf`.
  - Views and comparisons are functions over `buf[..len]`.

`Errors` (`errors.dfy`) holds the two error records and `Wrappers` (`wrappers.dfy`) holds `Option` and `Result`.

Modelling choices:

- Bytes are `bv8`.
- A Rust `char` is a `bv32` that is at most 0x10FFFF and not a surrogate.
- `usize` values are unbounded naturals.
- Where the source has a generic capacity `N` or an input array length `M`, a static method takes `n` as a parameter and `data` as a sequence of bytes.

## Model

| member | source | states |
|---|---|---|
| `Utf8Syntax.ValidUpTo` | src/string/mod.rs:138-139 | the offset reported by `valid_up_to` is the length of a well-formed prefix, and it is the whole length exactly when the data is well formed |
| `Utf8Syntax.ValidUpToIsLongest` | src/string/mod.rs:138-139 | no well-formed prefix is longer than `valid_up_to` |
| `Utf8Syntax.ConcatUtf8` | src/string/mod.rs:571-573 | appending one well-formed string to another gives a well-formed string |
| `Utf8Syntax.SplitAtBoundary` | src/string/mod.rs:231-233 | cutting a well-formed string at a character boundary leaves two well-formed halves |
| `Utf8Syntax.BoundarySplit` | src/string/mod.rs:285-287 | on a well-formed string, an offset is a character boundary if and only if both halves there are well formed |
| `Utf8Syntax.AsciiSubstitution` | src/string/mod.rs:212-222 | replacing ASCII bytes by ASCII bytes neither makes nor breaks well-formedness |
| `Utf8Syntax.LenUtf8` | src/string/mod.rs:564 | `char::len_utf8`: every character takes 1 to 4 bytes |
| `Utf8Syntax.Encode` | src/string/mod.rs:571 | `char::encode_utf8`, the RFC 3629 encoding: 1 to 4 bytes for every `char` |
| `Utf8Syntax.EncodeLength` | src/string/mod.rs:563-564 | `len_utf8` is the length of the character's encoding |
| `Utf8Syntax.EncodeWellFormed` | src/string/mod.rs:711-714 | the encoding of any `char` is exactly one well-formed character |
| `Utf8Syntax.EncodeAllSnoc` | src/string/mod.rs:568-573 | writing one more character's encoding at the end extends the encoded text by exactly that encoding |
| `Utf8Syntax.EncodeAllUtf8` | src/string/mod.rs:576-578 | the concatenated encodings of any characters are well-formed UTF-8, which justifies `FromIterator`'s unchecked `from_raw_parts` |
| `Utf8.CharLen` | src/utf8/mod.rs:71-93 | 1 for bytes up to 0x7F; otherwise the leading ones of `prefix & 0xFC`: 2 for `110xxxxx`, 3 for `1110xxxx`, 4 for `11110xxx`, 5 for `111110xx`, 6 for `111111xx`; always 1 to 6; a continuation byte is a precondition violation |
| `Utf8.CharLenTestVectors` | src/utf8/test.rs:30-37 | the six test bytes 0x7F, 0xDF, 0xEF, 0xF7, 0xFB and 0xFF give 1 to 6 |
| `Utf8.CharLenRelease` | src/utf8/mod.rs:71-93 | a release build, without the assertion: a length of 1 to 6 for every byte, equal to `CharLen` on every lead byte and 1 on every continuation byte |
| `Utf8.CharLenAsWritten` | src/utf8/mod.rs:80-91 | a debug build: the assertion as written fires exactly for 0x80 to 0x83; otherwise the result is the release-build length, which agrees with `CharLen` on every lead byte and is 1 on every continuation byte 0x84 to 0xBF |
| `Utf8.CharLenAsWrittenAcceptsContinuation` | src/utf8/mod.rs:83-88 | the continuation byte 0x84 passes the assertion and is given length 1 |
| `Utf8.CharLenOfWellFormed` | src/utf8/mod.rs:14-15 | on the lead byte of a well-formed character the length is that character's byte count, so 5 and 6 never occur |
| `Utf8Syntax.CharAt` | src/utf8/mod.rs:10-15 | from a character boundary below the end of a well-formed `str`, the rest is well-formed and starts with a whole character |
| `Utf8.CharStart` | src/utf8/mod.rs:71-93 | a well-formed character starts with a lead byte whose `utf8_char_len` is the character's width, and its own bytes form that character |
| `Utf8.CharAtBoundary` | src/utf8/mod.rs:10-15 | at a boundary below the end of a `str`, the byte there is a lead byte and the `utf8_char_len` bytes from it are present and form one well-formed character of 1 to 4 bytes |
| `Utf8.AssembleWellFormed` | src/utf8/mod.rs:17-58 | the XOR-and-shift assembly of a well-formed 1- to 4-byte character gives a Unicode scalar (at most 0x10FFFF, no surrogate) whose RFC 3629 encoding is exactly those bytes |
| `Utf8.AssembleEncode` | src/utf8/mod.rs:17-50 | assembling the encoding of any scalar gives the scalar back |
| `Utf8.EncodeInjective` | src/utf8/mod.rs:58-63 | two scalars with the same encoding are equal, so the decoded `char` is unique |
| `Utf8.DecodeUtf8` | src/utf8/mod.rs:7-66 | at a character boundary below the end of a `str`, the returned length is `utf8_char_len` of the byte there and lies in 1..4; the bytes at `index..index+len` are the encoding of the returned `char` |
| `Utf8.DecodeEncoded` | src/utf8/mod.rs:7-66 | decoding the encoding of any scalar at offset 0 gives that scalar and its encoded length |
| `Utf8.DecodeUtf8Assembles` | src/utf8/mod.rs:12-50 | the returned `char` is the XOR-and-shift assembly of the `utf8_char_len` bytes at `index`, and the returned length is their count |
| `Utf8.DecodeReadsOneCharacter` | src/utf8/mod.rs:12-17 | the result depends only on the bytes of the character at `index`: two strings holding the same bytes there decode alike |
| `Utf8.DecodeTestVectors` | src/utf8/test.rs:8-27 | U+0000, U+00B1, U+FDF2 and U+1F54B decode to themselves with lengths 1, 2, 3 and 4 |
| `LexOrder.Compare` | src/string/mod.rs:616-621 | the order answers `Equal` exactly for equal byte sequences |
| `LexOrder.CompareLess` | src/string/mod.rs:669-671 | `Less` exactly when the first sequence is a proper prefix of the second, or holds the smaller byte at the first difference |
| `LexOrder.CompareReverse` | src/string/mod.rs:616-621 | swapping the operands reverses the answer |
| `LexOrder.CompareMeaning` | src/string/mod.rs:664-666 | `Equal`, `Less` and `Greater` mean equal, before and after in byte-lexicographic order |
| `LexOrder.CompareTransitive` | src/string/mod.rs:616-621 | the order is transitive |
| `LexOrder.Trichotomy` | src/string/mod.rs:616-621 | for any two byte sequences, exactly one of before, equal and after holds |
| `Ascii.ToUpper` | src/string/mod.rs:208-214 | a byte changes exactly when it is a lower-case ASCII letter, becoming its capital; no lower-case letter remains; ASCII stays ASCII |
| `Ascii.ToLower` | src/string/mod.rs:216-222 | a byte changes exactly when it is an upper-case ASCII letter, becoming its small form; no capital remains; ASCII stays ASCII |
| `Ascii.Uppercase` | src/string/mod.rs:212-214 | `str::make_ascii_uppercase` on values: the length is kept (the per-byte meaning is stated by `Ascii.ToUpper` and `Ascii.UppercaseChanges`) |
| `Ascii.Lowercase` | src/string/mod.rs:220-222 | `str::make_ascii_lowercase` on values: the length is kept (the per-byte meaning is stated by `Ascii.ToLower` and `Ascii.LowercaseChanges`) |
| `Ascii.UppercaseChanges` | src/string/mod.rs:208-214 | over a byte sequence, the changed positions are exactly the lower-case ASCII letters |
| `Ascii.LowercaseChanges` | src/string/mod.rs:216-222 | over a byte sequence, the changed positions are exactly the upper-case ASCII letters |
| `Ascii.CaseMappingKeepsUtf8` | src/string/mod.rs:212-222 | either case mapping keeps well-formed UTF-8 well formed, and ill-formed ill-formed |
| `Ascii.CaseMappingIdempotent` | src/string/mod.rs:212-222 | mapping twice equals mapping once; each mapping overrides the other |
| `Ascii.CaseMappingKeepsAscii` | src/string/mod.rs:212-222 | a case-mapped string is ASCII exactly when the original is |
| `Ascii.AsciiIsUtf8` | src/string/mod.rs:292-294 | ASCII text is well-formed UTF-8, and every offset in it is a character boundary |
| `ConstStr.FirstInvalid` | src/string/mod.rs:137-143 | no error exactly for well-formed data; otherwise the error holds the first offset no well-formed prefix can reach, and the byte found there |
| `ConstStr.CopyInto` | src/string/mod.rs:113-118 | the copy puts the source bytes at the offset and leaves the rest of the buffer unchanged |
| `ConstStr.TakenCount` | src/string/mod.rs:562-574 | the number of characters the loop takes before its `rem < req` stop: never more than there are |
| `ConstStr.EncodeUtf8Into` | src/string/mod.rs:568-571 | `c.encode_utf8(&mut buf[start..end])` writes exactly the character's `len_utf8` encoding bytes at `start` and changes no other byte |
| `ConstStr.TakenCountStep` | src/string/mod.rs:563-566 | a character whose `len_utf8` exceeds the room left stops the loop; otherwise it is taken and the loop goes on with less room |
| `ConstStr.TakenCountIsLongestFit` | src/string/mod.rs:562-574 | the characters `FromIterator` keeps fit in `N` bytes, and no longer prefix of the input fits, so it truncates at the first character that does not fit |
| `ConstStr.FromIterStep` | src/string/mod.rs:568-573 | encoding one fitting character at `len` keeps the buffer equal to the encodings so far followed by zeros |
| `ConstStr.FromIterDone` | src/string/mod.rs:562-578 | wherever the loop ends, the buffer holds exactly the encodings of the characters kept, is well formed up to `len`, and zero after it |
| `ConstStr.CopyFromSlice` | src/string/mod.rs:179 | on an array of the slice's length the whole array becomes the slice; on any other length it panics (reported as `false`) and no byte of the array changes |
| `ConstStr.UncheckedBufferAsWritten` | src/string/mod.rs:167-182 | as written, `from_utf8_unchecked` builds its buffer only when `N == M`, and panics for every `M < N` |
| `ConstStr.UncheckedBufferAsWrittenPanics` | src/string/mod.rs:175-181 | the one-byte well-formed input "A" into capacity 4 meets the compile-time check `M <= N` and still panics |
| `ConstStr.FromIterTestVector` | src/string/test.rs:10-14 | "hello world" collected into 4 bytes keeps four characters, the bytes of "hell" |
| `ConstStr.FromUtf8TestVectors` | src/string/test.rs:90-112 | `A\xF7c` fails with (0xF7, 1); `20\x20\xAC` fails with (0xAC, 3); `A\xC3\xBCc` and `20\xE2\x82\xAC` are accepted |
| `ConstStr.DecodeTestVector` | src/string/test.rs:16-28 | a 12-byte payload "if constexpr" passes the length and UTF-8 checks of capacity 0x100 |
| `ConstStr.OrderingTestVectors` | src/string/test.rs:52-73 | the nine comparisons of "Hello there!", "MEIN_GROẞ_GOTT" and "Hello" come out as the test expects |
| `ConstStr.String.FromRawParts` | src/string/mod.rs:202-206 | given `len <= N` and a well-formed prefix, the string adopts the buffer and length unchanged and is valid |
| `ConstStr.String.NewUnchecked` | src/string/mod.rs:107-124 | a fitting `str` gives a valid string of capacity `n` holding exactly its bytes, with zeros after them |
| `ConstStr.String.New` | src/string/mod.rs:83-96 | fails with `LengthError{remaining: N, count: len}` exactly when the `str` is longer than `N`; otherwise the string holds exactly its bytes, zero-filled after |
| `ConstStr.String.FromUtf8Unchecked` | src/string/mod.rs:162-187 | for well-formed data of length `M <= N`, the string has length `M` and holds exactly the data, zero-filled after |
| `ConstStr.String.FromUtf8` | src/string/mod.rs:137-149 | fails exactly on ill-formed data, with the byte at `valid_up_to` and that offset; otherwise the string holds exactly the data |
| `ConstStr.String.Default` | src/string/mod.rs:508-516 | the empty string over an all-zero buffer |
| `ConstStr.String.FromIter` | src/string/mod.rs:556-580 | the string holds the encodings of the longest prefix of the characters that fits, in order, zero-filled after; it never fails |
| `ConstStr.String.TryFromChar` | src/string/mod.rs:708-718 | fails with `LengthError{N, len_utf8}` exactly when the character's encoding does not fit; otherwise holds exactly that encoding |
| `ConstStr.String.FromLiteral` | src/string/mod.rs:779-785 | a literal of at most `N` bytes gives a string holding exactly its bytes |
| `ConstStr.String.Decode` | src/string/mod.rs:469-501 | a declared length over `N` gives `BadLength(LengthError{N, len})`; otherwise ill-formed payload bytes give `BadItem` with the first bad byte and its offset; otherwise the string holds exactly `len` payload bytes, zero-filled after |
| `ConstStr.String.AsBytes` | src/string/mod.rs:316-324 | exactly the first `len` bytes of the buffer, which are well-formed UTF-8 |
| `ConstStr.String.AsStr` | src/string/mod.rs:347-351 | the bytes in use, well formed, so `from_utf8_unchecked` is justified |
| `ConstStr.String.Len` | src/string/mod.rs:269-271 | the length of the bytes in use, at most the capacity |
| `ConstStr.String.IsEmpty` | src/string/mod.rs:276-278 | true exactly when no byte is in use |
| `ConstStr.String.IsCharBoundary` | src/string/mod.rs:285-287 | true exactly when the offset is within the string and splits it into two well-formed halves |
| `ConstStr.String.IsAscii` | src/string/mod.rs:292-294 | true exactly when every byte in use is at most 0x7F; then every offset is a boundary |
| `ConstStr.String.SplitAt` | src/string/mod.rs:231-233 | at a boundary, two well-formed halves that concatenate to the string, the first of length `mid` |
| `ConstStr.String.SplitAtChecked` | src/string/mod.rs:240-242 | `Some` exactly at a boundary, with halves that concatenate to the string |
| `ConstStr.String.IntoRawParts` | src/string/mod.rs:376-379 | exactly the stored buffer and length, which meet `from_raw_parts`'s requirements |
| `ConstStr.RawPartsRoundTrip` | src/string/mod.rs:368-379 | the raw parts given back to `from_raw_parts` rebuild a string with the same capacity, buffer contents and length, equal to the original |
| `ConstStr.String.PartialCmp` | src/string/mod.rs:664-666 | always `Some`; `Less`, `Equal` or `Greater` as the bytes in use compare lexicographically, for any two capacities |
| `ConstStr.String.Cmp` | src/string/mod.rs:616-621 | agrees with `partial_cmp` |
| `ConstStr.String.Eq` | src/string/mod.rs:623-628 | true exactly when the lengths and the bytes in use agree, whatever the capacities and the bytes past `len`; agrees with `partial_cmp` |
| `ConstStr.String.Lt` | src/string/mod.rs:669-671 | true exactly when the bytes in use come first lexicographically |
| `ConstStr.String.Le` | src/string/mod.rs:674-676 | true exactly when the bytes in use come first or are equal |
| `ConstStr.String.Gt` | src/string/mod.rs:679-681 | true exactly when the bytes in use come after |
| `ConstStr.String.Ge` | src/string/mod.rs:684-686 | true exactly when the bytes in use come after or are equal |
| `ConstStr.String.MakeAsciiUppercase` | src/string/mod.rs:212-214 | the bytes in use become their ASCII upper-case mapping in place; the length, the bytes past it and validity are kept |
| `ConstStr.String.MakeAsciiLowercase` | src/string/mod.rs:220-222 | the bytes in use become their ASCII lower-case mapping in place; the length, the bytes past it and validity are kept |

## Left out

- `src/string/serde.rs`, the serde adapter: it forwards to `String::new` through foreign serializer traits.
- The `oct` wire format:
  - the integer encoding of the length prefix;
  - `Encode` and `SizedEncode`;
  - the advance of the input cursor.
- `ConstStr.String.Decode`: takes the already-decoded length prefix as an argument. It requires the input to hold at least that many bytes, because what `Input::read_into` does with a shorter input belongs to the `oct` crate, which is not part of this model.
- `split_at_mut`, `split_at_mut_checked`, `as_mut_str`, `as_bytes_mut`, `AsMut`, `BorrowMut`, `DerefMut` and `IndexMut`: each hands out a mutable borrow of the buffer, and Rust borrows are not modelled. The split logic is that of `SplitAt` and `SplitAtChecked`.
- `as_ptr` and `as_mut_ptr`, and the raw-pointer copies (`copy_nonoverlapping`, `ptr.read`): the copies are modelled as array copies.
- `Deref`, `Index`, `AsRef<str>`, `AsRef<[u8]>` and `Borrow<str>`: they forward to `as_str` or `as_bytes`.
- `FromStr`, `TryFrom<&str>` and `TryFrom<alloc::string::String>`: they forward to `new`, which `ConstStr.String.New` models.
- `PartialEq<str>`, `PartialEq<&str>`, `PartialEq<Cow<str>>` and `PartialEq<alloc::string::String>`: the same byte equality as `ConstStr.String.Eq`, against a plain byte sequence.
- `Hash`, `Debug`, `Display` and the error types' `Display`, `From<Infallible>` and conversions into `oct` errors: formatting and hashing feed foreign code.
- `into_boxed_str`, `into_std_string`, the `From` conversions into `Box<str>` and `alloc::string::String`, `ToSocketAddrs`, and `AsRef<OsStr>`/`AsRef<Path>`: standard-library conversions with no logic of their own.
- `String<N>` is a `Copy` value in Rust that owns its buffer. Here the buffer is an array. Every constructor except `ConstStr.String.FromRawParts` creates a fresh one. `FromRawParts` adopts the caller's array, as `from_raw_parts` takes the caller's buffer, so in the model two strings can share one array, which Rust's value semantics rule out. Copies of a string are not modelled.
- The `string!` macro's compile-time evaluation (`src/lib.rs`). The `assert!` in `__string` is a precondition of `ConstStr.String.FromLiteral`.
- Compile-time checks on array lengths become preconditions: `M <= N` in `from_utf8_unchecked`, and with it `from_utf8`.
- `usize` overflow: lengths are unbounded naturals. No length in the source can exceed the size of an array in memory.
- `decode_utf8`'s `debug_assert!(char::from_u32(c).is_some())` and `unreachable!()`: they are not modelled as checks. The contract of `Utf8.DecodeUtf8` proves that they cannot fire on a well-formed `str` at a boundary: its result is a `Scalar`, and its length is 1 to 4.
- `Utf8.CharLen`: models the function with the contract its assertion intends, namely that the byte is not a continuation byte. Release builds skip the assertion and return a length for every byte, 1 for 0x80 to 0x83 included. `Utf8.CharLenRelease` models the release build. `Utf8.CharLenAsWritten` models the debug build, where 0x80 to 0x83 stop at the assertion.
- `Utf8.DecodeUtf8` and `ConstStr.String.SplitAt`: the source's panics become preconditions. For `decode_utf8`, these are the `assert!(buf.is_char_boundary(index))` and the out-of-bounds `buf[0]` when `index` is the length (src/utf8/mod.rs:10-14). For `split_at`, it is the panic off a character boundary (src/string/mod.rs:226-232). The panicking cases are not modelled; `ConstStr.String.SplitAtChecked` models the checked form, which returns `None` there.
- `ConstStr.String.FromUtf8Unchecked` and `ConstStr.String.FromUtf8`: model the corrected copy for `M < N` (see Findings). As written, both panic for such input.

## Findings

| source | as written | input that shows it | evidently intended | confidence | as-written member | corrected member |
|---|---|---|---|---|---|---|
| src/string/mod.rs:175-181 | for `M < N`, `buf.copy_from_slice(&data)` copies the `M` data bytes over all `N` bytes of the new buffer, and `copy_from_slice` panics unless the lengths are equal, so every `M < N` that the compile-time check `M <= N` admits panics | `String::<4>::from_utf8_unchecked(*b"A")`, and so also `String::<4>::from_utf8(*b"A")` | copy the data into `buf[..M]` and leave the rest zero | high; not executed | `ConstStr.UncheckedBufferAsWrittenPanics` | `ConstStr.String.FromUtf8Unchecked` |
| src/utf8/mod.rs:81-88 | the assertion against non-prefix bytes compares `prefix & 0b11111100` with `0b10000000`, so it catches only 0x80 to 0x83; the other continuation bytes, 0x84 to 0xBF, pass and get length 1 (one leading one bit) | `utf8_char_len(0x84)` returns 1 without the assertion firing | reject every continuation byte, `prefix & 0b11000000 == 0b10000000` | high; not executed | `Utf8.CharLenAsWritten` | `Utf8.CharLen` |
