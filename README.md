# HTTP/2 header representation

A Dafny model of the header types from `http2/src/solicit/header.rs` in grpc-rust:

- `HeaderPart` is one part of a header, either a name or a value. It is an immutable byte sequence. Every `From` conversion into it is modelled: `Vec<u8>`, `&[u8]`, `Cow<[u8]>`, `&[u8; N]` for N = 0..23, `String`, `&str` and `Cow<str>`. So is its `Debug` rendering as an escaped byte-string literal.
- `Header` is an immutable name/value pair. The model covers `Header::new`, the `name()` and `value()` accessors, the conversion from a `(name, value)` tuple, and the derived field-wise equality.
- `Headers` is an insertion-ordered list of headers. `add` appends in place. `get` is a first-match lookup by name that panics when nothing matches or when the value is not UTF-8.

Files:

- `prelude.dfy`: bytes, `Option` and `Cow`.
- `utf8.dfy`: Rust text as bytes that are well-formed UTF-8.
- `header_part.dfy`: `HeaderPart` and its conversions.
- `part_debug.dfy`: the `Debug` rendering.
- `header.dfy`: `Header` and `Headers`.

Modelling choices:

- Bytes are the newtype `Byte` (0..255).
- `Bytes`, the reference-counted buffer, is modelled by its contents. It is never mutated, so sharing cannot be observed.
- Rust `&str` and `String` are the subset type `Str`. A `Str` is a byte sequence that is well-formed UTF-8 under the grammar in section 4 of RFC 3629. `as_bytes` and `into_bytes` are therefore the identity on the bytes. `str::from_utf8` returns the bytes as text when they are well-formed and `None` (Rust's `Err`) otherwise.
- The source types that convert into `HeaderPart` form the datatype `Source`. `IntoPart` dispatches through the same delegation chain as the Rust impls:
  - an array goes through the slice conversion;
  - `String` goes through `into_bytes` and then the `Vec` conversion;
  - `&str` goes through `as_bytes` and then the slice conversion;
  - `Cow<str>` goes through `into_owned` and then the `String` conversion.
- `HeaderPart`'s `fmt` is the method `PartDebug.Fmt`. It loops over the bytes and appends to an output string, which stands in for the formatter. It is proved equal to the recursive per-byte function `Render`.
- `Headers` is a class. Its `seq<Header>` field stands for the public `Vec<Header>`. `Add` reassigns the field. `Get` is a function that reads it. The two `unwrap` panics of `get` are its two `requires`.
- `AddThenGet` states the add/get round trip for every list: after `Add(n, v)` on a list with no entry named `n`, `Get(n)` is `v`; on a list that already has `n`, `Get(n)` is unchanged.
- `InsertionOrderExample` is a client of `Headers`. It replays adding ("a","1"), ("b","2"), ("a","3"). It shows that all three entries are kept in order, that `get("a")` is "1", and that `get("z")` fails its precondition.

Points about the code:

- `impl Debug for Header` delegates to `misc::BsDebug` (header.rs:147-152), not to `HeaderPart`'s escaping, and is not modelled (see Left out).
- `HeaderPart` has no `PartialEq`, so equality of parts is stated as equality of the modelled value (`ConversionPathIrrelevant`, `NewHeaderEq`).
- `Utf8.LeadLength` and `Utf8.ValidUtf8` are the standard library's UTF-8 validity check behind `str::from_utf8`, written out from section 4 of RFC 3629. They are not part of the header code itself, and `Utf8.FromUtf8` and `Utf8.TextRoundTrip` are the model's definition of `str::from_utf8`, not properties proved about it.

## Model

| member | source | states |
|---|---|---|
| HeaderParts.IntoPart | http2/src/solicit/header.rs:31-110 | every conversion into `HeaderPart` is total and keeps exactly the source value's bytes (the UTF-8 bytes for text) |
| HeaderParts.ConversionPathIrrelevant | http2/src/solicit/header.rs:31-110 | two sources convert to the same part iff they hold the same bytes, whatever their types |
| HeaderParts.ArrayViaSlice | http2/src/solicit/header.rs:49-92 | a fixed array of length 0..23 converts as its slice, and also as a `Vec` with the same bytes |
| Utf8.TextRoundTrip | http2/src/solicit/header.rs:164 | `from_utf8` of a text's bytes gives the text back; `from_utf8` succeeds exactly on well-formed UTF-8 and then keeps the bytes |
| PartDebug.Fmt | http2/src/solicit/header.rs:14-29 | the loop that writes `b"`, each byte in turn and `"` produces exactly the per-byte rendering `Render` |
| PartDebug.ByteReprRule | http2/src/solicit/header.rs:19-24 | a byte in 0x20..0x7e is written as itself; any other byte is written as `\x` and two lowercase hex digits whose value, high nibble first, is the byte |
| PartDebug.BodyConcat | http2/src/solicit/header.rs:17-25 | the body is a per-byte concatenation: body(a ++ b) = body(a) ++ body(b) |
| PartDebug.BodyLength | http2/src/solicit/header.rs:18-25 | the body has 1 character per printable byte and 4 per other byte |
| PartDebug.RenderShape | http2/src/solicit/header.rs:16-26 | the rendering starts with `b"` and ends with `"`; its length is 3 plus 1 per printable byte and 4 per other byte |
| PartDebug.BodyPrintable | http2/src/solicit/header.rs:18-25 | every character of the body is printable ASCII |
| PartDebug.RenderPrintable | http2/src/solicit/header.rs:14-29 | every character of the rendering is printable ASCII |
| PartDebug.RenderNotInjective | http2/src/solicit/header.rs:19-24 | two different byte sequences have the same rendering (the literal bytes `\x00` and the byte 0), so the rendering cannot be decoded |
| SolicitHeader.NewHeader | http2/src/solicit/header.rs:118-138 | `Header::new(n, v).name()` is the bytes of `n` and `.value()` is the bytes of `v`, for every source type |
| SolicitHeader.HeaderFromPair | http2/src/solicit/header.rs:141-145 | the tuple conversion takes the name from the first component and the value from the second, and is `Header::new(p.0, p.1)` |
| SolicitHeader.HeaderEq | http2/src/solicit/header.rs:112-116 | the derived `PartialEq` holds exactly when the two headers are the same value |
| SolicitHeader.NewHeaderEq | http2/src/solicit/header.rs:112-129 | headers built by `new` are equal iff their names' bytes are equal and their values' bytes are equal |
| SolicitHeader.FirstNamed | http2/src/solicit/header.rs:164 | the `filter(..).next()` chain finds nothing iff no name byte-equals the key; otherwise it returns the matching entry that comes before every other match |
| SolicitHeader.FirstNamedAppendPresent | http2/src/solicit/header.rs:163-169 | appending any header keeps the first match of a name that is already present |
| SolicitHeader.FirstNamedAppendAbsent | http2/src/solicit/header.rs:163-169 | after appending a header named `n` to a list without `n`, the first match of `n` is that header |
| SolicitHeader.Headers.constructor | http2/src/solicit/header.rs:155-161 | `Headers::new()` and `Default` give the empty list |
| SolicitHeader.Headers.Get | http2/src/solicit/header.rs:163-165 | the result is the value of the first entry, in insertion order, whose name byte-equals the UTF-8 bytes of the key; it requires that such an entry exists and that its value is UTF-8 (the two `unwrap`s) |
| SolicitHeader.AddThenGet | http2/src/solicit/header.rs:163-169 | for any list: after `add(n, v)` where no entry was named `n`, `get(n)` returns `v`; where `n` was present (with a UTF-8 value), `get(n)` returns the same value as before |
| Utf8.LeadLength | http2/src/solicit/header.rs:164 | the standard library's UTF-8 check used by `get`: a well-formed character at the head of the bytes is 1 to 4 bytes long and fits in them (RFC 3629 section 4) |
| SolicitHeader.Headers.Add | http2/src/solicit/header.rs:167-169 | appends exactly one header built from the UTF-8 bytes of the name and value; earlier entries are unchanged, and repeated names are kept, with the earlier entry still found first |

## Left out

- `long-tests/with-rust/src/long_tests_pb.rs`: generated protobuf code. Its behaviour lives in the external `protobuf` runtime, which is not part of this model.
- `impl Debug for Header` (header.rs:147-152): it renders both fields through `misc::BsDebug`, which is not part of this model.
- The `fmt::Formatter` and its errors: `?` would propagate a write error, but the model writes into a plain string that cannot fail.
- `str::from_utf8` is modelled as a well-formedness check only. No decoding to code points is modelled.
- `Bytes` reference counting and O(1) cloning: these are performance properties. Only the contents are modelled.
- Borrowing and lifetimes: borrowed and owned `Cow` forms are distinguished only in that `into_owned` is applied.
- The public `Vec` field of `Headers` can be pushed to directly. The model's `entries` field is public in the same way, but no separate push operation is modelled.
