/** `HeaderPart`: one part of a header (its name or its value), an immutable
    byte sequence, and the family of total conversions into it. Rust's
    shared, reference-counted `Bytes` buffer is modelled by its contents: the
    buffer is never mutated, so sharing cannot be observed. */
module HeaderParts {
  import opened Prelude
  import opened Utf8

  datatype HeaderPart = HeaderPart(bytes: seq<Byte>)

  /** A fixed-size array `[u8; N]`; conversions exist for N = 0 to 23. */
  type FixedArray = a: seq<Byte> | |a| <= 23

  /** Every source type that has a `From` conversion into `HeaderPart`,
      i.e. every `N` with `N: Into<HeaderPart>`. */
  datatype Source =
    | Vec(vec: seq<Byte>)               // Vec<u8>
    | Slice(slice: seq<Byte>)           // &[u8]
    | CowBytes(cowBytes: Cow<seq<Byte>>) // Cow<[u8]>
    | Array(array: FixedArray)          // &[u8; N]
    | OwnedString(string: Str)          // String
    | StrSlice(str: Str)                // &str
    | CowStr(cowStr: Cow<Str>)          // Cow<str>

  /** The bytes a source value holds, read directly off the value. */
  function SourceBytes(src: Source): seq<Byte> {
    match src
    case Vec(v) => v
    case Slice(s) => s
    case CowBytes(Borrowed(b)) => b
    case CowBytes(Owned(o)) => o
    case Array(a) => a
    case OwnedString(s) => s
    case StrSlice(s) => s
    case CowStr(Borrowed(b)) => b
    case CowStr(Owned(o)) => o
  }

  // The individual `From` impls, each delegating as the Rust code does.

  function FromVec(vec: seq<Byte>): HeaderPart {
    HeaderPart(vec)
  }

  function FromSlice(buf: seq<Byte>): HeaderPart {
    HeaderPart(buf)
  }

  function FromCowBytes(cow: Cow<seq<Byte>>): HeaderPart {
    HeaderPart(cow.IntoOwned())
  }

  /** Arrays go through the slice conversion, `buf[..].into()`. */
  function FromArray(buf: FixedArray): HeaderPart {
    FromSlice(buf[..])
  }

  /** `String` goes through `into_bytes` and the `Vec` conversion. */
  function FromString(s: Str): HeaderPart {
    FromVec(AsBytes(s))
  }

  /** `&str` goes through `as_bytes` and the slice conversion. */
  function FromStr(s: Str): HeaderPart {
    FromSlice(AsBytes(s))
  }

  /** `Cow<str>` goes through `into_owned` and the `String` conversion. */
  function FromCowStr(cow: Cow<Str>): HeaderPart {
    FromString(cow.IntoOwned())
  }

  /** `Into::<HeaderPart>::into`: total, and keeps exactly the source's bytes
      whichever conversion path is taken. */
  function IntoPart(src: Source): (p: HeaderPart)
    ensures p.bytes == SourceBytes(src)
  {
    match src
    case Vec(v) => FromVec(v)
    case Slice(s) => FromSlice(s)
    case CowBytes(c) => FromCowBytes(c)
    case Array(a) => FromArray(a)
    case OwnedString(s) => FromString(s)
    case StrSlice(s) => FromStr(s)
    case CowStr(c) => FromCowStr(c)
  }

  /** The conversion path does not matter: two sources give the same part
      exactly when they hold the same bytes. In particular a text and its
      UTF-8 bytes, or an array and its slice, give the same part. */
  lemma ConversionPathIrrelevant(a: Source, b: Source)
    ensures IntoPart(a) == IntoPart(b) <==> SourceBytes(a) == SourceBytes(b)
  {
  }

  /** Each of the 24 array conversions agrees with the slice conversion. */
  lemma ArrayViaSlice(buf: FixedArray)
    ensures FromArray(buf) == FromSlice(buf) == FromVec(buf)
  {
  }
}
