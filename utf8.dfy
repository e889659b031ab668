/** UTF-8 text as the byte sequences Rust's `str` and `String` hold.
    A Rust string is its UTF-8 bytes plus the guarantee that they are
    well-formed; `as_bytes`/`into_bytes` expose the bytes unchanged and
    `str::from_utf8` checks the guarantee. Well-formedness follows the
    grammar of section 4 of RFC 3629 (no overlong forms, no surrogates,
    nothing above U+10FFFF). */
module Utf8 {
  import opened Prelude

  predicate IsTail(b: Byte) {
    0x80 <= b <= 0xBF
  }

  /** Length of the well-formed character at the start of `s`, or 0 when `s`
      does not start with one. This and `ValidUtf8` are the standard
      library's validity check behind `str::from_utf8`, not header code. */
  function LeadLength(s: seq<Byte>): (n: nat)
    ensures n <= 4 && n <= |s|
    ensures n > 0 ==> |s| > 0
  {
    if |s| == 0 then 0
    else if s[0] <= 0x7F then 1
    else if 0xC2 <= s[0] <= 0xDF then
      if |s| >= 2 && IsTail(s[1]) then 2 else 0
    else if 0xE0 <= s[0] <= 0xEF then
      var lo: Byte := if s[0] == 0xE0 then 0xA0 else 0x80;
      var hi: Byte := if s[0] == 0xED then 0x9F else 0xBF;
      if |s| >= 3 && lo <= s[1] <= hi && IsTail(s[2]) then 3 else 0
    else if 0xF0 <= s[0] <= 0xF4 then
      var lo: Byte := if s[0] == 0xF0 then 0x90 else 0x80;
      var hi: Byte := if s[0] == 0xF4 then 0x8F else 0xBF;
      if |s| >= 4 && lo <= s[1] <= hi && IsTail(s[2]) && IsTail(s[3]) then 4 else 0
    else 0
  }

  /** `s` is a concatenation of well-formed UTF-8 characters. */
  predicate ValidUtf8(s: seq<Byte>)
    decreases |s|
  {
    s == [] || (LeadLength(s) > 0 && ValidUtf8(s[LeadLength(s)..]))
  }

  /** Rust `&str` and `String`: bytes known to be well-formed UTF-8. */
  type Str = s: seq<Byte> | ValidUtf8(s) witness []

  /** `str::as_bytes` and `String::into_bytes`: the text's own bytes. */
  function AsBytes(s: Str): seq<Byte> {
    s
  }

  /** `str::from_utf8`: the bytes reinterpreted as text, or `None` (Rust's
      `Err`) when they are not well-formed. */
  function FromUtf8(b: seq<Byte>): (r: Option<Str>)
  {
    if ValidUtf8(b) then Some(b) else None
  }

  /** The model's definition of `str::from_utf8`, spelled out: reading the
      bytes of a text back as text gives the original text, and `from_utf8`
      fails exactly on ill-formed bytes. These clauses follow from the
      definition of `FromUtf8`; they are not properties proved about the
      standard library's decoder. */
  lemma TextRoundTrip(s: Str, b: seq<Byte>)
    ensures FromUtf8(AsBytes(s)) == Some(s)
    ensures FromUtf8(b).Some? <==> ValidUtf8(b)
    ensures FromUtf8(b).Some? ==> AsBytes(FromUtf8(b).value) == b
  {
  }
}
