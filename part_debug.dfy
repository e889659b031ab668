/** The `Debug` rendering of a `HeaderPart`: a Rust byte-string literal
    `b"..."` in which printable ASCII passes through and every other byte is
    written as `\x` and two lowercase hexadecimal digits. */
module PartDebug {
  import opened Prelude
  import opened HeaderParts

  /** The bytes `0x20 <= c < 0x7f` are written as themselves. */
  predicate IsPrintableByte(c: Byte) {
    0x20 <= c < 0x7f
  }

  predicate IsPrintableChar(ch: char) {
    0x20 <= ch as int < 0x7f
  }

  /** The lowercase hexadecimal digit for `d`, as `{:x}` writes it. */
  function HexDigit(d: int): char
    requires 0 <= d < 16
  {
    if d < 10 then ('0' as int + d) as char else ('a' as int + d - 10) as char
  }

  predicate IsLowerHex(ch: char) {
    '0' <= ch <= '9' || 'a' <= ch <= 'f'
  }

  /** The number a lowercase hexadecimal digit stands for. */
  function HexValue(ch: char): int
    requires IsLowerHex(ch)
  {
    if ch <= '9' then ch as int - '0' as int else ch as int - 'a' as int + 10
  }

  /** The text written for one byte. */
  function ByteRepr(c: Byte): string {
    if IsPrintableByte(c) then [(c as int) as char]
    else ['\\', 'x', HexDigit(c as int / 16), HexDigit(c as int % 16)]
  }

  /** The text between the quotes: the bytes' texts, in order. */
  function Body(bytes: seq<Byte>): string {
    if bytes == [] then [] else ByteRepr(bytes[0]) + Body(bytes[1..])
  }

  /** The whole rendering of a part holding `bytes`. */
  function Render(bytes: seq<Byte>): string {
    "b\"" + Body(bytes) + "\""
  }

  /** Number of characters written for one byte: 1 if printable, else 4. */
  function ReprWidth(c: Byte): nat {
    if IsPrintableByte(c) then 1 else 4
  }

  function TotalWidth(bytes: seq<Byte>): nat {
    if bytes == [] then 0 else ReprWidth(bytes[0]) + TotalWidth(bytes[1..])
  }

  /** `<HeaderPart as Debug>::fmt`: writes `b"`, then each byte in turn,
      then `"`. The output equals the per-byte rendering. */
  method Fmt(part: HeaderPart) returns (out: string)
    ensures out == Render(part.bytes)
  {
    var u8a := part.bytes;
    out := "b\"";
    var i := 0;
    while i < |u8a|
      invariant 0 <= i <= |u8a|
      invariant out == "b\"" + Body(u8a[..i])
    {
      var c := u8a[i];
      if c >= 0x20 && c < 0x7f {
        out := out + [(c as int) as char];
      } else {
        out := out + ['\\', 'x', HexDigit(c as int / 16), HexDigit(c as int % 16)];
      }
      BodyConcat(u8a[..i], [c]);
      assert u8a[..i + 1] == u8a[..i] + [c];
      i := i + 1;
    }
    assert u8a[..i] == u8a;
    out := out + "\"";
  }

  /** The body is a per-byte concatenation. */
  lemma {:induction false} BodyConcat(a: seq<Byte>, b: seq<Byte>)
    ensures Body(a + b) == Body(a) + Body(b)
  {
    if a == [] {
      assert a + b == b;
    } else {
      assert (a + b)[1..] == a[1..] + b;
      BodyConcat(a[1..], b);
    }
  }

  /** Every byte is either itself, when printable, or exactly `\x` and two
      lowercase hex digits that denote it, high nibble first. */
  lemma ByteReprRule(c: Byte)
    ensures IsPrintableByte(c) ==> ByteRepr(c) == [(c as int) as char]
    ensures !IsPrintableByte(c) ==>
      var r := ByteRepr(c);
      && |r| == 4 && r[0] == '\\' && r[1] == 'x'
      && IsLowerHex(r[2]) && IsLowerHex(r[3])
      && HexValue(r[2]) * 16 + HexValue(r[3]) == c as int
  {
  }

  /** The rendering is `b"`, the body and `"`, and its length is 3 plus 1 for
      each printable byte and 4 for each other byte. */
  lemma RenderShape(bytes: seq<Byte>)
    ensures |Render(bytes)| == 3 + TotalWidth(bytes)
    ensures Render(bytes)[..2] == "b\"" && Render(bytes)[|Render(bytes)| - 1] == '"'
  {
    BodyLength(bytes);
  }

  lemma {:induction false} BodyLength(bytes: seq<Byte>)
    ensures |Body(bytes)| == TotalWidth(bytes)
  {
    if bytes != [] {
      BodyLength(bytes[1..]);
    }
  }

  /** Every character of the rendering is printable ASCII. */
  lemma {:induction false} RenderPrintable(bytes: seq<Byte>)
    ensures forall i :: 0 <= i < |Render(bytes)| ==> IsPrintableChar(Render(bytes)[i])
  {
    BodyPrintable(bytes);
  }

  lemma {:induction false} BodyPrintable(bytes: seq<Byte>)
    ensures forall i :: 0 <= i < |Body(bytes)| ==> IsPrintableChar(Body(bytes)[i])
  {
    if bytes != [] {
      BodyPrintable(bytes[1..]);
      var r := ByteRepr(bytes[0]);
      assert forall i :: 0 <= i < |r| ==> IsPrintableChar(r[i]);
    }
  }

  /** The rendering cannot be decoded: a literal backslash passes through, so
      the four bytes `\x00` render like the single byte 0. */
  lemma RenderNotInjective()
    ensures exists a: seq<Byte>, b: seq<Byte> :: a != b && Render(a) == Render(b)
  {
    var a: seq<Byte> := [0x5c, 0x78, 0x30, 0x30];
    var b: seq<Byte> := [0x00];
    assert Body(a) == "\\x00";
    assert Body(b) == "\\x00";
    assert a != b && Render(a) == Render(b);
  }
}
