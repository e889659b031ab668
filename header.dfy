/** `Header`, an immutable name/value pair, and `Headers`, the
    insertion-ordered list of them with append and first-match lookup. */
module SolicitHeader {
  import opened Prelude
  import opened Utf8
  import opened HeaderParts

  datatype Header = Header(name: seq<Byte>, value: seq<Byte>) {

    /** `Header::name`: a view of the name's bytes. */
    function Name(): seq<Byte> {
      name
    }

    /** `Header::value`: a view of the value's bytes. */
    function Value(): seq<Byte> {
      value
    }
  }

  /** `Header::new`: converts both sources into header parts and keeps their
      bytes; `name()` and `value()` then give back exactly those bytes. */
  function NewHeader(name: Source, value: Source): (h: Header)
    ensures h.Name() == SourceBytes(name)
    ensures h.Value() == SourceBytes(value)
  {
    Header(IntoPart(name).bytes, IntoPart(value).bytes)
  }

  /** `From<(N, V)> for Header`: the pair's first component is the name and
      its second the value. */
  function HeaderFromPair(p: (Source, Source)): (h: Header)
    ensures h.Name() == SourceBytes(p.0) && h.Value() == SourceBytes(p.1)
    ensures h == NewHeader(p.0, p.1)
  {
    NewHeader(p.0, p.1)
  }

  /** The derived `PartialEq`: field by field over both byte sequences. It is
      the identity of headers. */
  function HeaderEq(a: Header, b: Header): (r: bool)
    ensures r <==> a == b
  {
    a.name == b.name && a.value == b.value
  }

  /** Headers built by `new` are equal exactly when their names hold the same
      bytes and their values hold the same bytes, whatever the sources' types. */
  lemma NewHeaderEq(n1: Source, v1: Source, n2: Source, v2: Source)
    ensures HeaderEq(NewHeader(n1, v1), NewHeader(n2, v2)) <==>
      SourceBytes(n1) == SourceBytes(n2) && SourceBytes(v1) == SourceBytes(v2)
  {
  }

  /** `iter().filter(|h| h.name() == name).next()`: the first header, in list
      order, whose name is byte-equal to `name`. */
  function FirstNamed(hs: seq<Header>, name: seq<Byte>): (r: Option<Header>)
    ensures r.None? <==> forall i :: 0 <= i < |hs| ==> hs[i].Name() != name
    ensures r.Some? ==> exists i :: (0 <= i < |hs| && hs[i] == r.value && hs[i].Name() == name &&
      forall j :: 0 <= j < i ==> hs[j].Name() != name)
  {
    if hs == [] then None
    else if hs[0].Name() == name then Some(hs[0])
    else
      var r := FirstNamed(hs[1..], name);
      assert forall i :: 1 <= i < |hs| ==> hs[i] == hs[1..][i - 1];
      r
  }

  /** Appending never changes which header is found first for a name that is
      already present. */
  lemma {:induction false} FirstNamedAppendPresent(hs: seq<Header>, h: Header, name: seq<Byte>)
    requires FirstNamed(hs, name).Some?
    ensures FirstNamed(hs + [h], name) == FirstNamed(hs, name)
  {
    assert hs != [];
    if hs[0].Name() != name {
      assert (hs + [h])[1..] == hs[1..] + [h];
      FirstNamedAppendPresent(hs[1..], h, name);
    }
  }

  /** For a name not yet present, the appended header is the one found. */
  lemma {:induction false} FirstNamedAppendAbsent(hs: seq<Header>, h: Header, name: seq<Byte>)
    requires FirstNamed(hs, name).None?
    requires h.Name() == name
    ensures FirstNamed(hs + [h], name) == Some(h)
  {
    if hs != [] {
      assert (hs + [h])[1..] == hs[1..] + [h];
      FirstNamedAppendAbsent(hs[1..], h, name);
    }
  }

  /** `Headers`: a list of headers in insertion order, grown in place. */
  class Headers {
    var entries: seq<Header>

    /** `Headers::new` and `Default`: the empty list. */
    constructor ()
      ensures entries == []
    {
      entries := [];
    }

    /** `Headers::get`: the value of the first header, in insertion order,
        whose name is byte-equal to the UTF-8 bytes of `name`, as text. The
        Rust code panics (two `unwrap`s) when no header matches or when that
        header's value is not UTF-8; those are the two preconditions. */
    function Get(name: Str): (v: Str)
      reads this
      requires FirstNamed(entries, AsBytes(name)).Some?
      requires ValidUtf8(FirstNamed(entries, AsBytes(name)).value.Value())
      ensures exists i :: (0 <= i < |entries| && entries[i].Name() == AsBytes(name) &&
        AsBytes(v) == entries[i].Value() &&
        forall j :: 0 <= j < i ==> entries[j].Name() != AsBytes(name))
    {
      FromUtf8(FirstNamed(entries, AsBytes(name)).value.Value()).value
    }

    /** `Headers::add`: appends one header built from the two texts' bytes
        and leaves every earlier header in place. Repeated names are kept:
        a name already present is still found at its first header, and a new
        name is found at the appended one. */
    method Add(name: Str, value: Str)
      modifies this
      ensures entries == old(entries) + [NewHeader(StrSlice(name), StrSlice(value))]
      ensures |entries| == |old(entries)| + 1
      ensures entries[|entries| - 1].Name() == AsBytes(name)
      ensures entries[|entries| - 1].Value() == AsBytes(value)
      ensures FirstNamed(old(entries), AsBytes(name)).Some? ==>
        FirstNamed(entries, AsBytes(name)) == FirstNamed(old(entries), AsBytes(name))
      ensures FirstNamed(old(entries), AsBytes(name)).None? ==>
        FirstNamed(entries, AsBytes(name)) == Some(Header(name, value))
    {
      var h := NewHeader(StrSlice(name), StrSlice(value));
      if FirstNamed(entries, AsBytes(name)).Some? {
        FirstNamedAppendPresent(entries, h, AsBytes(name));
      } else {
        FirstNamedAppendAbsent(entries, h, AsBytes(name));
      }
      entries := entries + [h];
    }
  }

  /** The add/get round trip for every list: a name added for the first time
      is looked up to the value just added, and adding under a name already
      present leaves its lookup unchanged. */
  method AddThenGet(hs: Headers, name: Str, value: Str)
    modifies hs
    ensures FirstNamed(old(hs.entries), name).None? ==>
      FirstNamed(hs.entries, name).Some? &&
      ValidUtf8(FirstNamed(hs.entries, name).value.Value()) &&
      hs.Get(name) == value
    ensures (FirstNamed(old(hs.entries), name).Some? &&
             ValidUtf8(FirstNamed(old(hs.entries), name).value.Value())) ==>
      FirstNamed(hs.entries, name) == FirstNamed(old(hs.entries), name) &&
      hs.Get(name) == old(hs.Get(name))
  {
    hs.Add(name, value);
  }

  /** A list grown by `add` answers `get` with the first value added under
      each name: adding ("a","1"), ("b","2"), ("a","3") keeps all three in
      order, and `get("a")` is "1". */
  method InsertionOrderExample()
  {
    var a: Str := [0x61];
    var b: Str := [0x62];
    var one: Str := [0x31];
    var two: Str := [0x32];
    var three: Str := [0x33];
    var hs := new Headers();
    hs.Add(a, one);
    hs.Add(b, two);
    hs.Add(a, three);
    assert hs.entries == [Header(a, one), Header(b, two), Header(a, three)];
    assert FirstNamed(hs.entries, a) == Some(Header(a, one));
    assert hs.Get(a) == one;
    assert FirstNamed(hs.entries, [0x7a]).None?;
  }
}
