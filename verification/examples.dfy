/**
 * The concrete behaviour the library's documentation, examples and tests
 * pin down, stated against the model.
 */
module Examples {
  import opened Wrappers
  import opened JsonValue
  import opened Segments
  import opened Pointer
  import opened PlainForm
  import opened FragmentForm
  import opened Usize
  import opened Resolver

  /** The example document of section 5 of RFC 6901. */
  function RfcDoc(): Json
  {
    Obj(map[
      "foo" := Arr([Str("bar"), Str("baz")]),
      "" := Num(0),
      "a/b" := Num(1),
      "c%d" := Num(2),
      "e^f" := Num(3),
      "g|h" := Num(4),
      "i\\j" := Num(5),
      "k\"l" := Num(6),
      " " := Num(7),
      "m~n" := Num(8)
    ])
  }

  /** The document of the crate's own documentation example. */
  function DocExample(): Json
  {
    Obj(map[
      "foo" := Obj(map["bar" := Num(0), "baz" := Num(1)]),
      "quux" := Str("xyzzy")
    ])
  }

  /** Reads a plain-form pointer and resolves it. */
  function Resolve(doc: Json, s: string): (r: Option<Result<Json, IndexError>>)
    ensures r.Some? <==> PlainSyntax(s)
  {
    ReadDefined(s);
    match ReadPointer(s)
    case Some(toks) => Some(Get(doc, toks))
    case None => None
  }

  /** Resolving the plain form of a token sequence resolves the tokens. */
  lemma ResolveRendered(doc: Json, toks: seq<string>)
    ensures Resolve(doc, Render(toks)) == Some(Get(doc, toks))
  {
    ReadRender(toks);
  }

  /** The vectors of section 5 of RFC 6901 that reach the root and the array. */
  lemma RfcVectorsArray()
    ensures Resolve(RfcDoc(), "") == Some(Ok(RfcDoc()))
    ensures Resolve(RfcDoc(), "/foo") == Some(Ok(Arr([Str("bar"), Str("baz")])))
  {
    ResolveRendered(RfcDoc(), []);
    RfcPlainKey("foo");
  }

  lemma FooZeroText()
    ensures Render(["foo", "0"]) == "/foo/0"
  {
    EscapeVerbatim("foo");
    EscapeVerbatim("0");
    RenderPair("foo", "0");
  }

  lemma FooZeroValue()
    ensures Get(RfcDoc(), ["foo", "0"]) == Ok(Str("bar"))
  {
    InFoo(["0"]);
    StepIndex(Foo(), 0);
    assert Decimal(0) == "0";
  }

  /** The vector of section 5 of RFC 6901 that reaches into the array. */
  lemma RfcVectorArrayElement()
    ensures Resolve(RfcDoc(), "/foo/0") == Some(Ok(Str("bar")))
  {
    FooZeroText();
    FooZeroValue();
    ResolveRendered(RfcDoc(), ["foo", "0"]);
  }

  lemma EscapedKeyTexts()
    ensures Render(["a/b"]) == "/a~1b"
    ensures Render(["m~n"]) == "/m~0n"
  {
    RenderPair("a/b", "m~n");
    assert Escape("a/b") == "a~1b";
    assert Escape("m~n") == "m~0n";
  }

  /** The vector of section 5 of RFC 6901 whose key holds `/`. */
  lemma RfcVectorSlashKey()
    ensures Resolve(RfcDoc(), "/a~1b") == Some(Ok(Num(1)))
  {
    EscapedKeyTexts();
    ResolveRendered(RfcDoc(), ["a/b"]);
  }

  /** The vector of section 5 of RFC 6901 whose key holds `~`. */
  lemma RfcVectorTildeKey()
    ensures Resolve(RfcDoc(), "/m~0n") == Some(Ok(Num(8)))
  {
    EscapedKeyTexts();
    ResolveRendered(RfcDoc(), ["m~n"]);
  }

  /** The vectors of section 5 of RFC 6901 whose keys are empty or a space. */
  lemma RfcVectorsBlankKeys()
    ensures Resolve(RfcDoc(), "/") == Some(Ok(Num(0)))
    ensures Resolve(RfcDoc(), "/ ") == Some(Ok(Num(7)))
  {
    RenderPair("", " ");
    assert Escape(" ") == " ";
    ResolveRendered(RfcDoc(), [""]);
    ResolveRendered(RfcDoc(), [" "]);
  }

  /** A key of the RFC document with nothing to escape is reached by `/` and the key itself. */
  lemma RfcPlainKey(k: string)
    requires k in RfcDoc().fields && '~' !in k && '/' !in k
    ensures Resolve(RfcDoc(), "/" + k) == Some(Ok(RfcDoc().fields[k]))
  {
    EscapeVerbatim(k);
    RenderPair(k, k);
    ResolveRendered(RfcDoc(), [k]);
  }

  /** The vector of section 5 of RFC 6901 whose key holds `%`. */
  lemma RfcVectorPercentKey()
    ensures Resolve(RfcDoc(), "/c%d") == Some(Ok(Num(2)))
  {
    RfcPlainKey("c%d");
  }

  /** The vector of section 5 of RFC 6901 whose key holds `^`. */
  lemma RfcVectorCaretKey()
    ensures Resolve(RfcDoc(), "/e^f") == Some(Ok(Num(3)))
  {
    RfcPlainKey("e^f");
  }

  /** The vector of section 5 of RFC 6901 whose key holds `|`. */
  lemma RfcVectorBarKey()
    ensures Resolve(RfcDoc(), "/g|h") == Some(Ok(Num(4)))
  {
    RfcPlainKey("g|h");
  }

  /** The vector of section 5 of RFC 6901 whose key holds a backslash. */
  lemma RfcVectorBackslashKey()
    ensures Resolve(RfcDoc(), "/i\\j") == Some(Ok(Num(5)))
  {
    RfcPlainKey("i\\j");
  }

  /** The vector of section 5 of RFC 6901 whose key holds a double quote. */
  lemma RfcVectorQuoteKey()
    ensures Resolve(RfcDoc(), "/k\"l") == Some(Ok(Num(6)))
  {
    RfcPlainKey("k\"l");
  }

  function Foo(): seq<Json>
  {
    [Str("bar"), Str("baz")]
  }

  /** Resolving `/foo` and then more tokens resolves those tokens in the array. */
  lemma InFoo(rest: seq<string>)
    ensures Get(RfcDoc(), ["foo"] + rest) == Get(Arr(Foo()), rest)
  {
    assert Get(RfcDoc(), ["foo"]) == Ok(Arr(Foo()));
    GetAppend(RfcDoc(), ["foo"], rest);
  }

  /** An index past the end, and `-`, are out of bounds of `/foo`. */
  lemma OutOfBoundsVectors()
    ensures Get(RfcDoc(), ["foo", "9"]) == Err(OutOfBounds(9))
    ensures Get(RfcDoc(), ["foo", "-"]) == Err(OutOfBounds(2))
  {
    InFoo(["9"]);
    InFoo(["-"]);
    StepIndex(Foo(), 9);
    assert Decimal(9) == "9";
    StepDash(Foo());
  }

  /** A non-numeric token against `/foo` is a missing key; a token past a string is not indexable. */
  lemma NoSuchKeyVectors()
    ensures Get(RfcDoc(), ["foo", "bar"]) == Err(NoSuchKey("bar"))
    ensures Get(RfcDoc(), ["foo", "0", "x"]) == Err(NotIndexable)
  {
    InFoo(["bar"]);
    StepNotANumber(Foo(), "bar", 0);
    InFoo(["0", "x"]);
    StepIndex(Foo(), 0);
    assert Decimal(0) == "0";
  }

  lemma FooOne()
    ensures Step(Arr(Foo()), "1") == Ok(Str("baz"))
  {
    StepIndex(Foo(), 1);
    assert Decimal(1) == "1";
  }

  /** `01` selects element 1 of `/foo`. */
  lemma LeadingZeroVector()
    ensures Get(RfcDoc(), ["foo", "01"]) == Ok(Str("baz"))
  {
    InFoo(["01"]);
    FooOne();
    StepIndexSpellings(Foo(), "1");
  }

  /** `+1` selects element 1 of `/foo`. */
  lemma PlusSignVector()
    ensures Get(RfcDoc(), ["foo", "+1"]) == Ok(Str("baz"))
  {
    InFoo(["+1"]);
    FooOne();
    StepIndexSpellings(Foo(), "1");
  }

  /** The crate documentation's examples: `new(["foo", "bar"])` displays as `/foo/bar`. */
  lemma DocExampleRender()
    ensures Render(["foo", "bar"]) == "/foo/bar"
  {
    EscapeVerbatim("foo");
    EscapeVerbatim("bar");
    RenderPair("foo", "bar");
  }

  /** The parse of `/foo/bar` gives the same tokens. */
  lemma DocExampleParse()
    ensures ReadPointer("/foo/bar") == Some(["foo", "bar"])
  {
    DocExampleRender();
    ReadRender(["foo", "bar"]);
  }

  /** The same tokens come from splitting `"foo.bar"` on `.`. */
  lemma DocExampleSplit()
    ensures Split("foo.bar", '.') == ["foo", "bar"]
  {
    assert Join(["foo", "bar"], '.') == "foo.bar" by {
      assert ["foo", "bar"][1..] == ["bar"];
    }
    SplitJoin(["foo", "bar"], '.');
  }

  /** The crate documentation's example document resolves `/foo/bar` to `0`. */
  lemma DocExampleGet()
    ensures Get(DocExample(), ["foo", "bar"]) == Ok(Num(0))
  {
  }

  /** `uri_fragment` writes `%` as `%25`. */
  lemma PercentInFragment(a: string, b: string)
    ensures FragmentToken(a + "%" + b) == FragmentToken(a) + "%25" + FragmentToken(b)
  {
    FragmentTokenSplit(a, '%', b);
    HexDigitValue(2);
    HexDigitValue(5);
    assert PercentEncodeByte(0x25) == "%25";
  }

  lemma FragmentTokenOfPercent()
    ensures FragmentToken("f%o") == "f%25o"
  {
    PercentInFragment("f", "o");
    FragmentTokenVerbatim("f");
    FragmentTokenVerbatim("o");
  }

  lemma FragmentOfPercent()
    ensures FragmentText(["f%o"]) == "#/f%25o"
  {
    FragmentTokenOfPercent();
    FragmentPair("f%o", "");
  }

  /** `/f%o` and `#/f%25o` denote the same token. */
  lemma PercentTokenExample()
    ensures ReadPointer("/f%o") == Some(["f%o"])
    ensures ReadFragment("#/f%25o") == Some(["f%o"])
  {
    EscapeVerbatim("f%o");
    RenderPair("f%o", "");
    ReadRender(["f%o"]);
    FragmentOfPercent();
    assert '~' !in "f%o" && '/' !in "f%o";
    ReadFragmentText(["f%o"]);
    LatinEncodeAscii("f%o");
  }

  /** The crate's own `uri_fragment` test vectors: the empty token. */
  lemma FragmentOfEmptyToken()
    ensures FragmentText([""]) == "#/"
  {
    FragmentPair("", "");
  }

  lemma FragmentOfPerPercent()
    ensures FragmentToken("per%") == "per%25"
  {
    PercentInFragment("per", "");
    FragmentTokenVerbatim("per");
    assert "per" + "%" + "" == "per%";
  }

  lemma FragmentOfPercentCent()
    ensures FragmentToken("%cent") == "%25cent"
  {
    PercentInFragment("", "cent");
    FragmentTokenVerbatim("cent");
    assert "" + "%" + "cent" == "%cent";
  }

  /** The crate's own `uri_fragment` test vectors: `%` in two tokens. */
  lemma FragmentOfPercentTokens()
    ensures FragmentText(["per%", "%cent"]) == "#/per%25/%25cent"
  {
    FragmentOfPerPercent();
    FragmentOfPercentCent();
    FragmentPair("per%", "%cent");
    PercentTokensText();
  }

  lemma PercentTokensText()
    ensures "#/" + "per%25" + "/" + "%25cent" == "#/per%25/%25cent"
  {
  }

  /** The fragment form of section 6 of RFC 6901 for the key `c%d`: `c%25d`. */
  lemma RfcFragmentPercentKey()
    ensures FragmentToken("c%d") == "c%25d"
  {
    PercentInFragment("c", "d");
    FragmentTokenVerbatim("c");
    FragmentTokenVerbatim("d");
  }

  /** The fragment form of section 6 of RFC 6901 for the key ` `: `%20`. */
  lemma RfcFragmentSpaceKey()
    ensures FragmentToken(" ") == "%20"
  {
    FragmentTokenSplit("", ' ', "");
    HexDigitValue(2);
    HexDigitValue(0);
    assert PercentEncodeByte(0x20) == "%20";
    assert "" + [' '] + "" == " ";
  }

  /**
   * The key `e^f`: section 6 of RFC 6901 writes `e%5Ef`; `uri_fragment`
   * writes the hex digits in lower case, `e%5ef`.
   */
  lemma RfcFragmentCaretKey()
    ensures FragmentToken("e^f") == "e%5ef"
  {
    FragmentTokenSplit("e", '^', "f");
    FragmentTokenVerbatim("e");
    FragmentTokenVerbatim("f");
    CaretByte();
    assert "e" + ['^'] + "f" == "e^f";
    assert "e" + "%5e" + "f" == "e%5ef";
  }

  lemma CaretByte()
    ensures PercentEncodeByte(0x5E) == "%5e"
  {
    HexDigitValue(5);
    HexDigitValue(14);
  }

  /** The `create_from_str_array` example: build a pointer, display it, resolve it. */
  method CreateFromStrArray() returns (shown: string, indexed: Result<Json, IndexError>)
    ensures shown == "/foo/bar"
    ensures indexed == Ok(Num(0))
  {
    var ptr := new JsonPointer(["foo", "bar"]);
    shown := ptr.Display();
    DocExampleRender();
    indexed := Get(DocExample(), ptr.refToks);
    DocExampleGet();
  }

  /** Building `/foo` by `push`, extending it and `pop`ping back gives the same pointer. */
  method PushPopRoundTrip() returns (last: Option<string>, same: bool)
    ensures last == Some("0")
    ensures same
  {
    var ptr := new JsonPointer([]);
    ptr.Push("foo");
    var other := new JsonPointer(["foo"]);
    ptr.Push("0");
    last := ptr.Pop();
    same := ptr.Equals(other);
  }
}
