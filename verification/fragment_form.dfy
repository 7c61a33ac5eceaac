/**
 * Reading the URI fragment form back, as section 6 of RFC 6901 describes
 * it: drop the `#`, percent-decode the rest (section 2.1 of RFC 3986,
 * either case of hex digit accepted), and read the result as a plain-form
 * pointer, so that `~0` and `~1` are unescaped after decoding. Decoded
 * bytes are read one character per byte; UTF-8 decoding is not modelled.
 *
 * Against this reader `uri_fragment` is the inverse only for tokens free
 * of `/` and `~`: it percent-encodes each token without escaping it
 * first. `EscapedFragmentText` is the form that escapes first, and it
 * reads back for every pointer.
 */
module FragmentForm {
  import opened Wrappers
  import opened Utf8
  import opened Pointer
  import opened PlainForm

  function HexValue(c: char): Option<nat>
  {
    if '0' <= c <= '9' then Some(c as int - '0' as int)
    else if 'a' <= c <= 'f' then Some(c as int - 'a' as int + 10)
    else if 'A' <= c <= 'F' then Some(c as int - 'A' as int + 10)
    else None
  }

  function Cons(b: byte, rest: Option<seq<byte>>): Option<seq<byte>>
  {
    match rest
    case Some(bs) => Some([b] + bs)
    case None => None
  }

  /** Percent-decodes one piece: `%` and two hex digits is a byte, an ASCII character is its own byte. */
  function PercentDecode(s: string): Option<seq<byte>>
  {
    if s == [] then Some([])
    else if s[0] == '%' then
      if |s| >= 3 && HexValue(s[1]).Some? && HexValue(s[2]).Some? then
        Cons(HexValue(s[1]).value * 16 + HexValue(s[2]).value, PercentDecode(s[3..]))
      else None
    else if s[0] as int < 0x80 then Cons(s[0] as int, PercentDecode(s[1..]))
    else None
  }

  /** Bytes read one character per byte. */
  function Latin(bs: seq<byte>): (r: string)
    ensures |r| == |bs|
    ensures forall i :: 0 <= i < |bs| ==> r[i] as int == bs[i]
  {
    if bs == [] then [] else [bs[0] as char] + Latin(bs[1..])
  }

  /** The tokens a fragment-form string denotes, each as its bytes one character per byte, if it is well formed. */
  function ReadFragment(s: string): Option<seq<string>>
  {
    if s == [] || s[0] != '#' then None
    else
      match PercentDecode(s[1..])
      case None => None
      case Some(bs) => ReadPointer(Latin(bs))
  }

  /** Each token's UTF-8 bytes, one character per byte: what reading a fragment gives back. */
  function LatinEach(toks: seq<string>): (r: seq<string>)
    ensures |r| == |toks|
    ensures forall i :: 0 <= i < |toks| ==> r[i] == Latin(Encode(toks[i]))
  {
    if toks == [] then [] else [Latin(Encode(toks[0]))] + LatinEach(toks[1..])
  }

  /** The path `uri_fragment` percent-encodes: `/` and the unescaped token, for each token. */
  function RawPath(toks: seq<string>): string
  {
    if toks == [] then "" else "/" + toks[0] + RawPath(toks[1..])
  }

  /** The fragment form of section 6 of RFC 6901: the plain form, UTF-8 encoded and percent-encoded. */
  function EscapedFragmentText(toks: seq<string>): string
  {
    "#" + PercentEncode(Encode(Render(toks)))
  }

  predicate IsLowerHex(c: char)
  {
    '0' <= c <= '9' || 'a' <= c <= 'f'
  }

  /**
   * Text that is safe in a URI fragment: every character is a legal
   * fragment byte or a `%` that starts a two-digit lower-case escape.
   */
  predicate FragmentSafe(s: string)
  {
    && (forall i :: 0 <= i < |s| ==> s[i] == '%' || (s[i] as int < 256 && LegalFragmentByte(s[i] as int)))
    && (forall i :: 0 <= i < |s| && s[i] == '%' ==> i + 2 < |s| && IsLowerHex(s[i + 1]) && IsLowerHex(s[i + 2]))
  }

  // ---------------------------------------------------------------------
  // Bytes

  lemma HexDigitValue(n: nat)
    requires n < 16
    ensures HexValue(HexDigit(n)) == Some(n) && IsLowerHex(HexDigit(n))
  {
    var digits := "0123456789abcdef";
    assert digits[0] == '0' && digits[9] == '9' && digits[10] == 'a' && digits[15] == 'f';
    if n < 10 {
      assert HexDigit(n) as int == '0' as int + n by {
        assert forall k :: 0 <= k < 10 ==> digits[k] as int == '0' as int + k;
      }
    } else {
      assert HexDigit(n) as int == 'a' as int + (n - 10) by {
        assert forall k :: 10 <= k < 16 ==> digits[k] as int == 'a' as int + (k - 10);
      }
    }
  }

  /** Decoding undoes the encoding of one byte, whatever follows it. */
  lemma DecodeEncodeByte(b: byte, rest: string)
    ensures PercentDecode(PercentEncodeByte(b) + rest) == Cons(b, PercentDecode(rest))
  {
    var s := PercentEncodeByte(b) + rest;
    if LegalFragmentByte(b) {
      assert s[0] == b as char && s[1..] == rest;
    } else {
      HexDigitValue(b / 16);
      HexDigitValue(b % 16);
      assert s[0] == '%' && s[1] == HexDigit(b / 16) && s[2] == HexDigit(b % 16) && s[3..] == rest;
    }
  }

  /** Percent-decoding gives back the bytes that were percent-encoded. */
  lemma {:induction false} DecodeEncode(bs: seq<byte>)
    ensures PercentDecode(PercentEncode(bs)) == Some(bs)
  {
    if bs != [] {
      DecodeEncode(bs[1..]);
      DecodeEncodeByte(bs[0], PercentEncode(bs[1..]));
      assert bs == [bs[0]] + bs[1..];
    }
  }

  lemma SafeConcat(a: string, b: string)
    requires FragmentSafe(a) && FragmentSafe(b)
    ensures FragmentSafe(a + b)
  {
    var s := a + b;
    forall i | 0 <= i < |s|
      ensures s[i] == '%' || (s[i] as int < 256 && LegalFragmentByte(s[i] as int))
    {
      if i >= |a| {
        assert s[i] == b[i - |a|];
      }
    }
    forall i | 0 <= i < |s| && s[i] == '%'
      ensures i + 2 < |s| && IsLowerHex(s[i + 1]) && IsLowerHex(s[i + 2])
    {
      if i >= |a| {
        assert s[i] == b[i - |a|];
        assert s[i + 1] == b[i - |a| + 1] && s[i + 2] == b[i - |a| + 2];
      } else {
        assert s[i + 1] == a[i + 1] && s[i + 2] == a[i + 2];
      }
    }
  }

  lemma {:induction false} PercentEncodeSafe(bs: seq<byte>)
    ensures FragmentSafe(PercentEncode(bs))
    ensures 0x2F !in bs ==> '/' !in PercentEncode(bs)
  {
    if bs != [] {
      var b := bs[0];
      PercentEncodeSafe(bs[1..]);
      PercentEncodeByteSafe(b);
      SafeConcat(PercentEncodeByte(b), PercentEncode(bs[1..]));
      if 0x2F !in bs {
        assert 0x2F !in bs[1..];
      }
    }
  }

  lemma PercentEncodeByteSafe(b: byte)
    ensures FragmentSafe(PercentEncodeByte(b))
    ensures '/' in PercentEncodeByte(b) ==> b == 0x2F
  {
    if !LegalFragmentByte(b) {
      HexDigitValue(b / 16);
      HexDigitValue(b % 16);
    }
  }

  // ---------------------------------------------------------------------
  // Whole pointers

  /** `uri_fragment` output is `#` followed by text that is safe in a URI fragment. */
  lemma {:induction false} FragmentTextSafe(toks: seq<string>)
    ensures FragmentText(toks)[0] == '#'
    ensures FragmentSafe(FragmentText(toks)[1..])
  {
    assert FragmentText(toks)[1..] == FragmentTail(toks);
    if toks != [] {
      FragmentTextSafe(toks[1..]);
      assert FragmentText(toks[1..])[1..] == FragmentTail(toks[1..]);
      PercentEncodeSafe(Encode(toks[0]));
      assert FragmentSafe("/");
      SafeConcat("/", FragmentToken(toks[0]));
      SafeConcat("/" + FragmentToken(toks[0]), FragmentTail(toks[1..]));
    }
  }

  /** A token made only of legal fragment characters is written verbatim. */
  lemma {:induction false} FragmentTokenVerbatim(t: string)
    requires forall i :: 0 <= i < |t| ==> t[i] as int < 0x80 && LegalFragmentByte(t[i] as int)
    ensures FragmentToken(t) == t
  {
    if t != [] {
      FragmentTokenVerbatim(t[1..]);
      var b := t[0] as int;
      assert Encode(t) == [b] + Encode(t[1..]);
      assert PercentEncode(Encode(t)) == PercentEncodeByte(b) + PercentEncode(Encode(t[1..]));
      assert PercentEncodeByte(b) == [t[0]];
      assert t == [t[0]] + t[1..];
    }
  }

  /** An ASCII character inside a token is encoded on its own, between the encodings of its neighbours. */
  lemma FragmentTokenSplit(a: string, c: char, b: string)
    requires c as int < 0x80
    ensures FragmentToken(a + [c] + b) == FragmentToken(a) + PercentEncodeByte(c as int) + FragmentToken(b)
  {
    EncodeAppend(a + [c], b);
    EncodeAppend(a, [c]);
    assert Encode([c]) == [c as int] by {
      assert [c][1..] == [];
    }
    PercentEncodeAppend(Encode(a) + [c as int], Encode(b));
    PercentEncodeAppend(Encode(a), [c as int]);
    assert PercentEncode([c as int]) == PercentEncodeByte(c as int) by {
      assert [c as int][1..] == [];
    }
  }

  /**
   * A `/` inside a token is written raw, so the one-token pointer
   * `[a + "/" + b]` and the two-token pointer `[a, b]` have the same
   * fragment form: `uri_fragment` is not injective.
   */
  lemma SlashInTokenCollides(a: string, b: string)
    ensures [a + "/" + b] != [a, b]
    ensures FragmentText([a + "/" + b]) == FragmentText([a, b])
  {
    var ta, tb := FragmentToken(a), FragmentToken(b);
    var x := a + "/" + b;
    SlashTokenText(a, b);
    FragmentPair(x, b);
    FragmentPair(a, b);
    Reassociate("#/", ta + "/", tb);
    Reassociate("#/", ta, "/");
  }

  lemma SlashTokenText(a: string, b: string)
    ensures FragmentToken(a + "/" + b) == FragmentToken(a) + "/" + FragmentToken(b)
  {
    SlashByte();
    FragmentTokenSplit(a, '/', b);
  }

  lemma SlashByte()
    ensures PercentEncodeByte(0x2F) == "/"
  {
  }

  /** `~` is not written `~0` but percent-encoded as `%7e`. */
  lemma TildePercentEncoded(a: string, b: string)
    ensures FragmentToken(a + "~" + b) == FragmentToken(a) + "%7e" + FragmentToken(b)
  {
    FragmentTokenSplit(a, '~', b);
    HexDigitValue(7);
    HexDigitValue(14);
    assert PercentEncodeByte(0x7E) == "%7e";
  }

  // ---------------------------------------------------------------------
  // Bytes read as characters

  lemma {:induction false} LatinAppend(a: seq<byte>, b: seq<byte>)
    ensures Latin(a + b) == Latin(a) + Latin(b)
  {
    if a != [] {
      assert (a + b)[1..] == a[1..] + b;
      LatinAppend(a[1..], b);
    } else {
      assert a + b == b;
    }
  }

  /** ASCII text read back from its UTF-8 bytes is the same text. */
  lemma {:induction false} LatinEncodeAscii(t: string)
    requires forall i :: 0 <= i < |t| ==> t[i] as int < 0x80
    ensures Latin(Encode(t)) == t
  {
    if t != [] {
      LatinEncodeAscii(t[1..]);
      var e := Encode(t);
      assert e == [t[0] as int] + Encode(t[1..]);
      assert e[0] == t[0] as int && e[1..] == Encode(t[1..]);
      assert t == [t[0]] + t[1..];
    }
  }

  lemma LatinEncodeEscapeChar(c: char)
    ensures Latin(Encode(EscapeChar(c))) == Escape(Latin(EncodeChar(c)))
  {
    assert Encode([c]) == EncodeChar(c) by {
      assert [c][1..] == [];
    }
    assert Escape([c]) == EscapeChar(c) by {
      assert [c][1..] == [];
    }
    if c as int < 0x80 {
      LatinEncodeAscii([c]);
      LatinEncodeAscii(EscapeChar(c));
    } else {
      var x := Latin(EncodeChar(c));
      assert forall i :: 0 <= i < |x| ==> x[i] as int >= 0x80;
      EscapeVerbatim(x);
    }
  }

  /**
   * Escaping commutes with reading UTF-8 bytes as characters: the bytes
   * of a multi-byte character are never `~` or `/`.
   */
  lemma {:induction false} LatinEncodeEscape(t: string)
    ensures Latin(Encode(Escape(t))) == Escape(Latin(Encode(t)))
  {
    if t != [] {
      LatinEncodeEscape(t[1..]);
      assert Escape(t) == EscapeChar(t[0]) + Escape(t[1..]);
      EncodeAppend(EscapeChar(t[0]), Escape(t[1..]));
      LatinAppend(Encode(EscapeChar(t[0])), Encode(Escape(t[1..])));
      assert Encode(t) == EncodeChar(t[0]) + Encode(t[1..]);
      LatinAppend(EncodeChar(t[0]), Encode(t[1..]));
      EscapeAppend(Latin(EncodeChar(t[0])), Latin(Encode(t[1..])));
      LatinEncodeEscapeChar(t[0]);
    }
  }

  lemma EncodeSlash()
    ensures Encode("/") == [0x2F]
    ensures PercentEncode([0x2F]) == "/"
    ensures Latin([0x2F]) == "/"
  {
    assert "/"[1..] == [];
    assert [0x2F][1..] == [];
  }

  lemma {:induction false} LatinEncodeRender(toks: seq<string>)
    ensures Latin(Encode(Render(toks))) == Render(LatinEach(toks))
  {
    if toks != [] {
      var t := toks[0];
      LatinEncodeRender(toks[1..]);
      assert Render(toks) == "/" + Escape(t) + Render(toks[1..]);
      EncodeAppend("/" + Escape(t), Render(toks[1..]));
      EncodeAppend("/", Escape(t));
      LatinAppend(Encode("/") + Encode(Escape(t)), Encode(Render(toks[1..])));
      LatinAppend(Encode("/"), Encode(Escape(t)));
      EncodeSlash();
      LatinEncodeEscape(t);
      assert LatinEach(toks)[1..] == LatinEach(toks[1..]);
    }
  }

  // ---------------------------------------------------------------------
  // Reading fragments back

  /** `uri_fragment` percent-encodes the raw path: `/` and each token, with no `~0`/`~1` escaping. */
  lemma {:induction false} FragmentTailRaw(toks: seq<string>)
    ensures FragmentTail(toks) == PercentEncode(Encode(RawPath(toks)))
  {
    if toks != [] {
      var t := toks[0];
      FragmentTailRaw(toks[1..]);
      EncodeAppend("/" + t, RawPath(toks[1..]));
      EncodeAppend("/", t);
      PercentEncodeAppend(Encode("/") + Encode(t), Encode(RawPath(toks[1..])));
      PercentEncodeAppend(Encode("/"), Encode(t));
      EncodeSlash();
    }
  }

  /** Tokens free of `~` and `/` need no escaping: their raw path is their plain form. */
  lemma {:induction false} RawPathRender(toks: seq<string>)
    requires forall i :: 0 <= i < |toks| ==> '~' !in toks[i] && '/' !in toks[i]
    ensures RawPath(toks) == Render(toks)
  {
    if toks != [] {
      EscapeVerbatim(toks[0]);
      RawPathRender(toks[1..]);
    }
  }

  /** ASCII text with no `%` percent-decodes to its own bytes. */
  lemma {:induction false} PercentDecodeAscii(s: string)
    requires forall i :: 0 <= i < |s| ==> s[i] as int < 0x80 && s[i] != '%'
    ensures PercentDecode(s) == Some(Encode(s))
  {
    if s != [] {
      PercentDecodeAscii(s[1..]);
    }
  }

  /** Reading back `uri_fragment` output reads its raw path as a plain-form pointer. */
  lemma FragmentReadsRawPath(toks: seq<string>)
    ensures ReadFragment(FragmentText(toks)) == ReadPointer(Latin(Encode(RawPath(toks))))
  {
    assert FragmentText(toks)[1..] == FragmentTail(toks);
    FragmentTailRaw(toks);
    DecodeEncode(Encode(RawPath(toks)));
  }

  /** The escaped fragment form reads back as the pointer it was made from, for every pointer. */
  lemma ReadEscapedFragmentText(toks: seq<string>)
    ensures ReadFragment(EscapedFragmentText(toks)) == Some(LatinEach(toks))
  {
    assert EscapedFragmentText(toks)[1..] == PercentEncode(Encode(Render(toks)));
    DecodeEncode(Encode(Render(toks)));
    LatinEncodeRender(toks);
    ReadRender(LatinEach(toks));
  }

  /** For tokens free of `~` and `/`, `uri_fragment` writes the escaped fragment form. */
  lemma PlainTokensAgree(toks: seq<string>)
    requires forall i :: 0 <= i < |toks| ==> '~' !in toks[i] && '/' !in toks[i]
    ensures FragmentText(toks) == EscapedFragmentText(toks)
  {
    FragmentTailRaw(toks);
    RawPathRender(toks);
  }

  /**
   * When no token contains `~` or `/`, reading back the fragment form
   * gives each token's UTF-8 bytes, in order.
   */
  lemma ReadFragmentText(toks: seq<string>)
    requires forall i :: 0 <= i < |toks| ==> '~' !in toks[i] && '/' !in toks[i]
    ensures ReadFragment(FragmentText(toks)) == Some(LatinEach(toks))
  {
    PlainTokensAgree(toks);
    ReadEscapedFragmentText(toks);
  }

  lemma TildeFragmentText()
    ensures FragmentText(["~"]) == "#/%7e"
  {
    TildePercentEncoded("", "");
    assert FragmentToken("") == "";
    FragmentPair("~", "~");
  }

  lemma TildeDoesNotReadBack()
    ensures ReadFragment(FragmentText(["~"])) == None
  {
    FragmentReadsRawPath(["~"]);
    assert RawPath(["~"]) == "/~";
    LatinEncodeAscii("/~");
    ReadDefined("/~");
    assert "/~"[1] == '~';
  }

  lemma TildeEscapeReads()
    ensures ReadFragment("#/~0") == Some(["~"])
  {
    assert "#/~0"[1..] == "/~0";
    PercentDecodeAscii("/~0");
    LatinEncodeAscii("/~0");
    RenderPair("~", "");
    assert Escape("~") == "~0";
    ReadRender(["~"]);
  }

  /**
   * The one-token pointer `["~"]` is written `#/%7e`, which does not
   * read back at all; and `#/~0`, which reads as `["~"]`, is not what
   * `uri_fragment` writes for it.
   */
  lemma TildeFragmentMismatch()
    ensures FragmentText(["~"]) == "#/%7e"
    ensures ReadFragment(FragmentText(["~"])) == None
    ensures ReadFragment("#/~0") == Some(["~"]) && FragmentText(["~"]) != "#/~0"
  {
    TildeFragmentText();
    TildeDoesNotReadBack();
    TildeEscapeReads();
  }
}
