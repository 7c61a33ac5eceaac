/**
 * The JSON Pointer value (RFC 6901): an ordered sequence of reference
 * tokens, each held unescaped, with its two textual forms: the plain form
 * of section 3 of RFC 6901 (`Display`) and the URI fragment form of
 * section 6 (`uri_fragment`). Also the resolution error type.
 */
module Pointer {
  import opened Wrappers
  import opened Utf8

  /** Why a well-formed pointer failed to resolve against a document. */
  datatype IndexError =
    | NoSuchKey(key: string)   // missing object key, or an array token that is not a usize
    | NotIndexable             // a scalar was reached with tokens left
    | OutOfBounds(index: nat)  // an array index at or past the end

  // ---------------------------------------------------------------------
  // Plain form

  /** `~` is written `~0`, `/` is written `~1`, every other character as itself. */
  function EscapeChar(c: char): string
  {
    if c == '~' then "~0" else if c == '/' then "~1" else [c]
  }

  function Escape(t: string): (r: string)
    ensures '/' !in r
    ensures |r| >= |t|
  {
    if t == [] then [] else EscapeChar(t[0]) + Escape(t[1..])
  }

  /** The plain form: `/` and the escaped token, for each token in order; "" for the root. */
  function Render(toks: seq<string>): (r: string)
    ensures r == "" <==> toks == []
    ensures toks != [] ==> r[0] == '/'
  {
    if toks == [] then "" else "/" + Escape(toks[0]) + Render(toks[1..])
  }

  lemma {:induction false} EscapeAppend(a: string, b: string)
    ensures Escape(a + b) == Escape(a) + Escape(b)
  {
    if a != [] {
      assert (a + b)[1..] == a[1..] + b;
      EscapeAppend(a[1..], b);
    } else {
      assert a + b == b;
    }
  }

  /** Rendering distributes over concatenation of token sequences. */
  lemma {:induction false} RenderAppend(a: seq<string>, b: seq<string>)
    ensures Render(a + b) == Render(a) + Render(b)
  {
    if a != [] {
      assert (a + b)[1..] == a[1..] + b;
      RenderAppend(a[1..], b);
    } else {
      assert a + b == b;
    }
  }

  // ---------------------------------------------------------------------
  // URI fragment form

  /**
   * The bytes `uri_fragment` copies through unchanged. All are visible
   * ASCII, and neither `#` nor `%` is among them, so a copied byte can
   * never be mistaken for the start of an escape.
   */
  predicate LegalFragmentByte(b: byte)
    ensures LegalFragmentByte(b) ==> 0x21 <= b <= 0x7A && b != 0x23 && b != 0x25
  {
    b == 0x21 || b == 0x24 || 0x26 <= b <= 0x3B || b == 0x3D ||
    0x3F <= b <= 0x5A || b == 0x5F || 0x61 <= b <= 0x7A
  }

  /** Lower-case hexadecimal, as `{:02x}` writes it. */
  function HexDigit(n: nat): char
    requires n < 16
  {
    "0123456789abcdef"[n]
  }

  /** A legal byte as its own character, anything else as `%` and two hex digits (section 2.1 of RFC 3986). */
  function PercentEncodeByte(b: byte): (r: string)
    ensures |r| == 1 <==> LegalFragmentByte(b)
    ensures |r| == 1 ==> r[0] as int == b
    ensures |r| != 1 ==> |r| == 3 && r[0] == '%'
  {
    if LegalFragmentByte(b) then [b as char] else ['%', HexDigit(b / 16), HexDigit(b % 16)]
  }

  function PercentEncode(bs: seq<byte>): string
  {
    if bs == [] then [] else PercentEncodeByte(bs[0]) + PercentEncode(bs[1..])
  }

  /** A token in the fragment form: its UTF-8 bytes, percent-encoded; no `~0`/`~1` escaping. */
  function FragmentToken(t: string): string
  {
    PercentEncode(Encode(t))
  }

  function FragmentTail(toks: seq<string>): (r: string)
    ensures r == "" <==> toks == []
    ensures toks != [] ==> r[0] == '/'
  {
    if toks == [] then "" else "/" + FragmentToken(toks[0]) + FragmentTail(toks[1..])
  }

  /** The URI fragment form: `#`, then `/` and the encoded token for each token in order. */
  function FragmentText(toks: seq<string>): (r: string)
    ensures |r| >= 1 && r[0] == '#'
    ensures |r| == 1 <==> toks == []
  {
    "#" + FragmentTail(toks)
  }

  lemma {:induction false} PercentEncodeAppend(a: seq<byte>, b: seq<byte>)
    ensures PercentEncode(a + b) == PercentEncode(a) + PercentEncode(b)
  {
    if a != [] {
      assert (a + b)[1..] == a[1..] + b;
      PercentEncodeAppend(a[1..], b);
    } else {
      assert a + b == b;
    }
  }

  lemma {:induction false} FragmentTailAppend(a: seq<string>, b: seq<string>)
    ensures FragmentTail(a + b) == FragmentTail(a) + FragmentTail(b)
  {
    if a != [] {
      assert (a + b)[1..] == a[1..] + b;
      FragmentTailAppend(a[1..], b);
    } else {
      assert a + b == b;
    }
  }

  /** One more token adds `/` and its escaped form at the end. */
  lemma RenderSnoc(toks: seq<string>, i: nat)
    requires i < |toks|
    ensures Render(toks[..i + 1]) == Render(toks[..i]) + "/" + Escape(toks[i])
  {
    assert toks[..i + 1] == toks[..i] + [toks[i]];
    RenderAppend(toks[..i], [toks[i]]);
    assert Render([toks[i]]) == "/" + Escape(toks[i]) by {
      assert [toks[i]][1..] == [];
    }
  }

  /** One more character adds its escape at the end. */
  lemma EscapeSnoc(t: string, j: nat)
    requires j < |t|
    ensures Escape(t[..j + 1]) == Escape(t[..j]) + EscapeChar(t[j])
  {
    assert t[..j + 1] == t[..j] + [t[j]];
    EscapeAppend(t[..j], [t[j]]);
    assert Escape([t[j]]) == EscapeChar(t[j]) by {
      assert [t[j]][1..] == [];
    }
  }

  /** One more byte adds its encoding at the end. */
  lemma PercentEncodeSnoc(bs: seq<byte>, j: nat)
    requires j < |bs|
    ensures PercentEncode(bs[..j + 1]) == PercentEncode(bs[..j]) + PercentEncodeByte(bs[j])
  {
    assert bs[..j + 1] == bs[..j] + [bs[j]];
    PercentEncodeAppend(bs[..j], [bs[j]]);
    assert PercentEncode([bs[j]]) == PercentEncodeByte(bs[j]) by {
      assert [bs[j]][1..] == [];
    }
  }

  /** One more token adds `/` and its fragment encoding at the end. */
  lemma FragmentTextSnoc(toks: seq<string>, i: nat)
    requires i < |toks|
    ensures FragmentText(toks[..i + 1]) == FragmentText(toks[..i]) + "/" + FragmentToken(toks[i])
  {
    assert toks[..i + 1] == toks[..i] + [toks[i]];
    FragmentTailAppend(toks[..i], [toks[i]]);
    assert FragmentTail([toks[i]]) == "/" + FragmentToken(toks[i]) by {
      assert [toks[i]][1..] == [];
    }
    Reassociate("#", FragmentTail(toks[..i]), "/" + FragmentToken(toks[i]));
    Reassociate(FragmentText(toks[..i]), "/", FragmentToken(toks[i]));
  }

  lemma RenderPair(a: string, b: string)
    ensures Render([a]) == "/" + Escape(a)
    ensures Render([a, b]) == "/" + Escape(a) + "/" + Escape(b)
  {
    assert [a][1..] == [] && [b][1..] == [];
    assert [a, b][1..] == [b];
  }

  lemma FragmentPair(a: string, b: string)
    ensures FragmentText([a]) == "#/" + FragmentToken(a)
    ensures FragmentText([a, b]) == "#/" + FragmentToken(a) + "/" + FragmentToken(b)
  {
    assert [a][1..] == [] && [b][1..] == [];
    assert [a, b][1..] == [b];
    var ta, tb := FragmentToken(a), FragmentToken(b);
    assert FragmentTail([a]) == "/" + ta;
    assert FragmentTail([a, b]) == "/" + ta + ("/" + tb);
    assert "#" + ("/" + ta) == "#/" + ta;
    assert "#" + ("/" + ta + ("/" + tb)) == "#/" + ta + "/" + tb;
  }

  // ---------------------------------------------------------------------
  // The pointer object

  /**
   * `JsonPointer` with a growable token vector. The tokens are stored as
   * given: no validation and no escaping.
   */
  class JsonPointer {
    var refToks: seq<string>

    constructor (toks: seq<string>)
      ensures refToks == toks
    {
      refToks := toks;
    }

    /** Appends one token after the existing ones. */
    method Push(component: string)
      modifies this
      ensures refToks == old(refToks) + [component]
    {
      refToks := refToks + [component];
    }

    /** Removes and returns the last token; None, and no change, on the root pointer. */
    method Pop() returns (last: Option<string>)
      modifies this
      ensures old(refToks) == [] ==> last == None && refToks == []
      ensures old(refToks) != [] ==>
        && last == Some(old(refToks)[|old(refToks)| - 1])
        && refToks == old(refToks)[..|old(refToks)| - 1]
      ensures last.Some? ==> old(refToks) == refToks + [last.value]
    {
      if refToks == [] {
        last := None;
      } else {
        last := Some(refToks[|refToks| - 1]);
        refToks := refToks[..|refToks| - 1];
      }
    }

    /** The derived structural equality: the token sequences are compared. */
    method Equals(other: JsonPointer) returns (eq: bool)
      ensures eq <==> refToks == other.refToks
    {
      eq := refToks == other.refToks;
    }

    /** `Display::fmt`: writes the plain form, token by token. */
    method Display() returns (s: string)
      ensures s == Render(refToks)
    {
      var toks := refToks;
      s := "";
      var i := 0;
      while i < |toks|
        invariant 0 <= i <= |toks|
        invariant s == Render(toks[..i])
      {
        var part := toks[i];
        s := s + "/";
        s := WriteEscaped(s, part);
        RenderSnoc(toks, i);
        i := i + 1;
      }
      assert toks[..i] == toks;
    }

    /** `uri_fragment`: `#`, then for each token `/` and its percent-encoded bytes. */
    method UriFragment() returns (s: string)
      ensures s == FragmentText(refToks)
    {
      var toks := refToks;
      s := "#";
      var i := 0;
      assert FragmentText(toks[..0]) == "#";
      while i < |toks|
        invariant 0 <= i <= |toks|
        invariant s == FragmentText(toks[..i])
      {
        var part := toks[i];
        s := s + "/";
        s := WritePercentEncoded(s, Encode(part));
        FragmentTextSnoc(toks, i);
        i := i + 1;
      }
      assert toks[..i] == toks;
    }
  }

  /** The inner loop of `Display::fmt`: appends one token, character by character, escaped. */
  method WriteEscaped(s0: string, part: string) returns (s: string)
    ensures s == s0 + Escape(part)
  {
    s := s0;
    var j := 0;
    while j < |part|
      invariant 0 <= j <= |part|
      invariant s == s0 + Escape(part[..j])
    {
      var ch := part[j];
      var esc: string;
      if ch == '~' {
        esc := "~0";
      } else if ch == '/' {
        esc := "~1";
      } else {
        esc := [ch];
      }
      assert esc == EscapeChar(ch);
      EscapeSnoc(part, j);
      Reassociate(s0, Escape(part[..j]), esc);
      s := s + esc;
      j := j + 1;
    }
    assert part[..j] == part;
  }

  /** The inner loop of `uri_fragment`: appends a token's bytes, legal ones as characters, others as `%xx`. */
  method WritePercentEncoded(s0: string, bytes: seq<byte>) returns (s: string)
    ensures s == s0 + PercentEncode(bytes)
  {
    s := s0;
    var j := 0;
    while j < |bytes|
      invariant 0 <= j <= |bytes|
      invariant s == s0 + PercentEncode(bytes[..j])
    {
      var b := bytes[j];
      var enc: string;
      if LegalFragmentByte(b) {
        enc := [b as char];
      } else {
        enc := ['%', HexDigit(b / 16), HexDigit(b % 16)];
      }
      PercentEncodeSnoc(bytes, j);
      Reassociate(s0, PercentEncode(bytes[..j]), enc);
      s := s + enc;
      j := j + 1;
    }
    assert bytes[..j] == bytes;
  }

  lemma Reassociate(a: string, b: string, c: string)
    ensures a + b + c == a + (b + c)
  {
  }
}
