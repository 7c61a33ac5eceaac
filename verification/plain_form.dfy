/**
 * Reading the plain form back (section 4 of RFC 6901): split after the
 * leading `/` on every `/`, then turn `~1` into `/` and `~0` into `~` in
 * each piece. This reader states what `Display` must invert; it is the
 * reference against which the plain form is proved a faithful encoding.
 */
module PlainForm {
  import opened Wrappers
  import opened Segments
  import opened Pointer

  /** Unescapes one piece left to right; a `~` not followed by `0` or `1` is malformed. */
  function Unescape(seg: string): Option<string>
  {
    if seg == [] then Some([])
    else if seg[0] == '~' then
      if |seg| >= 2 && (seg[1] == '0' || seg[1] == '1') then
        match Unescape(seg[2..])
        case Some(rest) => Some([if seg[1] == '0' then '~' else '/'] + rest)
        case None => None
      else None
    else
      match Unescape(seg[1..])
      case Some(rest) => Some([seg[0]] + rest)
      case None => None
  }

  function UnescapeAll(segs: seq<string>): (r: Option<seq<string>>)
    ensures r.Some? ==> |r.value| == |segs|
  {
    if segs == [] then Some([])
    else
      match (Unescape(segs[0]), UnescapeAll(segs[1..]))
      case (Some(t), Some(ts)) => Some([t] + ts)
      case _ => None
  }

  /** The token sequence a plain-form string denotes, if it is well formed. */
  function ReadPointer(s: string): Option<seq<string>>
  {
    if s == [] then Some([])
    else if s[0] != '/' then None
    else UnescapeAll(Split(s[1..], '/'))
  }

  /** Every `~` is immediately followed by `0` or `1`. */
  predicate TildesOk(s: string)
  {
    forall i :: 0 <= i < |s| && s[i] == '~' ==> i + 1 < |s| && (s[i + 1] == '0' || s[i + 1] == '1')
  }

  /** The grammar `^(/([^/~]|~[01])*)*$`: empty, or a leading `/` with every `~` escaping `0` or `1`. */
  predicate PlainSyntax(s: string)
  {
    (s == [] || s[0] == '/') && TildesOk(s)
  }

  function EscapeAll(toks: seq<string>): (r: seq<string>)
    ensures |r| == |toks|
    ensures forall i :: 0 <= i < |toks| ==> r[i] == Escape(toks[i])
  {
    if toks == [] then [] else [Escape(toks[0])] + EscapeAll(toks[1..])
  }

  // ---------------------------------------------------------------------
  // One token

  /** Unescaping an escaped token gives the token back. */
  lemma {:induction false} UnescapeEscape(t: string)
    ensures Unescape(Escape(t)) == Some(t)
  {
    if t != [] {
      var e := Escape(t);
      UnescapeEscape(t[1..]);
      assert e == EscapeChar(t[0]) + Escape(t[1..]);
      if t[0] == '~' || t[0] == '/' {
        assert e[2..] == Escape(t[1..]);
      } else {
        assert e[1..] == Escape(t[1..]);
      }
      assert t == [t[0]] + t[1..];
    }
  }

  /** A piece that unescapes is the escaping of what it unescapes to. */
  lemma {:induction false} EscapeUnescape(seg: string)
    requires '/' !in seg
    requires Unescape(seg).Some?
    ensures Escape(Unescape(seg).value) == seg
  {
    if seg != [] {
      var t := Unescape(seg).value;
      assert Escape(t) == EscapeChar(t[0]) + Escape(t[1..]);
      if seg[0] == '~' {
        assert '/' !in seg[2..] by {
          forall i | 0 <= i < |seg[2..]| ensures seg[2..][i] != '/' {
            assert seg[2..][i] == seg[i + 2];
          }
        }
        EscapeUnescape(seg[2..]);
        assert t[1..] == Unescape(seg[2..]).value;
        assert EscapeChar(t[0]) == seg[..2];
        assert seg == seg[..2] + seg[2..];
      } else {
        assert '/' !in seg[1..] by {
          forall i | 0 <= i < |seg[1..]| ensures seg[1..][i] != '/' {
            assert seg[1..][i] == seg[i + 1];
          }
        }
        EscapeUnescape(seg[1..]);
        assert t[1..] == Unescape(seg[1..]).value;
        assert EscapeChar(t[0]) == [seg[0]];
        assert seg == [seg[0]] + seg[1..];
      }
    }
  }

  /** A token with neither `~` nor `/` is written verbatim. */
  lemma {:induction false} EscapeVerbatim(t: string)
    requires '~' !in t && '/' !in t
    ensures Escape(t) == t
  {
    if t != [] {
      assert t == [t[0]] + t[1..];
      assert '~' !in t[1..] && '/' !in t[1..];
      EscapeVerbatim(t[1..]);
    }
  }

  lemma TildesOkCons(c: char, s: string)
    requires c != '~'
    ensures TildesOk([c] + s) <==> TildesOk(s)
  {
    var cs := [c] + s;
    if TildesOk(cs) {
      forall i | 0 <= i < |s| && s[i] == '~'
        ensures i + 1 < |s| && (s[i + 1] == '0' || s[i + 1] == '1')
      {
        assert cs[i + 1] == s[i];
        assert i + 2 < |cs| && cs[i + 2] == s[i + 1];
      }
    }
    if TildesOk(s) {
      forall i | 0 <= i < |cs| && cs[i] == '~'
        ensures i + 1 < |cs| && (cs[i + 1] == '0' || cs[i + 1] == '1')
      {
        assert i >= 1 && s[i - 1] == '~';
        assert i < |s| && cs[i + 1] == s[i];
      }
    }
  }

  lemma TildesOkEscape(d: char, s: string)
    requires d == '0' || d == '1'
    ensures TildesOk(['~', d] + s) <==> TildesOk(s)
  {
    TildesOkCons(d, s);
    assert ['~', d] + s == ['~'] + ([d] + s);
    var ds := ['~', d] + s;
    if TildesOk([d] + s) {
      forall i | 0 <= i < |ds| && ds[i] == '~'
        ensures i + 1 < |ds| && (ds[i + 1] == '0' || ds[i + 1] == '1')
      {
        if i > 0 {
          assert ([d] + s)[i - 1] == ds[i];
        }
      }
    }
    if TildesOk(ds) {
      forall i | 0 <= i < |[d] + s| && ([d] + s)[i] == '~'
        ensures i + 1 < |[d] + s| && (([d] + s)[i + 1] == '0' || ([d] + s)[i + 1] == '1')
      {
        assert ds[i + 1] == ([d] + s)[i] == '~';
        assert i + 2 < |ds| && ds[i + 2] == ([d] + s)[i + 1];
      }
    }
  }

  /** A piece unescapes exactly when every `~` in it escapes `0` or `1`. */
  lemma {:induction false} UnescapeDefined(seg: string)
    ensures Unescape(seg).Some? <==> TildesOk(seg)
  {
    if seg != [] {
      if seg[0] == '~' {
        if |seg| >= 2 && (seg[1] == '0' || seg[1] == '1') {
          UnescapeDefined(seg[2..]);
          assert seg == ['~', seg[1]] + seg[2..];
          TildesOkEscape(seg[1], seg[2..]);
        } else {
          assert !TildesOk(seg);
        }
      } else {
        UnescapeDefined(seg[1..]);
        assert seg == [seg[0]] + seg[1..];
        TildesOkCons(seg[0], seg[1..]);
      }
    }
  }

  // ---------------------------------------------------------------------
  // Whole pointers

  lemma {:induction false} UnescapeAllEscapeAll(toks: seq<string>)
    ensures UnescapeAll(EscapeAll(toks)) == Some(toks)
  {
    if toks != [] {
      UnescapeEscape(toks[0]);
      UnescapeAllEscapeAll(toks[1..]);
      assert EscapeAll(toks)[1..] == EscapeAll(toks[1..]);
      assert toks == [toks[0]] + toks[1..];
    }
  }

  lemma {:induction false} EscapeAllUnescapeAll(segs: seq<string>)
    requires forall i :: 0 <= i < |segs| ==> '/' !in segs[i]
    requires UnescapeAll(segs).Some?
    ensures EscapeAll(UnescapeAll(segs).value) == segs
  {
    if segs != [] {
      var ts := UnescapeAll(segs).value;
      EscapeUnescape(segs[0]);
      EscapeAllUnescapeAll(segs[1..]);
      assert ts[1..] == UnescapeAll(segs[1..]).value;
      assert segs == [segs[0]] + segs[1..];
    }
  }

  lemma {:induction false} UnescapeAllDefined(segs: seq<string>)
    ensures UnescapeAll(segs).Some? <==> forall i :: 0 <= i < |segs| ==> TildesOk(segs[i])
  {
    if segs != [] {
      UnescapeDefined(segs[0]);
      UnescapeAllDefined(segs[1..]);
      if forall i :: 0 <= i < |segs[1..]| ==> TildesOk(segs[1..][i]) {
        assert forall i :: 1 <= i < |segs| ==> TildesOk(segs[i]) by {
          forall i | 1 <= i < |segs| ensures TildesOk(segs[i]) {
            assert segs[1..][i - 1] == segs[i];
          }
        }
      }
    }
  }

  lemma TildesOkSeparated(a: string, b: string)
    ensures TildesOk(a + ['/'] + b) <==> TildesOk(a) && TildesOk(b)
  {
    var s := a + ['/'] + b;
    if TildesOk(s) {
      forall i | 0 <= i < |a| && a[i] == '~'
        ensures i + 1 < |a| && (a[i + 1] == '0' || a[i + 1] == '1')
      {
        assert s[i] == a[i];
        assert s[i + 1] == if i + 1 < |a| then a[i + 1] else '/';
      }
      forall i | 0 <= i < |b| && b[i] == '~'
        ensures i + 1 < |b| && (b[i + 1] == '0' || b[i + 1] == '1')
      {
        assert s[|a| + 1 + i] == b[i];
        assert i + 1 < |b| ==> s[|a| + 2 + i] == b[i + 1];
      }
    }
    if TildesOk(a) && TildesOk(b) {
      forall i | 0 <= i < |s| && s[i] == '~'
        ensures i + 1 < |s| && (s[i + 1] == '0' || s[i + 1] == '1')
      {
        if i < |a| {
          assert a[i] == s[i];
          assert i + 1 < |a| ==> a[i + 1] == s[i + 1];
        } else if i > |a| {
          assert b[i - |a| - 1] == s[i];
          assert i + 1 < |s| ==> b[i - |a|] == s[i + 1];
        }
      }
    }
  }

  lemma {:induction false} TildesOkJoin(segs: seq<string>)
    requires |segs| >= 1
    ensures TildesOk(Join(segs, '/')) <==> forall i :: 0 <= i < |segs| ==> TildesOk(segs[i])
  {
    if |segs| > 1 {
      TildesOkJoin(segs[1..]);
      TildesOkSeparated(segs[0], Join(segs[1..], '/'));
      if forall i :: 0 <= i < |segs[1..]| ==> TildesOk(segs[1..][i]) {
        forall i | 1 <= i < |segs| ensures TildesOk(segs[i]) {
          assert segs[1..][i - 1] == segs[i];
        }
      }
    }
  }

  /** The plain form of a non-root pointer is `/` followed by the escaped tokens joined by `/`. */
  lemma {:induction false} RenderAsJoin(toks: seq<string>)
    requires toks != []
    ensures Render(toks) == "/" + Join(EscapeAll(toks), '/')
  {
    var es := EscapeAll(toks);
    assert Render(toks) == "/" + Escape(toks[0]) + Render(toks[1..]);
    if |toks| > 1 {
      RenderAsJoin(toks[1..]);
      assert es[1..] == EscapeAll(toks[1..]);
      assert Join(es, '/') == es[0] + ['/'] + Join(es[1..], '/');
    } else {
      assert Render(toks[1..]) == "";
      assert Join(es, '/') == es[0];
    }
  }

  // ---------------------------------------------------------------------
  // Round trips

  /** Reading back the plain form of any token sequence gives that sequence. */
  lemma ReadRender(toks: seq<string>)
    ensures ReadPointer(Render(toks)) == Some(toks)
  {
    if toks != [] {
      var segs := EscapeAll(toks);
      RenderAsJoin(toks);
      var s := Render(toks);
      assert s[1..] == Join(segs, '/');
      SplitJoin(segs, '/');
      UnescapeAllEscapeAll(toks);
    }
  }

  /** Every string that reads as a pointer is exactly the plain form of what it reads as. */
  lemma RenderRead(s: string)
    requires ReadPointer(s).Some?
    ensures Render(ReadPointer(s).value) == s
  {
    if s != [] {
      var segs := Split(s[1..], '/');
      var toks := ReadPointer(s).value;
      EscapeAllUnescapeAll(segs);
      JoinSplit(s[1..], '/');
      RenderAsJoin(toks);
      assert s == "/" + s[1..];
    }
  }

  /** A string reads as a pointer exactly when it matches the plain-form grammar. */
  lemma ReadDefined(s: string)
    ensures ReadPointer(s).Some? <==> PlainSyntax(s)
  {
    if s != [] && s[0] == '/' {
      var segs := Split(s[1..], '/');
      UnescapeAllDefined(segs);
      TildesOkJoin(segs);
      JoinSplit(s[1..], '/');
      assert s == ['/'] + s[1..];
      TildesOkCons('/', s[1..]);
    }
  }

  /** `Display` output always matches `^(/([^/~]|~[01])*)*$`. */
  lemma RenderSyntax(toks: seq<string>)
    ensures PlainSyntax(Render(toks))
  {
    ReadRender(toks);
    ReadDefined(Render(toks));
  }

  /** Two pointers display the same exactly when their token sequences are equal. */
  lemma RenderInjective(a: seq<string>, b: seq<string>)
    ensures Render(a) == Render(b) <==> a == b
  {
    ReadRender(a);
    ReadRender(b);
  }
}
