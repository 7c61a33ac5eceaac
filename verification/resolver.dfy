/**
 * The resolver of section 4 of RFC 6901, as `JsonPointerTarget` runs it
 * for serde_json values and for simd_json borrowed values (the two
 * implementations are the same code): a left-to-right fold of the tokens
 * over the document that stops at the first error.
 *
 *  - `get` is `Get`, the fold itself;
 *  - `get_mut` is `GetMut`: the same walk, followed by a write through the
 *    reference it returns;
 *  - `get_owned` is the method `GetOwned`, which takes each container
 *    apart with `remove` / `swap_remove` on the way down.
 */
module Resolver {
  import opened Wrappers
  import opened JsonValue
  import opened Usize
  import opened Pointer

  /** The index an array token selects: `-` is one past the end, otherwise a `usize`. */
  function ArrayIndex(items: seq<Json>, tok: string): (r: Result<nat, IndexError>)
    ensures tok == "-" ==> r == Ok(|items|)
    ensures tok != "-" ==> (r.Ok? <==> ParseUsize(tok).Some?)
    ensures r.Ok? ==> r.value <= USIZE_MAX || r.value == |items|
    ensures r.Err? ==> r == Err(NoSuchKey(tok))
  {
    if tok == "-" then Ok(|items|)
    else
      match ParseUsize(tok)
      case Some(idx) => Ok(idx)
      case None => Err(NoSuchKey(tok))
  }

  /** One step of the fold: the child the token selects, or why there is none. */
  function Step(node: Json, tok: string): (r: Result<Json, IndexError>)
    ensures r.Ok? ==> r.value < node
  {
    match node
    case Obj(fields) =>
      if tok in fields then Ok(fields[tok]) else Err(NoSuchKey(tok))
    case Arr(items) =>
      (match ArrayIndex(items, tok)
       case Err(e) => Err(e)
       case Ok(idx) => if idx < |items| then Ok(items[idx]) else Err(OutOfBounds(idx)))
    case _ => Err(NotIndexable)
  }

  /** `get`: fold the tokens over the document, from the root, stopping at the first error. */
  function Get(doc: Json, toks: seq<string>): (r: Result<Json, IndexError>)
    ensures toks == [] ==> r == Ok(doc)
    ensures r.Ok? && toks != [] ==> r.value < doc
  {
    if toks == [] then Ok(doc)
    else
      match Step(doc, toks[0])
      case Err(e) => Err(e)
      case Ok(child) => Get(child, toks[1..])
  }

  /** Puts `c` where `Step(node, tok)` found its child. */
  function Replace(node: Json, tok: string, c: Json): (r: Json)
    requires Step(node, tok).Ok?
    ensures Step(r, tok) == Ok(c)
    ensures node.Obj? ==> r.Obj? && r.fields.Keys == node.fields.Keys
    ensures node.Obj? ==> forall k :: k in node.fields && k != tok ==> r.fields[k] == node.fields[k]
    ensures node.Arr? ==> r.Arr? && |r.items| == |node.items| && ArrayIndex(node.items, tok).Ok?
    ensures node.Arr? ==> forall j :: 0 <= j < |node.items| && j != ArrayIndex(node.items, tok).value ==>
              r.items[j] == node.items[j]
  {
    match node
    case Obj(fields) => Obj(fields[tok := c])
    case Arr(items) => Arr(items[ArrayIndex(items, tok).value := c])
    case _ => node
  }

  /**
   * `get_mut` followed by `*r = v`: the document after writing `v` at the
   * node the pointer locates, or the error `get_mut` returns.
   */
  function GetMut(doc: Json, toks: seq<string>, v: Json): (r: Result<Json, IndexError>)
    ensures toks == [] ==> r == Ok(v)
    ensures r.Err? ==> Get(doc, toks) == Err(r.error)
    ensures r.Ok? && toks != [] ==> r.value.Obj? == doc.Obj? && r.value.Arr? == doc.Arr?
  {
    if toks == [] then Ok(v)
    else
      match Step(doc, toks[0])
      case Err(e) => Err(e)
      case Ok(child) =>
        match GetMut(child, toks[1..], v)
        case Err(e) => Err(e)
        case Ok(c) => Ok(Replace(doc, toks[0], c))
  }

  // ---------------------------------------------------------------------
  // The fold

  /** Resolving `p + q` resolves `p`, then `q` from there; an error in `p` is the result. */
  lemma {:induction false} GetAppend(doc: Json, p: seq<string>, q: seq<string>)
    ensures Get(doc, p + q) == match Get(doc, p) { case Ok(n) => Get(n, q) case Err(e) => Err(e) }
  {
    if p != [] {
      assert (p + q)[0] == p[0] && (p + q)[1..] == p[1..] + q;
      match Step(doc, p[0]) {
        case Err(e) =>
        case Ok(child) => GetAppend(child, p[1..], q);
      }
    } else {
      assert p + q == q;
    }
  }

  /**
   * A failed resolution fails at its first bad step: some prefix of the
   * tokens resolves and the next token fails with the error returned.
   */
  lemma {:induction false} GetErrorAt(doc: Json, toks: seq<string>)
    requires Get(doc, toks).Err?
    ensures exists k :: 0 <= k < |toks| && Get(doc, toks[..k]).Ok?
                        && Step(Get(doc, toks[..k]).value, toks[k]) == Get(doc, toks)
  {
    assert toks[..0] == [];
    match Step(doc, toks[0]) {
      case Err(e) =>
        assert Get(doc, toks[..0]) == Ok(doc);
      case Ok(child) =>
        GetErrorAt(child, toks[1..]);
        var k :| 0 <= k < |toks[1..]| && Get(child, toks[1..][..k]).Ok?
                 && Step(Get(child, toks[1..][..k]).value, toks[1..][k]) == Get(child, toks[1..]);
        assert toks[..k + 1][0] == toks[0] && toks[..k + 1][1..] == toks[1..][..k];
        assert Get(doc, toks[..k + 1]) == Get(child, toks[1..][..k]);
        assert toks[k + 1] == toks[1..][k];
    }
  }

  /**
   * What each `IndexError` means: `NotIndexable` only at a scalar,
   * `OutOfBounds` only at an array with the index at or past its end,
   * and `NoSuchKey` always names the token that failed.
   */
  lemma StepErrors(node: Json, tok: string)
    ensures Step(node, tok) == Err(NotIndexable) <==> node.IsScalar()
    ensures Step(node, tok).Err? && Step(node, tok).error.OutOfBounds? ==>
              node.Arr? && Step(node, tok).error.index >= |node.items|
    ensures Step(node, tok).Err? && Step(node, tok).error.NoSuchKey? ==>
              Step(node, tok).error.key == tok && !node.IsScalar()
    ensures node.Obj? ==> (Step(node, tok).Err? <==> tok !in node.fields)
  {
  }

  /** A scalar with tokens left is `NotIndexable`, whatever the token. */
  lemma GetScalar(doc: Json, toks: seq<string>)
    requires doc.IsScalar() && toks != []
    ensures Get(doc, toks) == Err(NotIndexable)
  {
  }

  // ---------------------------------------------------------------------
  // Array tokens

  /** `-` selects index `len`, which never exists, so it always fails with `OutOfBounds(len)`. */
  lemma StepDash(items: seq<Json>)
    ensures Step(Arr(items), "-") == Err(OutOfBounds(|items|))
  {
  }

  /** The decimal form of a `usize` selects that element, or is `OutOfBounds` of that index. */
  lemma StepIndex(items: seq<Json>, n: nat)
    requires n <= USIZE_MAX
    ensures Step(Arr(items), Decimal(n)) == if n < |items| then Ok(items[n]) else Err(OutOfBounds(n))
  {
    ParseDecimal(n);
    assert Decimal(n) != "-" by {
      assert IsDigit(Decimal(n)[0]);
    }
  }

  /** The decimal form of a number past `usize::MAX` is a missing key, not an index out of bounds. */
  lemma StepOverflow(items: seq<Json>, n: nat)
    requires n > USIZE_MAX
    ensures Step(Arr(items), Decimal(n)) == Err(NoSuchKey(Decimal(n)))
  {
    Overflow(n);
    assert Decimal(n) != "-" by {
      assert IsDigit(Decimal(n)[0]);
    }
  }

  /** Leading zeros and a leading `+` select the same element as the plain digits of a `usize`. */
  lemma StepIndexSpellings(items: seq<Json>, digits: string)
    requires digits != [] && AllDigits(digits) && DigitsValue(digits) <= USIZE_MAX
    ensures Step(Arr(items), "0" + digits) == Step(Arr(items), digits)
    ensures Step(Arr(items), "+" + digits) == Step(Arr(items), digits)
  {
    LeadingZeroAccepted(digits);
    PlusAccepted(digits);
    assert IsDigit(digits[0]) && digits != "-";
    assert |"0" + digits| >= 2 && |"+" + digits| >= 2;
    assert "0" + digits != "-" && "+" + digits != "-";
  }

  /**
   * A token that is neither `-` nor digits after an optional `+` is a
   * missing key (`NoSuchKey(tok)`), not a numeric error.
   */
  lemma StepNotANumber(items: seq<Json>, tok: string, i: nat)
    requires tok != "-"
    requires i < |tok| && !IsDigit(tok[i]) && (i > 0 || tok[0] != '+')
    ensures Step(Arr(items), tok) == Err(NoSuchKey(tok))
  {
    if |tok| >= 1 && tok[0] == '+' {
      assert tok[1..][i - 1] == tok[i];
    }
  }

  /** The empty token is never an array index. */
  lemma StepEmptyToken(items: seq<Json>)
    ensures Step(Arr(items), "") == Err(NoSuchKey(""))
  {
    Rejections("");
  }

  // ---------------------------------------------------------------------
  // get_mut

  /** `get_mut` walks the same path as `get`: it fails exactly when `get` does, with the same error. */
  lemma {:induction false} GetMutAgrees(doc: Json, toks: seq<string>, v: Json)
    ensures GetMut(doc, toks, v).Err? <==> Get(doc, toks).Err?
    ensures Get(doc, toks).Err? ==> GetMut(doc, toks, v) == Err(Get(doc, toks).error)
  {
    if toks != [] {
      match Step(doc, toks[0]) {
        case Err(e) =>
        case Ok(child) => GetMutAgrees(child, toks[1..], v);
      }
    }
  }

  /** After writing `v` through `get_mut`, `get` on the same pointer finds `v`. */
  lemma {:induction false} GetAfterGetMut(doc: Json, toks: seq<string>, v: Json)
    requires GetMut(doc, toks, v).Ok?
    ensures Get(GetMut(doc, toks, v).value, toks) == Ok(v)
  {
    if toks != [] {
      var child := Step(doc, toks[0]).value;
      GetAfterGetMut(child, toks[1..], v);
    }
  }

  /** Writing back through `get_mut` the node `get` located leaves the document unchanged. */
  lemma {:induction false} GetMutSameValue(doc: Json, toks: seq<string>)
    requires Get(doc, toks).Ok?
    ensures GetMut(doc, toks, Get(doc, toks).value) == Ok(doc)
  {
    if toks != [] {
      var child := Step(doc, toks[0]).value;
      GetMutSameValue(child, toks[1..]);
      if doc.Obj? {
        assert doc.fields[toks[0] := child] == doc.fields;
      }
      if doc.Arr? {
        assert doc.items[ArrayIndex(doc.items, toks[0]).value := child] == doc.items;
      }
    }
  }

  // ---------------------------------------------------------------------
  // get_owned

  /** What `Vec::swap_remove(idx)` leaves: the last element moved into slot `idx`, one shorter. */
  function SwapRemoved(s: seq<Json>, idx: nat): (r: seq<Json>)
    requires idx < |s|
    ensures |r| == |s| - 1
    ensures idx < |r| ==> r[idx] == s[|s| - 1]
    ensures forall j :: 0 <= j < |r| && j != idx ==> r[j] == s[j]
    ensures multiset(r) + multiset{s[idx]} == multiset(s)
  {
    var r := s[idx := s[|s| - 1]][..|s| - 1];
    assert s == s[..|s| - 1] + [s[|s| - 1]];
    assert idx < |s| - 1 ==> r == s[..|s| - 1][idx := s[|s| - 1]];
    assert idx == |s| - 1 ==> r == s[..|s| - 1];
    r
  }

  /** An owned JSON object, taken apart by `remove`. */
  class OwnedObject {
    var entries: map<string, Json>

    constructor (fields: map<string, Json>)
      ensures entries == fields
    {
      entries := fields;
    }

    /** `Map::remove`: the value under `key`, if any, which no longer belongs to the object. */
    method Remove(key: string) returns (removed: Option<Json>)
      modifies this
      ensures removed == if key in old(entries) then Some(old(entries)[key]) else None
      ensures entries == old(entries) - {key}
    {
      if key in entries {
        removed := Some(entries[key]);
      } else {
        removed := None;
      }
      entries := entries - {key};
    }
  }

  /** An owned JSON array, taken apart by `swap_remove`. */
  class OwnedArray {
    var elems: seq<Json>

    constructor (items: seq<Json>)
      ensures elems == items
    {
      elems := items;
    }

    /** `Vec::swap_remove`: returns element `idx` and moves the last element into its slot. */
    method SwapRemove(idx: nat) returns (removed: Json)
      requires idx < |elems|
      modifies this
      ensures removed == old(elems)[idx]
      ensures elems == SwapRemoved(old(elems), idx)
    {
      removed := elems[idx];
      elems := elems[idx := elems[|elems| - 1]][..|elems| - 1];
    }
  }

  /**
   * `get_owned`: the same fold, taking ownership of each container on the
   * way down. It returns the node `get` would locate, or the same error.
   */
  method GetOwned(doc: Json, toks: seq<string>) returns (r: Result<Json, IndexError>)
    ensures r == Get(doc, toks)
  {
    var val := doc;
    var i := 0;
    while i < |toks|
      invariant 0 <= i <= |toks|
      invariant Get(doc, toks) == Get(val, toks[i..])
    {
      var tok := toks[i];
      assert toks[i..][0] == tok && toks[i..][1..] == toks[i + 1..];
      match val {
        case Obj(fields) =>
          var obj := new OwnedObject(fields);
          var removed := obj.Remove(tok);
          if removed.None? {
            r := Err(NoSuchKey(tok));
            return;
          }
          val := removed.value;
        case Arr(items) =>
          var idx: nat;
          if tok == "-" {
            idx := |items|;
          } else {
            var parsed := ParseUsize(tok);
            if parsed.None? {
              r := Err(NoSuchKey(tok));
              return;
            }
            idx := parsed.value;
          }
          if idx >= |items| {
            r := Err(OutOfBounds(idx));
            return;
          }
          var arr := new OwnedArray(items);
          val := arr.SwapRemove(idx);
        case _ =>
          r := Err(NotIndexable);
          return;
      }
      i := i + 1;
    }
    r := Ok(val);
  }
}
