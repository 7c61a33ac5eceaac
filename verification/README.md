# json-pointer — a Dafny model

This project models the core of a Rust crate that implements JSON Pointers
(RFC 6901) over serde_json and simd_json values:

- the pointer value `JsonPointer`: its reference tokens, `new`, `push`, `pop`
  and the derived equality;
- its two textual forms: the plain form written by `Display`, with `~`
  escaped as `~0` and `/` as `~1`, and the URI fragment form written by
  `uri_fragment`, with a percent-encoding of every byte outside a fixed legal set;
- the error type `IndexError`;
- the resolver behind `JsonPointerTarget::get`, `get_mut` and `get_owned`.

The resolver is a left-to-right walk of the tokens from the root that stops
at the first error:

- An object looks the token up as a key.
- An array reads the token as `-` (one past the end) or as a Rust `usize`.
  A token that does not parse is a `NoSuchKey`, and an index past the end is
  `OutOfBounds`.
- A scalar is `NotIndexable`.

The serde_json and simd_json borrowed implementations are the same code
(`try_fold`). The simd_json owned implementation writes it as `fold` with
`and_then`. `OwnedFold.Fold` takes the step as a parameter, and
`OwnedFold.FoldIsGet` proves that with the read step the two shapes agree.

Modules:

- `Wrappers`: `Option` and `Result`.
- `JsonValue`: the document tree.
- `Usize`: `usize::from_str`.
- `Utf8`: the bytes `str::bytes` yields.
- `Segments`: `str::split` and its inverse.
- `Pointer`: the pointer class, `IndexError` and both textual forms, with the
  `Display` and `uri_fragment` loops as methods proved against the functions
  `Render` and `FragmentText`.
- `PlainForm` and `FragmentForm`: readers of the two forms, against which
  `Display` and `uri_fragment` are proved.
- `Resolver`: `get`, `get_mut` and `get_owned`.
- `OwnedFold`: the fold/and_then shape, for any step.
- `Examples`: the RFC 6901 vectors, the documentation examples and the
  crate's own tests.

Behaviour of the code that the model keeps on purpose:

- `uri_fragment` does not apply the `~0`/`~1` escaping before
  percent-encoding. `~` comes out as `%7e`, and `/` is a legal fragment byte,
  so a `/` inside a token is written raw. Two different pointers can
  therefore have the same fragment form (`FragmentForm.SlashInTokenCollides`).
  Section 6 of RFC 6901 builds the fragment form from the escaped plain
  form, so it would write `~0` and `~1`. `Pointer.FragmentText` and the
  `UriFragment` method follow the code; `FragmentForm.EscapedFragmentText`
  is the escaped form, and the difference is recorded under "Findings".
- Hex digits are written in lower case (`{:02x}`), so RFC 6901's `#/e%5Ef`
  comes out as `#/e%5ef` (`Examples.RfcFragmentCaretKey`).
- Array indices are read with `usize::from_str`:
  - a leading `+` and leading zeros are accepted (`/foo/01` and `/foo/+1`
    select element 1);
  - a number past the 64-bit maximum fails to parse and is reported as
    `NoSuchKey`, not `OutOfBounds`;
  - `-` always yields `OutOfBounds(len)`.

## Model

| member | source | states |
|---|---|---|
| Pointer.JsonPointer.constructor | src/ptr.rs:20-27 | `new` stores the token sequence exactly as given, with no validation or escaping |
| Pointer.JsonPointer.Push | src/ptr.rs:51-55 | `push` appends the component after the existing tokens |
| Pointer.JsonPointer.Pop | src/ptr.rs:57-60 | `pop` on the root pointer gives None and changes nothing; otherwise it removes the last token and returns it, so old tokens == new tokens + [returned] |
| Pointer.JsonPointer.Equals | src/ptr.rs:14-18 | the derived equality holds exactly when the token sequences are equal |
| Pointer.JsonPointer.Display | src/ptr.rs:63-77 | the loop writes `Render(tokens)`: `/` plus the escaped token, for each token in order |
| Pointer.WriteEscaped | src/ptr.rs:67-73 | the inner character loop appends exactly `Escape(part)` to what was written |
| Pointer.Escape | src/ptr.rs:67-73 | an escaped token never contains `/` and is at least as long as the token |
| Pointer.EscapeAppend | src/ptr.rs:67-73 | escaping works character by character: it distributes over concatenation |
| Pointer.Render | src/ptr.rs:63-77 | the plain form is empty exactly for the root pointer, and otherwise starts with `/` |
| Pointer.RenderAppend | src/ptr.rs:65-74 | the plain form of `a + b` is the plain form of `a` followed by that of `b` |
| Pointer.LegalFragmentByte | src/ptr.rs:32-34 | every byte copied through is visible ASCII and is neither `#` nor `%`, so it never starts an escape |
| Pointer.PercentEncodeByte | src/ptr.rs:40-44 | a byte is written as one character, itself, exactly when it is legal; otherwise as three characters starting with `%` |
| Pointer.FragmentText | src/ptr.rs:29-48 | the fragment form starts with `#`, and is `#` alone exactly for the root pointer |
| Pointer.JsonPointer.UriFragment | src/ptr.rs:29-48 | the loop writes `FragmentText(tokens)`: `#`, then `/` and the percent-encoded UTF-8 bytes of each token |
| Pointer.WritePercentEncoded | src/ptr.rs:39-45 | the inner byte loop appends exactly `PercentEncode(bytes)`: legal bytes as themselves, others as `%` and two lower-case hex digits |
| Pointer.PercentEncodeAppend | src/ptr.rs:39-45 | percent-encoding works byte by byte: it distributes over concatenation |
| Pointer.FragmentTailAppend | src/ptr.rs:37-46 | the fragment form of `a + b` after `#` is that of `a` followed by that of `b` |
| Utf8.EncodeChar | src/ptr.rs:39 | a character is 1 to 4 bytes; exactly ASCII characters are one byte, equal to their code; every byte of a longer encoding is at least 0x80 |
| Utf8.EncodeHasAscii | src/ptr.rs:39 | an ASCII byte occurs in a token's bytes exactly when its character occurs in the token |
| Usize.ParseUsize | src/value.rs:19 | a successful parse never exceeds the 64-bit `usize` maximum |
| Usize.ParseDecimal | src/value.rs:19-20 | the decimal form of every `usize` parses back to itself |
| Usize.LeadingZeroAccepted | src/value.rs:19 | a leading `0` does not change the parse of a token |
| Usize.PlusAccepted | src/value.rs:19 | one leading `+` is accepted and ignored |
| Usize.Overflow | src/value.rs:19-22 | the decimal form of any number past the maximum fails to parse |
| Usize.Rejections | src/value.rs:19-22 | a leading `-`, the empty token and a lone `+` fail to parse |
| Segments.Split | src/lib.rs:24 | splitting gives at least one piece and no piece contains the separator |
| Segments.JoinSplit | src/lib.rs:24 | joining the pieces of a split with the separator gives the string back |
| Segments.SplitJoin | src/lib.rs:24 | splitting a join of separator-free pieces gives the pieces back |
| PlainForm.UnescapeEscape | src/ptr.rs:67-73 | unescaping an escaped token gives the token back |
| PlainForm.EscapeUnescape | src/ptr.rs:67-73 | every piece free of `/` that unescapes is the escape of what it unescapes to |
| PlainForm.EscapeVerbatim | src/ptr.rs:71 | a token without `~` or `/` is written verbatim |
| PlainForm.ReadRender | src/ptr.rs:63-77 | reading back the plain form of any token sequence gives the sequence |
| PlainForm.RenderRead | tests/parsing.rs:14-29 | every string that reads as a pointer is exactly the plain form of what it reads as |
| PlainForm.ReadDefined | tests/parsing.rs:31-43 | a string reads as a pointer exactly when it is empty or starts with `/` and every `~` is followed by `0` or `1`, the test's plain-pointer regular expression |
| PlainForm.RenderSyntax | tests/parsing.rs:35 | `Display` output always matches the plain-form grammar |
| PlainForm.RenderInjective | src/ptr.rs:63-77 | two pointers display the same exactly when their tokens are equal |
| FragmentForm.HexDigitValue | src/ptr.rs:43 | every digit `{:02x}` writes is a lower-case hex digit whose value is the nibble |
| FragmentForm.DecodeEncode | src/ptr.rs:39-45 | percent-decoding the encoding of any bytes gives the bytes back |
| FragmentForm.PercentEncodeSafe | src/ptr.rs:32-45 | encoded bytes are legal fragment characters or `%`-escapes with two lower-case hex digits; with no 0x2F byte there is no `/` |
| FragmentForm.FragmentTextSafe | src/ptr.rs:29-48 | `uri_fragment` output is `#` followed by fragment-safe text |
| FragmentForm.FragmentTailRaw | src/ptr.rs:36-46 | after the `#`, `uri_fragment` writes the percent-encoded bytes of the raw path: `/` and the unescaped token, for each token |
| FragmentForm.FragmentReadsRawPath | src/ptr.rs:29-48 | reading `uri_fragment` output back reads the raw path, not the plain form, as a pointer |
| FragmentForm.LatinEncodeEscape | src/ptr.rs:39 | the bytes of a multi-byte character are never `~` or `/`, so escaping commutes with reading bytes as characters |
| FragmentForm.ReadEscapedFragmentText | tests/parsing.rs:15-29 | the escaped fragment form of every pointer reads back as that pointer, each token as its UTF-8 bytes |
| FragmentForm.PlainTokensAgree | src/ptr.rs:36-46 | for tokens free of `~` and `/`, `uri_fragment` writes exactly the escaped fragment form |
| FragmentForm.ReadFragmentText | src/ptr.rs:29-48 | for tokens free of `~` and `/`, reading the fragment form back gives each token's UTF-8 bytes, in order |
| FragmentForm.TildeFragmentMismatch | tests/parsing.rs:15-29 | `["~"]` is written `#/%7e`, which does not read back; `#/~0` reads as `["~"]` but is not what `uri_fragment` writes for it |
| FragmentForm.FragmentTokenVerbatim | src/ptr.rs:40-41 | a token of legal fragment bytes is written verbatim |
| FragmentForm.FragmentTokenSplit | src/ptr.rs:39-45 | an ASCII character is encoded on its own, between the encodings of its neighbours |
| FragmentForm.SlashInTokenCollides | src/ptr.rs:37-46 | `[a + "/" + b]` and `[a, b]` are different pointers with the same fragment form |
| FragmentForm.TildePercentEncoded | src/ptr.rs:39-45 | `~` in a token is written `%7e`, not `~0` |
| Resolver.ArrayIndex | src/value.rs:17-23 | `-` selects one past the end; any other token selects exactly when it parses as a `usize`, and otherwise is `NoSuchKey(token)` |
| Resolver.Step | src/value.rs:12-27 | a successful step returns a proper child of the node |
| Resolver.Get | src/value.rs:11-29 | no tokens resolves to the document; a resolution through tokens is a proper descendant |
| Resolver.GetAppend | src/value.rs:12 | resolving `p + q` resolves `p` and then `q` from there; an error in `p` is the result |
| Resolver.GetErrorAt | src/borrowed.rs:10-26 | a failed resolution fails at a first bad step: a prefix resolves and the next token gives the error returned |
| Resolver.StepErrors | src/ptr.rs:86-95 | each `IndexError` means what it says: `NotIndexable` exactly at a scalar, `OutOfBounds` only at an array with the index at or past its end, `NoSuchKey` always names the failing token, and at an object the step fails exactly when the key is missing |
| Resolver.GetScalar | src/value.rs:26 | a scalar with tokens left gives `NotIndexable` |
| Resolver.StepDash | src/value.rs:17-24 | `-` on an array always gives `OutOfBounds(len)` |
| Resolver.StepIndex | src/value.rs:19-24 | the decimal form of `n` selects element `n`, or gives `OutOfBounds(n)` past the end |
| Resolver.StepOverflow | src/value.rs:19-22 | the decimal form of a number past `usize::MAX` on an array gives `NoSuchKey` of that token, not `OutOfBounds` |
| Resolver.StepIndexSpellings | src/value.rs:19-20 | `0`- and `+`-prefixed spellings of a `usize` select the same as the plain digits |
| Resolver.StepNotANumber | src/value.rs:21-22 | a token with a non-digit (after an optional `+`) gives `NoSuchKey(token)` on an array |
| Resolver.StepEmptyToken | src/borrowed.rs:15-21 | the empty token on an array gives `NoSuchKey("")` |
| Resolver.Replace | src/value.rs:37-46 | writing through the reference a step found puts the new child where that step finds it; an object keeps its keys and every other entry, an array keeps its length and every other element |
| Resolver.GetMut | src/value.rs:33-51 | no tokens writes the value itself; an error is the error `get` returns on the same pointer; a write below the root keeps the root an object or an array |
| Resolver.GetMutAgrees | src/value.rs:33-51 | `get_mut` fails exactly when `get` fails, with the same error |
| Resolver.GetAfterGetMut | src/borrowed.rs:29-47 | after a write through `get_mut`, `get` on the same pointer finds the written value |
| Resolver.GetMutSameValue | src/value.rs:33-51 | writing back the value `get` located leaves the document unchanged |
| Resolver.SwapRemoved | src/value.rs:71 | `swap_remove(idx)` leaves one element fewer, the last element in slot `idx`, the others in place, and the same multiset less the removed element |
| Resolver.OwnedObject.Remove | src/value.rs:59 | `remove` returns the value under the key, if any, and drops the key |
| Resolver.OwnedArray.SwapRemove | src/borrowed.rs:62-66 | `swap_remove` returns element `idx` and leaves `SwapRemoved(old, idx)` |
| Resolver.GetOwned | src/value.rs:55-77 | taking containers apart on the way down yields what `get` locates, or the same error |
| OwnedFold.AndThen | src/owned.rs:11 | `and_then` passes an error on unchanged and applies the step to a value |
| OwnedFold.Fold | src/owned.rs:11 | for every step, no tokens leaves the accumulator as it is, and once it is an error later tokens leave it unchanged |
| OwnedFold.FoldIsGet | src/owned.rs:10-28 | the fold started at `Ok(document)` equals the `try_fold` resolver |
| Examples.Resolve | tests/rfc.rs:31-32 | parsing and resolving a string succeeds in reading exactly when it is in plain-form syntax |
| Examples.ResolveRendered | tests/rfc.rs:31-32 | resolving the plain form of tokens resolves the tokens |
| Examples.RfcVectorsArray | tests/rfc.rs:39-51 | `""` gives the whole document, `/foo` gives `["bar", "baz"]` |
| Examples.RfcVectorArrayElement | tests/rfc.rs:52 | `/foo/0` gives `"bar"` |
| Examples.RfcVectorsBlankKeys | tests/rfc.rs:53-60 | `/` gives 0 and `/ ` gives 7 |
| Examples.RfcVectorSlashKey | tests/rfc.rs:54 | `/a~1b` gives 1 |
| Examples.RfcVectorTildeKey | tests/rfc.rs:61 | `/m~0n` gives 8 |
| Examples.RfcPlainKey | tests/rfc.rs:55-59 | a key without `~` or `/` is reached by `/` followed by the key |
| Examples.RfcVectorPercentKey | tests/rfc.rs:55 | `/c%d` gives 2 |
| Examples.RfcVectorCaretKey | tests/rfc.rs:56 | `/e^f` gives 3 |
| Examples.RfcVectorBarKey | tests/rfc.rs:57 | the key `g`, a vertical bar, `h` gives 4 |
| Examples.RfcVectorBackslashKey | tests/rfc.rs:58 | `/i\j` gives 5 |
| Examples.RfcVectorQuoteKey | tests/rfc.rs:59 | `/k"l` gives 6 |
| Examples.OutOfBoundsVectors | src/value.rs:17-24 | `/foo/9` gives `OutOfBounds(9)` and `/foo/-` gives `OutOfBounds(2)` |
| Examples.NoSuchKeyVectors | src/value.rs:21-26 | `/foo/bar` gives `NoSuchKey("bar")` and `/foo/0/x` gives `NotIndexable` |
| Examples.LeadingZeroVector | src/borrowed.rs:17-22 | `/foo/01` gives `"baz"` |
| Examples.PlusSignVector | src/owned.rs:18-23 | `/foo/+1` gives `"baz"` |
| Examples.DocExampleRender | src/lib.rs:19-26 | `new(["foo", "bar"])` displays as `/foo/bar` |
| Examples.DocExampleParse | src/lib.rs:23-26 | `/foo/bar` reads as `["foo", "bar"]` |
| Examples.DocExampleSplit | src/lib.rs:24-27 | `"foo.bar".split('.')` gives `["foo", "bar"]` |
| Examples.DocExampleGet | src/lib.rs:45-56 | `/foo/bar` on the documentation's document gives 0 |
| Examples.PercentInFragment | src/ptr.rs:40-43 | `%` inside a token is written `%25` |
| Examples.FragmentOfPercent | src/lib.rs:90-91 | the fragment form of `["f%o"]` is `#/f%25o` |
| Examples.PercentTokenExample | src/lib.rs:90-93 | `/f%o` and `#/f%25o` both read as `["f%o"]` |
| Examples.FragmentOfEmptyToken | tests/uri_fragment.rs:14 | the fragment form of `[""]` is `#/` |
| Examples.FragmentOfPercentTokens | tests/uri_fragment.rs:15 | the fragment form of `["per%", "%cent"]` is `#/per%25/%25cent` |
| Examples.RfcFragmentPercentKey | src/ptr.rs:39-45 | the key `c%d` is written `c%25d`, as in section 6 of RFC 6901 |
| Examples.RfcFragmentSpaceKey | src/ptr.rs:39-45 | the key ` ` is written `%20`, as in section 6 of RFC 6901 |
| Examples.RfcFragmentCaretKey | src/ptr.rs:43 | the key `e^f` is written `e%5ef`, in lower case where section 6 of RFC 6901 has `e%5Ef` |
| Examples.CreateFromStrArray | examples/create_from_str_array.rs:6-23 | building `["foo", "bar"]` displays `/foo/bar`, and resolving it on the example document gives 0 |
| Examples.PushPopRoundTrip | src/ptr.rs:51-60 | pushing `foo` and `0` and popping returns `"0"` and leaves a pointer equal to `new(["foo"])` |

## Left out

- The parser module (`mod parser`, `FromStr`, `ParseError`) is not part of
  this model. Round trips are stated against two readers written here,
  `PlainForm.ReadPointer` and `FragmentForm.ReadFragment`.
  - `ReadFragment` percent-decodes everything after the `#` and then reads
    the result as a plain-form pointer, `~0`/`~1` included. It reads the
    decoded bytes one character per byte and does no UTF-8 decoding, so a
    token comes back as its UTF-8 bytes.
  - Whether the crate's parser agrees with these readers is not modelled.
- The `Index`/`IndexMut` implementations, which unwrap `get`/`get_mut` and
  panic on error, are left out: they add no behaviour beyond a panic.
- The JSON backends are one abstract tree. Numbers are integers. Object key
  order, hashing and the backends' own storage are not modelled.
- `get_mut` returns a mutable reference. The model is `GetMut`, the
  document after one write through that reference. Aliasing and lifetimes
  are not modelled.
- `get_owned` consumes its input. `GetOwned` takes a value, and the
  containers it takes apart are fresh objects, so the moves are not modelled.
- The generic parameters `S: AsRef<str>` and `C: AsRef<[S]>` are collapsed to
  a sequence of strings. `push`/`pop` exist only for the `Vec` form in the
  source, and the model gives them to every pointer.
- `Display` writes to a `Formatter` that can fail. Formatter errors are not
  modelled, and `Display` returns the text.
- `usize` is taken to be 64 bits wide.
- `src/owned.rs` implements a trait, `JsonPointerValueGetter`, that
  `src/lib.rs` does not declare; the trait itself is left out.
  - `OwnedFold.Fold` is the `fold`/`and_then` shape its three functions
    share, for any step. Only the read step of `get` is given to it
    (`FoldIsGet`).
  - The steps of its `get_mut` and `get_owned` select the same child as
    the read step, through a mutable reference or by `remove` and
    `swap_remove`. Those two functions are modelled by `Resolver.GetMut` and
    `Resolver.GetOwned`, not as steps handed to `Fold`.
- FragmentForm.ReadFragmentText: stated only for tokens free of `~` and `/`,
  because `uri_fragment` does not escape them. For a token holding either
  one the round trip fails (`SlashInTokenCollides`, `TildeFragmentMismatch`).

## Findings

| source | as written | input that shows it | evidently intended | confidence | as-written member | corrected member |
|---|---|---|---|---|---|---|
| src/ptr.rs:36-46 | each token is percent-encoded without first writing `~` as `~0` and `/` as `~1`, yet tests/parsing.rs:15-29 expects `uri_fragment` to give back any fragment that parses | the pointer `["~"]` is written `#/%7e`, which reads back as nothing; `#/~0` reads as `["~"]` and is written back as `#/%7e` | percent-encode the escaped plain form, as section 6 of RFC 6901 describes | not executed; the crate's parser is not part of this model, so the reading side is `FragmentForm.ReadFragment` | FragmentForm.TildeFragmentMismatch | FragmentForm.ReadEscapedFragmentText |
