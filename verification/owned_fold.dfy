/**
 * The simd_json `OwnedValue` implementation writes the walk as an
 * ordinary `fold` whose accumulator starts at `Ok(document)` and is
 * threaded through `and_then`, rather than a `try_fold`. All three of its
 * functions share that shape and differ only in the step taken at each
 * token, so the fold here takes the step as a parameter; with the read
 * step it is proved to compute what `get` computes.
 */
module OwnedFold {
  import opened Wrappers
  import opened JsonValue
  import opened Pointer
  import opened Resolver

  /** `acc.and_then(step)`: an error is passed on untouched, a value takes the next step. */
  function AndThen(step: (Json, string) -> Result<Json, IndexError>, acc: Result<Json, IndexError>, tok: string)
    : (r: Result<Json, IndexError>)
    ensures acc.Err? ==> r == acc
    ensures acc.Ok? ==> r == step(acc.value, tok)
  {
    match acc
    case Ok(val) => step(val, tok)
    case Err(e) => Err(e)
  }

  /**
   * `toks.iter().fold(acc, |acc, tok| acc.and_then(step))`. Whatever the
   * step, once the accumulator is an error it stays that error: later
   * tokens are never consulted.
   */
  function Fold(step: (Json, string) -> Result<Json, IndexError>, acc: Result<Json, IndexError>, toks: seq<string>)
    : (r: Result<Json, IndexError>)
    ensures toks == [] ==> r == acc
    ensures acc.Err? ==> r == acc
    decreases toks
  {
    if toks == [] then acc else Fold(step, AndThen(step, acc, toks[0]), toks[1..])
  }

  /** With the read step, the fold started at `Ok(document)` computes exactly what the `try_fold` resolver does. */
  lemma {:induction false} FoldIsGet(doc: Json, toks: seq<string>)
    ensures Fold(Step, Ok(doc), toks) == Get(doc, toks)
  {
    if toks != [] {
      match Step(doc, toks[0]) {
        case Err(e) =>
        case Ok(child) => FoldIsGet(child, toks[1..]);
      }
    }
  }
}
