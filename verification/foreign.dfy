/**
 The two library routines the checks call but whose insides are not part of
 this model, as parameters: `difflib.get_close_matches` and `float()`.
 */
module Foreign {
  import opened Wrappers

  /** The first entry of `get_close_matches(word, candidates)`, if the list is
      non-empty. Whatever the similarity measure, an answer is always one of
      the candidates. */
  type Matcher = f: (string, seq<string>) -> Option<string>
    | forall w, cs :: f(w, cs).Some? ==> f(w, cs).value in cs
    witness (w: string, cs: seq<string>) => None

  /** The outcomes of Python's `float(s)`: a `ValueError`, a finite value
      (already rounded to a double), NaN or an infinity. */
  datatype FloatParse = NotAFloat | Finite(value: real) | NaN | PosInf | NegInf

  /** The foreign routines a file check needs. */
  datatype Env = Env(closeMatch: Matcher, parseFloat: string -> FloatParse)
}
