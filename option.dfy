/** The Option datatype the other modules use for a value that may be absent,
    and for the result of a decoder that may reject its input. */
module Opt {

  datatype Option<+T> = None | Some(value: T)

  /** Puts `s` in front of the string held by `r`, keeping a rejection a rejection. */
  function Concat(s: string, r: Option<string>): (p: Option<string>)
    ensures p.Some? <==> r.Some?
    ensures p.Some? ==> p.value == s + r.value
  {
    match r
    case None => None
    case Some(t) => Some(s + t)
  }

  /** Puts `c` in front of the string held by `r`, keeping a rejection a rejection. */
  function Prepend(c: char, r: Option<string>): (p: Option<string>)
    ensures p.Some? <==> r.Some?
    ensures p.Some? ==> p.value == [c] + r.value
  {
    match r
    case None => None
    case Some(s) => Some([c] + s)
  }

  /** Putting one character in front of a prefixed result is prefixing with the
      longer string. */
  lemma ConcatCons(c: char, s: string, r: Option<string>)
    ensures Prepend(c, Concat(s, r)) == Concat([c] + s, r)
  {
    if r.Some? {
      assert [c] + (s + r.value) == ([c] + s) + r.value;
    }
  }
}
