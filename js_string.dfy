/** String.prototype.trim (section 21.1.3.25 of ECMA-262, 6th edition): removes
    WhiteSpace and LineTerminator code points (sections 11.2 and 11.3 of the same
    edition) from both ends. */
module JsString {

  /** WhiteSpace or LineTerminator: TAB, VT, FF, SP, NBSP, ZWNBSP, the other
      space separators of category Zs, LF, CR, LS and PS. */
  predicate IsWhiteSpace(c: char) {
    || c == '\t' || c == '\U{000B}' || c == '\U{000C}' || c == ' '
    || c == '\U{00A0}' || c == '\U{FEFF}'
    || c == '\U{1680}' || ('\U{2000}' <= c <= '\U{200A}')
    || c == '\U{202F}' || c == '\U{205F}' || c == '\U{3000}'
    || c == '\n' || c == '\r' || c == '\U{2028}' || c == '\U{2029}'
  }

  /** `s` without its leading white space: a suffix of `s` that starts with a
      non-white-space character, everything before it white space. */
  function TrimStart(s: string): (r: string)
    ensures |r| <= |s| && r == s[|s| - |r|..]
    ensures forall k | 0 <= k < |s| - |r| :: IsWhiteSpace(s[k])
    ensures r != [] ==> !IsWhiteSpace(r[0])
    decreases |s|
  {
    if s != [] && IsWhiteSpace(s[0]) then TrimStart(s[1..]) else s
  }

  /** `s` without its trailing white space: a prefix of `s` that ends with a
      non-white-space character, everything after it white space. */
  function TrimEnd(s: string): (r: string)
    ensures |r| <= |s| && r == s[..|r|]
    ensures forall k | |r| <= k < |s| :: IsWhiteSpace(s[k])
    ensures r != [] ==> !IsWhiteSpace(r[|r| - 1])
    decreases |s|
  {
    if s != [] && IsWhiteSpace(s[|s| - 1]) then TrimEnd(s[..|s| - 1]) else s
  }

  /** s.trim(): the part of `s` between its leading and trailing white space. */
  function Trim(s: string): (r: string)
    ensures r != [] ==> !IsWhiteSpace(r[0]) && !IsWhiteSpace(r[|r| - 1])
  {
    TrimEnd(TrimStart(s))
  }

  /** The trimmed text is a contiguous piece of the input, and what was cut off
      on either side is white space. */
  lemma TrimIsInfix(s: string) returns (lo: nat)
    ensures lo + |Trim(s)| <= |s| && Trim(s) == s[lo..lo + |Trim(s)|]
    ensures forall k | 0 <= k < lo :: IsWhiteSpace(s[k])
    ensures forall k | lo + |Trim(s)| <= k < |s| :: IsWhiteSpace(s[k])
  {
    var a := TrimStart(s);
    lo := |s| - |a|;
    var r := TrimEnd(a);
    assert s[lo..lo + |r|] == a[..|r|];
    forall k | lo + |r| <= k < |s|
      ensures IsWhiteSpace(s[k])
    {
      assert s[k] == a[k - lo];
    }
  }

  /** The input trims to the empty string exactly when it is all white space. */
  lemma TrimEmptyIff(s: string)
    ensures Trim(s) == [] <==> forall k | 0 <= k < |s| :: IsWhiteSpace(s[k])
  {
    if !forall k | 0 <= k < |s| :: IsWhiteSpace(s[k]) {
      var lo := TrimIsInfix(s);
    }
  }

  /** Trimming twice trims nothing more. */
  lemma TrimIdempotent(s: string)
    ensures Trim(Trim(s)) == Trim(s)
  {
    var r := Trim(s);
    if r != [] {
      assert TrimStart(r) == r;
      assert TrimEnd(r) == r;
    }
  }
}
