/** The search that `text.match(/https?:\/\/[^"]+\.mp4/)` performs: the
    leftmost position where the pattern matches and, at that position, the match
    backtracking finds first, which is the longest one because `[^"]+` is
    greedy (section 21.2.2 of ECMA-262, 6th edition). */
module Mp4Scan {
  import opened Opt

  predicate StartsWith(w: string, p: string) {
    |p| <= |w| && w[..|p|] == p
  }

  /** The length of the `https?://` part at the front of `w`, 0 if there is
      none. At most one of the two alternatives can apply, since the fifth
      character is `s` for one and `:` for the other. */
  function SchemeLength(w: string): (p: nat)
    ensures p == 0 || p == 7 || p == 8
  {
    if StartsWith(w, "https://") then 8 else if StartsWith(w, "http://") then 7 else 0
  }

  /** `w`, as a whole, is in the language of /https?:\/\/[^"]+\.mp4/:
      `http://` or `https://`, at least one character other than `"`, `.mp4`. */
  predicate Mp4Url(w: string) {
    var p := SchemeLength(w);
    p > 0 && |w| >= p + 5 && w[|w| - 4..] == ".mp4" && '"' !in w[p..|w| - 4]
  }

  /** The pattern matches `t[i..e]`. */
  predicate IsMatch(t: string, i: int, e: int) {
    0 <= i <= e <= |t| && Mp4Url(t[i..e])
  }

  /** `.mp4` ends at position `e` of `t`. */
  predicate EndsMp4At(t: string, e: int) {
    4 <= e <= |t| && t[e - 4..e] == ".mp4"
  }

  /** The first `"` at or after position `k`, or the end of `t`. */
  function QuoteFrom(t: string, k: nat): (q: nat)
    requires k <= |t|
    ensures k <= q <= |t|
    ensures q < |t| ==> t[q] == '"'
    ensures forall j | k <= j < q :: t[j] != '"'
    decreases |t| - k
  {
    if k == |t| || t[k] == '"' then k else QuoteFrom(t, k + 1)
  }

  /** The largest `e` with `lo <= e <= hi` at which `.mp4` ends. */
  function LastMp4End(t: string, lo: nat, hi: nat): (r: Option<nat>)
    requires hi <= |t|
    ensures r.Some? ==> lo <= r.value <= hi && EndsMp4At(t, r.value)
    ensures r.Some? ==> forall e | r.value < e <= hi :: !EndsMp4At(t, e)
    ensures r.None? ==> forall e | lo <= e <= hi :: !EndsMp4At(t, e)
    decreases hi
  {
    if hi < lo || hi < 4 then None
    else if t[hi - 4..hi] == ".mp4" then Some(hi)
    else LastMp4End(t, lo, hi - 1)
  }

  lemma SchemeOfPrefix(w: string, n: nat)
    requires 8 <= n <= |w|
    ensures SchemeLength(w[..n]) == SchemeLength(w)
  {
    assert w[..n][..8] == w[..8];
    assert w[..n][..7] == w[..7];
  }

  /** A candidate long enough to hold a whole match has the scheme of the text
      it is cut from. */
  lemma SchemeOfSlice(t: string, i: nat, e: int)
    requires i + 12 <= e <= |t|
    ensures SchemeLength(t[i..e]) == SchemeLength(t[i..])
  {
    SchemeOfPrefix(t[i..], e - i);
    assert t[i..][..e - i] == t[i..e];
  }

  /** The pieces of a candidate `t[i..e]` as slices of `t`. */
  lemma SlicePieces(t: string, i: nat, e: int, p: nat)
    requires i + p + 4 <= e <= |t|
    ensures t[i..e][e - i - 4..] == t[e - 4..e]
    ensures t[i..e][p..e - i - 4] == t[i + p..e - 4]
  {
    var w, v := t[i..e][p..e - i - 4], t[i + p..e - 4];
    forall k | 0 <= k < |w| ensures w[k] == v[k] {
    }
  }

  lemma MatchBounded(t: string, i: nat, e: int)
    requires IsMatch(t, i, e)
    ensures var p := SchemeLength(t[i..]);
      p > 0 && i + p + 5 <= e && e <= QuoteFrom(t, i + p) && EndsMp4At(t, e)
  {
    var p := SchemeLength(t[i..e]);
    SchemeOfSlice(t, i, e);
    SlicePieces(t, i, e, p);
    MatchBeforeQuote(t, i, e, p);
  }

  lemma MatchBeforeQuote(t: string, i: nat, e: int, p: nat)
    requires i + p + 5 <= e <= |t|
    requires '"' !in t[i + p..e - 4] && t[e - 4..e] == ".mp4"
    ensures e <= QuoteFrom(t, i + p)
  {
    var q := QuoteFrom(t, i + p);
    if q < e {
      if q < e - 4 {
        NotInSlice(t, i + p, e - 4, q, '"');
      } else {
        NotInSlice(t, e - 4, e, q, '"');
      }
    }
  }

  lemma NotInSlice(t: string, lo: nat, hi: nat, k: nat, c: char)
    requires lo <= k < hi <= |t| && c !in t[lo..hi]
    ensures t[k] != c
  {
    assert t[k] == t[lo..hi][k - lo];
  }

  lemma BoundedMatch(t: string, i: nat, e: int)
    requires i <= |t|
    requires var p := SchemeLength(t[i..]);
      p > 0 && i + p + 5 <= e && e <= QuoteFrom(t, i + p) && EndsMp4At(t, e)
    ensures IsMatch(t, i, e)
  {
    var p := SchemeLength(t[i..]);
    SchemeOfSlice(t, i, e);
    SlicePieces(t, i, e, p);
    assert forall j | i + p <= j < e - 4 :: t[j] != '"';
    assert '"' !in t[i + p..e - 4];
  }

  /** Where the pattern matches at `i`: after the scheme, up to the first quote,
      at an end of `.mp4`. */
  lemma IsMatchIff(t: string, i: nat, e: int)
    requires i <= |t|
    ensures
      var p := SchemeLength(t[i..]);
      IsMatch(t, i, e) <==>
        p > 0 && i + p + 5 <= e && e <= QuoteFrom(t, i + p) && EndsMp4At(t, e)
  {
    var p := SchemeLength(t[i..]);
    if IsMatch(t, i, e) {
      MatchBounded(t, i, e);
    } else if p > 0 && i + p + 5 <= e && e <= QuoteFrom(t, i + p) && EndsMp4At(t, e) {
      BoundedMatch(t, i, e);
    }
  }

  /** The end of the match backtracking finds at `i`: the longest one. */
  function LongestAt(t: string, i: nat): (r: Option<nat>)
    requires i <= |t|
    ensures r.Some? ==> IsMatch(t, i, r.value)
    ensures r.Some? ==> forall e | IsMatch(t, i, e) :: e <= r.value
    ensures r.None? ==> forall e :: !IsMatch(t, i, e)
  {
    var p := SchemeLength(t[i..]);
    if p == 0 || i + p > |t| then
      assert forall e :: !IsMatch(t, i, e) by {
        forall e ensures !IsMatch(t, i, e) { IsMatchIff(t, i, e); }
      }
      None
    else
      var q := QuoteFrom(t, i + p);
      var r := LastMp4End(t, i + p + 5, q);
      assert forall e :: IsMatch(t, i, e) <==> i + p + 5 <= e <= q && EndsMp4At(t, e) by {
        forall e ensures IsMatch(t, i, e) <==> i + p + 5 <= e <= q && EndsMp4At(t, e) {
          IsMatchIff(t, i, e);
        }
      }
      r
  }

  /** The leftmost position at or after `from` where the pattern matches, with
      the longest match there. */
  function Leftmost(t: string, from: nat): (r: Option<(nat, nat)>)
    requires from <= |t|
    ensures r.Some? ==> from <= r.value.0 && IsMatch(t, r.value.0, r.value.1)
    ensures r.Some? ==> forall i, e | from <= i < r.value.0 :: !IsMatch(t, i, e)
    ensures r.Some? ==> forall e | IsMatch(t, r.value.0, e) :: e <= r.value.1
    ensures r.None? ==> forall i, e | from <= i :: !IsMatch(t, i, e)
    decreases |t| - from
  {
    match LongestAt(t, from)
    case Some(e) => Some((from, e))
    case None =>
      if from == |t| then
        assert forall i, e | from <= i :: !IsMatch(t, i, e) by {
          forall i, e | from <= i ensures !IsMatch(t, i, e) {
            if i > from { assert !(i <= |t|) || i == from; }
          }
        }
        None
      else Leftmost(t, from + 1)
  }

  /** `t.match(/https?:\/\/[^"]+\.mp4/)`: None for null, else the match `[0]`. */
  function Match(t: string): (r: Option<string>)
    ensures r.Some? ==> Mp4Url(r.value)
    ensures r.None? ==> forall i, e :: !IsMatch(t, i, e)
  {
    match Leftmost(t, 0)
    case None => None
    case Some((i, e)) => Some(t[i..e])
  }

  /** The match, when there is one, is the leftmost, and the longest one there. */
  lemma MatchIsLeftmostLongest(t: string) returns (i: nat, e: nat)
    requires Match(t).Some?
    ensures IsMatch(t, i, e) && t[i..e] == Match(t).value
    ensures forall i', e' | i' < i :: !IsMatch(t, i', e')
    ensures forall e' | IsMatch(t, i, e') :: e' <= e
  {
    i, e := Leftmost(t, 0).value.0, Leftmost(t, 0).value.1;
  }

  /** Every match starts with a scheme, ends with `.mp4` and holds no quote. */
  lemma Mp4UrlShape(w: string)
    requires Mp4Url(w)
    ensures StartsWith(w, "http://") || StartsWith(w, "https://")
    ensures |w| >= 12 && w[|w| - 4..] == ".mp4"
    ensures '"' !in w
  {
    var p := SchemeLength(w);
    assert w == w[..p] + w[p..|w| - 4] + w[|w| - 4..];
    if p == 8 {
      assert w[..p] == "https://";
    } else {
      assert w[..p] == "http://";
    }
  }

  /** A whole match standing anywhere in the text makes the scan succeed, at
      that position or to its left. */
  lemma MatchFindsEmbedded(t: string, w: string, off: nat)
    requires Mp4Url(w) && off + |w| <= |t| && t[off..off + |w|] == w
    ensures Match(t).Some?
    ensures Leftmost(t, 0).value.0 <= off
  {
    assert IsMatch(t, off, off + |w|);
  }
}
