/** encodeURIComponent and decodeURIComponent (sections 18.2.6.5, 18.2.6.3 and
    the Encode and Decode operations of 18.2.6.1 of ECMA-262, 6th edition): every
    scalar value outside the unreserved set is written as the `%HH` triplets
    (section 2.1 of RFC 3986) of its UTF-8 bytes. */
module UriComponent {
  import opened Opt
  import Hex
  import Utf8

  /** uriAlpha, DecimalDigit and uriMark: the characters left as they are. */
  predicate Unreserved(c: char) {
    || 'A' <= c <= 'Z' || 'a' <= c <= 'z' || '0' <= c <= '9'
    || c == '-' || c == '_' || c == '.' || c == '!' || c == '~'
    || c == '*' || c == '\'' || c == '(' || c == ')'
  }

  /** One byte as a percent triplet, upper-case hexadecimal. */
  function EscapeByte(b: Utf8.Byte): (t: string)
    ensures |t| == 3 && t[0] == '%'
    ensures Hex.IsUpperHexDigit(t[1]) && Hex.IsUpperHexDigit(t[2])
    ensures Hex.Value(t[1]) * 16 + Hex.Value(t[2]) == b
  {
    ['%', Hex.UpperDigit(b / 16), Hex.UpperDigit(b % 16)]
  }

  function EscapeBytes(bs: seq<Utf8.Byte>): (t: string)
    ensures |t| == 3 * |bs|
    ensures forall i | 0 <= i < |t| :: Unreserved(t[i]) || t[i] == '%'
  {
    if bs == [] then [] else EscapeByte(bs[0]) + EscapeBytes(bs[1..])
  }

  function EncodeChar(c: char): (t: string)
    ensures forall i | 0 <= i < |t| :: Unreserved(t[i]) || t[i] == '%'
  {
    if Unreserved(c) then [c] else EscapeBytes(Utf8.Encode(c))
  }

  /** encodeURIComponent(s). */
  function Encode(s: string): (t: string)
    ensures forall i | 0 <= i < |t| :: Unreserved(t[i]) || t[i] == '%'
  {
    if s == [] then [] else EncodeChar(s[0]) + Encode(s[1..])
  }

  /** Text made only of unreserved characters and `%HH` triplets with
      upper-case digits. */
  predicate PercentEncoded(t: string)
    decreases |t|
  {
    if t == [] then true
    else if Unreserved(t[0]) then PercentEncoded(t[1..])
    else
      && |t| >= 3 && t[0] == '%'
      && Hex.IsUpperHexDigit(t[1]) && Hex.IsUpperHexDigit(t[2])
      && PercentEncoded(t[3..])
  }

  /** The byte written by the triplet at the front of `t`, in either case. */
  function FrontByte(t: string): (r: Option<Utf8.Byte>)
  {
    if |t| >= 3 && t[0] == '%' && Hex.IsHexDigit(t[1]) && Hex.IsHexDigit(t[2])
    then Some(Hex.Value(t[1]) * 16 + Hex.Value(t[2]))
    else None
  }

  /** The bytes of the `n` triplets at the front of `t`. */
  function FrontBytes(t: string, n: nat): (r: Option<seq<Utf8.Byte>>)
    ensures r.Some? ==> |r.value| == n && 3 * n <= |t|
    decreases n
  {
    if n == 0 then Some([])
    else match FrontByte(t)
      case None => None
      case Some(b) =>
        match FrontBytes(t[3..], n - 1)
        case None => None
        case Some(bs) => Some([b] + bs)
  }

  /** The character written by the escapes at the front of `t`, and how many
      characters of `t` they take; None where Decode throws a URIError. */
  function DecodeEscape(t: string): (r: Option<(char, nat)>)
    ensures r.Some? ==> 3 <= r.value.1 <= |t|
  {
    match FrontByte(t)
    case None => None
    case Some(b) =>
      var n := Utf8.SequenceLength(b);
      if n == 0 then None
      else match FrontBytes(t, n)
        case None => None
        case Some(bs) =>
          match Utf8.Decode(bs)
          case None => None
          case Some(c) => Some((c, 3 * n))
  }

  /** decodeURIComponent(t); None where it throws a URIError. */
  function Decode(t: string): (r: Option<string>)
    decreases |t|
  {
    if t == [] then Some([])
    else if t[0] != '%' then Prepend(t[0], Decode(t[1..]))
    else match DecodeEscape(t)
      case None => None
      case Some((c, k)) => Prepend(c, Decode(t[k..]))
  }

  lemma FrontByteEscaped(b: Utf8.Byte, rest: string)
    ensures FrontByte(EscapeByte(b) + rest) == Some(b)
  {
    var t := EscapeByte(b) + rest;
    assert t[..3] == EscapeByte(b);
  }

  lemma {:induction false} FrontBytesEscaped(bs: seq<Utf8.Byte>, rest: string)
    ensures FrontBytes(EscapeBytes(bs) + rest, |bs|) == Some(bs)
    decreases |bs|
  {
    if bs != [] {
      var t := EscapeBytes(bs) + rest;
      assert t == EscapeByte(bs[0]) + (EscapeBytes(bs[1..]) + rest);
      FrontByteEscaped(bs[0], EscapeBytes(bs[1..]) + rest);
      assert t[3..] == EscapeBytes(bs[1..]) + rest;
      FrontBytesEscaped(bs[1..], rest);
      assert [bs[0]] + bs[1..] == bs;
    }
  }

  lemma DecodeEscapedChar(c: char, rest: string)
    requires !Unreserved(c)
    ensures DecodeEscape(EncodeChar(c) + rest) == Some((c, |EncodeChar(c)|))
  {
    var bs := Utf8.Encode(c);
    var t := EscapeBytes(bs) + rest;
    assert t == EscapeByte(bs[0]) + (EscapeBytes(bs[1..]) + rest);
    FrontByteEscaped(bs[0], EscapeBytes(bs[1..]) + rest);
    FrontBytesEscaped(bs, rest);
    Utf8.DecodeEncode(c);
  }

  /** Decoding the encoding of one character in front of `rest` yields that
      character in front of the decoding of `rest`. */
  lemma DecodeEncodeChar(c: char, rest: string)
    ensures Decode(EncodeChar(c) + rest) == Prepend(c, Decode(rest))
  {
    var t := EncodeChar(c) + rest;
    if Unreserved(c) {
      assert t[0] == c && t[1..] == rest;
    } else {
      DecodeEscapedChar(c, rest);
      assert t[0] == '%';
      assert t[|EncodeChar(c)|..] == rest;
    }
  }

  /** Decoding undoes encoding in front of any text. */
  lemma {:induction false} DecodeEncodeAppend(s: string, rest: string)
    ensures Decode(Encode(s) + rest) == Concat(s, Decode(rest))
    decreases |s|
  {
    if s == [] {
      assert Encode(s) + rest == rest;
      assert Concat(s, Decode(rest)) == Decode(rest) by {
        if Decode(rest).Some? {
          assert s + Decode(rest).value == Decode(rest).value;
        }
      }
    } else {
      var c := s[0];
      var tail := Encode(s[1..]) + rest;
      EncodeCons(s, rest);
      DecodeEncodeAppend(s[1..], rest);
      DecodeEncodeChar(c, tail);
      ConcatCons(c, s[1..], Decode(rest));
      assert [c] + s[1..] == s;
    }
  }

  lemma EncodeCons(s: string, rest: string)
    requires s != []
    ensures Encode(s) + rest == EncodeChar(s[0]) + (Encode(s[1..]) + rest)
  {
  }

  /** decodeURIComponent(encodeURIComponent(s)) == s. */
  lemma DecodeEncode(s: string)
    ensures Decode(Encode(s)) == Some(s)
  {
    DecodeEncodeAppend(s, []);
    assert Encode(s) + [] == Encode(s);
    assert s + [] == s;
    assert Decode([]) == Some([]);
  }

  /** Different inputs never share an encoding. */
  lemma EncodeInjective(s: string, u: string)
    requires Encode(s) == Encode(u)
    ensures s == u
  {
    DecodeEncode(s);
    DecodeEncode(u);
  }

  /** The encoding is made of unreserved characters and `%HH` triplets only. */
  lemma {:induction false} EncodeIsPercentEncoded(s: string)
    ensures PercentEncoded(Encode(s))
    decreases |s|
  {
    if s != [] {
      EncodeIsPercentEncoded(s[1..]);
      var c := s[0];
      if Unreserved(c) {
        assert Encode(s)[1..] == Encode(s[1..]);
      } else {
        EscapedIsPercentEncoded(Utf8.Encode(c), Encode(s[1..]));
        assert Encode(s) == EscapeBytes(Utf8.Encode(c)) + Encode(s[1..]);
      }
    }
  }

  lemma {:induction false} EscapedIsPercentEncoded(bs: seq<Utf8.Byte>, rest: string)
    requires PercentEncoded(rest)
    ensures PercentEncoded(EscapeBytes(bs) + rest)
    decreases |bs|
  {
    if bs == [] {
      assert EscapeBytes(bs) + rest == rest;
    } else {
      EscapedIsPercentEncoded(bs[1..], rest);
      TripletIsPercentEncoded(EscapeByte(bs[0]), EscapeBytes(bs[1..]) + rest);
      assert EscapeBytes(bs) + rest == EscapeByte(bs[0]) + (EscapeBytes(bs[1..]) + rest);
    }
  }

  lemma TripletIsPercentEncoded(e: string, rest: string)
    requires |e| == 3 && e[0] == '%' && Hex.IsUpperHexDigit(e[1]) && Hex.IsUpperHexDigit(e[2])
    requires PercentEncoded(rest)
    ensures PercentEncoded(e + rest)
  {
    var t := e + rest;
    assert t[0] == '%' && t[1] == e[1] && t[2] == e[2];
    assert t[3..] == rest;
  }

  /** The encoding never holds a query delimiter, a fragment mark or a space, so
      it is safe as one query parameter value. */
  lemma EncodeHasNoDelimiters(s: string)
    ensures '&' !in Encode(s) && '=' !in Encode(s) && '#' !in Encode(s)
    ensures '?' !in Encode(s) && ' ' !in Encode(s) && '+' !in Encode(s)
  {
    ReservedNotInEncoding(s, '&');
    ReservedNotInEncoding(s, '=');
    ReservedNotInEncoding(s, '#');
    ReservedNotInEncoding(s, '?');
    ReservedNotInEncoding(s, ' ');
    ReservedNotInEncoding(s, '+');
  }

  /** A character that is neither unreserved nor `%` never appears in an
      encoding. */
  lemma ReservedNotInEncoding(s: string, c: char)
    requires !Unreserved(c) && c != '%'
    ensures c !in Encode(s)
  {
    var t := Encode(s);
    assert forall i | 0 <= i < |t| :: t[i] != c;
  }

  /** Text made of unreserved characters only is left unchanged. */
  lemma {:induction false} EncodeUnreserved(s: string)
    requires forall i | 0 <= i < |s| :: Unreserved(s[i])
    ensures Encode(s) == s
    decreases |s|
  {
    if s != [] {
      EncodeUnreserved(s[1..]);
    }
  }
}
