/** The decoded JSON body as a tree, and its text as JSON.stringify(value)
    writes it with no indentation (section 24.3.2 of ECMA-262, 6th edition), strings escaped
    as section 7 of RFC 8259 allows. */
module Json {
  import opened Opt
  import Hex
  import Decimal

  /** A value as response.json() yields it. The fields of an object are its own
      properties in enumeration order; JSON.parse keeps one property per key. */
  datatype Json =
    | JNull
    | JBool(b: bool)
    | JNumber(n: int)
    | JString(s: string)
    | JArray(items: seq<Json>)
    | JObject(fields: seq<Field>)

  datatype Field = Field(key: string, value: Json)

  /** An integral number as JSON.stringify writes it. */
  function NumberText(n: int): (t: string)
    ensures t != [] && '"' !in t
    ensures t[0] == '-' <==> n < 0
    ensures forall i | 0 <= i < |t| :: Decimal.IsDigit(t[i]) || t[i] == '-'
  {
    if n < 0 then "-" + Decimal.FromNat(-n) else Decimal.FromNat(n)
  }

  /** One character of a string literal's body (section 24.3.2.2 of
      ECMA-262, 6th edition): the two-character
      escapes for quote, backslash, backspace, tab, line feed, form feed and
      carriage return, \u00xx with lower-case digits for the other control
      characters, and the character itself otherwise. */
  function EscapeChar(c: char): (t: string)
    ensures |t| >= 1 && (|t| == 1 <==> t == [c])
    ensures c != '"' ==> '"' !in t
    ensures IsPlain(c) <==> t == [c]
    ensures !IsPlain(c) ==> t[0] == '\\' && |t| >= 2
  {
    if c == '"' then "\\\""
    else if c == '\\' then "\\\\"
    else if c == '\U{0008}' then "\\b"
    else if c == '\t' then "\\t"
    else if c == '\n' then "\\n"
    else if c == '\U{000C}' then "\\f"
    else if c == '\r' then "\\r"
    else if c < '\U{0020}' then ['\\', 'u', '0', '0', Hex.LowerDigit(c as int / 16), Hex.LowerDigit(c as int % 16)]
    else [c]
  }

  /** A character that JSON.stringify copies unchanged. */
  predicate IsPlain(c: char) {
    c != '"' && c != '\\' && c >= '\U{0020}'
  }

  function Escape(s: string): (t: string)
    ensures |t| >= |s|
    ensures '"' !in s ==> '"' !in t
  {
    if s == [] then [] else EscapeChar(s[0]) + Escape(s[1..])
  }

  /** The string literal JSON.stringify writes for `s`: quotes around a body
      that reads back as `s`. */
  function Quote(s: string): (r: string)
    ensures |r| >= 2 && r[0] == '"' && r[|r| - 1] == '"'
    ensures Unescape(r[1..|r| - 1]) == Some(s)
  {
    UnescapeEscape(s);
    var r := "\"" + Escape(s) + "\"";
    assert r[1..|r| - 1] == Escape(s);
    r
  }

  /** The character one escape sequence (or one unescaped character) at the
      front of a string body stands for, and its length; None for text that
      section 7 of RFC 8259 does not allow: a bare quote or control character,
      an unknown escape, or a \u escape of a surrogate (not modelled). */
  function UnescapeFront(t: string): (r: Option<(char, nat)>)
    ensures r.Some? ==> 1 <= r.value.1 <= |t|
  {
    if t == [] || t[0] == '"' || t[0] < '\U{0020}' then None
    else if t[0] != '\\' then Some((t[0], 1))
    else if |t| < 2 then None
    else if t[1] == '"' then Some(('"', 2))
    else if t[1] == '\\' then Some(('\\', 2))
    else if t[1] == '/' then Some(('/', 2))
    else if t[1] == 'b' then Some(('\U{0008}', 2))
    else if t[1] == 'f' then Some(('\U{000C}', 2))
    else if t[1] == 'n' then Some(('\n', 2))
    else if t[1] == 'r' then Some(('\r', 2))
    else if t[1] == 't' then Some(('\t', 2))
    else if t[1] == 'u' && |t| >= 6 && Hex.IsHexDigit(t[2]) && Hex.IsHexDigit(t[3])
            && Hex.IsHexDigit(t[4]) && Hex.IsHexDigit(t[5]) then
      var v := ((Hex.Value(t[2]) * 16 + Hex.Value(t[3])) * 16 + Hex.Value(t[4])) * 16 + Hex.Value(t[5]);
      if 0xD800 <= v < 0xE000 then None else Some((v as char, 6))
    else None
  }

  /** The string a string literal's body (the text between its quotes) denotes. */
  function Unescape(t: string): (r: Option<string>)
    decreases |t|
  {
    if t == [] then Some([])
    else match UnescapeFront(t)
      case None => None
      case Some((c, k)) => Prepend(c, Unescape(t[k..]))
  }

  lemma UnescapeFrontEscapeChar(c: char, rest: string)
    ensures UnescapeFront(EscapeChar(c) + rest) == Some((c, |EscapeChar(c)|))
  {
    var e := EscapeChar(c);
    var t := e + rest;
    assert t[..|e|] == e;
    if c < '\U{0020}' && c != '\U{0008}' && c != '\t' && c != '\n' && c != '\U{000C}' && c != '\r' {
      assert t[2] == '0' && t[3] == '0';
      assert c as int == (c as int / 16) * 16 + c as int % 16;
    }
  }

  lemma UnescapeEscapeChar(c: char, rest: string)
    ensures Unescape(EscapeChar(c) + rest) == Prepend(c, Unescape(rest))
  {
    var t := EscapeChar(c) + rest;
    UnescapeFrontEscapeChar(c, rest);
    assert t[|EscapeChar(c)|..] == rest;
  }

  lemma EscapeCons(s: string, rest: string)
    requires s != []
    ensures Escape(s) + rest == EscapeChar(s[0]) + (Escape(s[1..]) + rest)
  {
  }

  /** Reading back the escaped body of a string gives the string, in front of
      any text. */
  lemma {:induction false} UnescapeEscapeAppend(s: string, rest: string)
    ensures Unescape(Escape(s) + rest) == Concat(s, Unescape(rest))
    decreases |s|
  {
    if s == [] {
      assert Escape(s) + rest == rest;
      assert Concat(s, Unescape(rest)) == Unescape(rest) by {
        if Unescape(rest).Some? {
          assert s + Unescape(rest).value == Unescape(rest).value;
        }
      }
    } else {
      var c := s[0];
      EscapeCons(s, rest);
      UnescapeEscapeChar(c, Escape(s[1..]) + rest);
      UnescapeEscapeAppend(s[1..], rest);
      ConcatCons(c, s[1..], Unescape(rest));
      assert [c] + s[1..] == s;
    }
  }

  /** The escaping JSON.stringify applies to a string is undone by reading the
      literal back as RFC 8259 defines it. */
  lemma UnescapeEscape(s: string)
    ensures Unescape(Escape(s)) == Some(s)
  {
    UnescapeEscapeAppend(s, []);
    assert Escape(s) + [] == Escape(s);
    assert s + [] == s;
  }

  /** A string of plain characters is written as it is. */
  lemma {:induction false} EscapePlain(s: string)
    requires forall i | 0 <= i < |s| :: IsPlain(s[i])
    ensures Escape(s) == s
    decreases |s|
  {
    if s != [] {
      EscapePlain(s[1..]);
    }
  }

  /** Escaping distributes over concatenation. */
  lemma {:induction false} EscapeAppend(a: string, b: string)
    ensures Escape(a + b) == Escape(a) + Escape(b)
    decreases |a|
  {
    if a != [] {
      assert (a + b)[1..] == a[1..] + b;
      EscapeAppend(a[1..], b);
    } else {
      assert a + b == b;
    }
  }

  /** JSON.stringify(j). */
  function Serialize(j: Json): (r: string)
    ensures r != []
    ensures r[0] == '"' <==> j.JString?
    ensures r[0] == '[' <==> j.JArray?
    ensures r[0] == '{' <==> j.JObject?
    ensures j.JNumber? <==> Decimal.IsDigit(r[0]) || r[0] == '-'
    decreases j
  {
    match j
    case JNull => "null"
    case JBool(b) => if b then "true" else "false"
    case JNumber(n) => NumberText(n)
    case JString(s) => Quote(s)
    case JArray(items) => "[" + SerializeItems(items) + "]"
    case JObject(fields) => "{" + SerializeFields(fields) + "}"
  }

  /** The elements of an array, separated by commas: empty exactly for no
      elements. */
  function SerializeItems(items: seq<Json>): (r: string)
    ensures r == [] <==> items == []
    decreases items
  {
    if items == [] then ""
    else if |items| == 1 then Serialize(items[0])
    else Serialize(items[0]) + "," + SerializeItems(items[1..])
  }

  /** The members of an object, `"key":value`, separated by commas: empty
      exactly for no members, and otherwise starting with a key's quote. */
  function SerializeFields(fields: seq<Field>): (r: string)
    ensures r == [] <==> fields == []
    ensures r != [] ==> r[0] == '"'
    decreases fields
  {
    if fields == [] then ""
    else if |fields| == 1 then SerializeField(fields[0])
    else SerializeField(fields[0]) + "," + SerializeFields(fields[1..])
  }

  /** One member: the quoted key, a colon right after it, then the value. */
  function SerializeField(f: Field): (r: string)
    ensures var q := Quote(f.key); |r| > |q| + 1 && r[..|q|] == q && r[|q|] == ':'
    decreases f
  {
    Quote(f.key) + ":" + Serialize(f.value)
  }

  /** `u` is a string value or an object key somewhere in `j`. */
  predicate Occurs(u: string, j: Json)
    decreases j
  {
    match j
    case JString(s) => s == u
    case JArray(items) => exists k | 0 <= k < |items| :: Occurs(u, items[k])
    case JObject(fields) =>
      exists k | 0 <= k < |fields| :: fields[k].key == u || Occurs(u, fields[k].value)
    case _ => false
  }

  /** `a` stands in `t` at offset `off`. */
  predicate IsAt(a: string, t: string, off: nat) {
    off + |a| <= |t| && t[off..off + |a|] == a
  }

  /** Text behind a prefix `p` still holds what it held, shifted by |p|. */
  lemma AtPrefix(a: string, t: string, off: nat, p: string)
    requires IsAt(a, t, off)
    ensures IsAt(a, p + t, |p| + off)
  {
    assert (p + t)[|p| + off..|p| + off + |a|] == t[off..off + |a|];
  }

  /** Text in front of a suffix `q` still holds what it held. */
  lemma AtSuffix(a: string, t: string, off: nat, q: string)
    requires IsAt(a, t, off)
    ensures IsAt(a, t + q, off)
  {
    assert (t + q)[off..off + |a|] == t[off..off + |a|];
  }

  /** `a` is at offset 1 of its own quoted form. */
  lemma AtQuoted(a: string)
    ensures IsAt(a, "\"" + a + "\"", 1)
  {
    assert IsAt(a, a, 0);
    AtPrefix(a, a, 0, "\"");
    AtSuffix(a, "\"" + a, 1, "\"");
  }

  /** The escaped form of every string value and key of `j` appears in the text
      JSON.stringify writes for `j`. */
  lemma {:induction false} Embedded(u: string, j: Json) returns (off: nat)
    requires Occurs(u, j)
    ensures IsAt(Escape(u), Serialize(j), off)
    decreases j, 2
  {
    match j
    case JString(s) =>
      off := 1;
      AtQuoted(Escape(u));
    case JArray(items) =>
      off := EmbeddedInArray(u, items);
    case JObject(fields) =>
      off := EmbeddedInObject(u, fields);
  }

  lemma {:induction false} EmbeddedInArray(u: string, items: seq<Json>) returns (off: nat)
    requires Occurs(u, JArray(items))
    ensures IsAt(Escape(u), Serialize(JArray(items)), off)
    decreases JArray(items), 1
  {
    var k :| 0 <= k < |items| && Occurs(u, items[k]);
    var o := EmbeddedInItems(u, items, k);
    AtPrefix(Escape(u), SerializeItems(items), o, "[");
    AtSuffix(Escape(u), "[" + SerializeItems(items), 1 + o, "]");
    off := 1 + o;
  }

  lemma {:induction false} EmbeddedInObject(u: string, fields: seq<Field>) returns (off: nat)
    requires Occurs(u, JObject(fields))
    ensures IsAt(Escape(u), Serialize(JObject(fields)), off)
    decreases JObject(fields), 1
  {
    var k :| 0 <= k < |fields| && (fields[k].key == u || Occurs(u, fields[k].value));
    var o := EmbeddedInFields(u, fields, k);
    AtPrefix(Escape(u), SerializeFields(fields), o, "{");
    AtSuffix(Escape(u), "{" + SerializeFields(fields), 1 + o, "}");
    off := 1 + o;
  }

  lemma {:induction false} EmbeddedInItems(u: string, items: seq<Json>, k: nat) returns (off: nat)
    requires k < |items| && Occurs(u, items[k])
    ensures IsAt(Escape(u), SerializeItems(items), off)
    decreases items, 0
  {
    if k == 0 {
      var o := Embedded(u, items[0]);
      off := AtFirstItem(Escape(u), items, o);
    } else {
      var o := EmbeddedInItems(u, items[1..], k - 1);
      off := AtLaterItem(Escape(u), items, o);
    }
  }

  lemma AtFirstItem(e: string, items: seq<Json>, o: nat) returns (off: nat)
    requires items != [] && IsAt(e, Serialize(items[0]), o)
    ensures IsAt(e, SerializeItems(items), off)
  {
    off := o;
    if |items| > 1 {
      AtSuffix(e, Serialize(items[0]), o, ",");
      AtSuffix(e, Serialize(items[0]) + ",", o, SerializeItems(items[1..]));
    }
  }

  lemma AtLaterItem(e: string, items: seq<Json>, o: nat) returns (off: nat)
    requires |items| > 1 && IsAt(e, SerializeItems(items[1..]), o)
    ensures IsAt(e, SerializeItems(items), off)
  {
    var p := Serialize(items[0]) + ",";
    AtPrefix(e, SerializeItems(items[1..]), o, p);
    off := |p| + o;
  }

  lemma {:induction false} EmbeddedInFields(u: string, fields: seq<Field>, k: nat) returns (off: nat)
    requires k < |fields| && (fields[k].key == u || Occurs(u, fields[k].value))
    ensures IsAt(Escape(u), SerializeFields(fields), off)
    decreases fields, 0
  {
    if k == 0 {
      var o := EmbeddedInField(u, fields[0]);
      off := AtFirstField(Escape(u), fields, o);
    } else {
      var o := EmbeddedInFields(u, fields[1..], k - 1);
      off := AtLaterField(Escape(u), fields, o);
    }
  }

  lemma AtFirstField(e: string, fields: seq<Field>, o: nat) returns (off: nat)
    requires fields != [] && IsAt(e, SerializeField(fields[0]), o)
    ensures IsAt(e, SerializeFields(fields), off)
  {
    off := o;
    if |fields| > 1 {
      AtSuffix(e, SerializeField(fields[0]), o, ",");
      AtSuffix(e, SerializeField(fields[0]) + ",", o, SerializeFields(fields[1..]));
    }
  }

  lemma AtLaterField(e: string, fields: seq<Field>, o: nat) returns (off: nat)
    requires |fields| > 1 && IsAt(e, SerializeFields(fields[1..]), o)
    ensures IsAt(e, SerializeFields(fields), off)
  {
    var p := SerializeField(fields[0]) + ",";
    AtPrefix(e, SerializeFields(fields[1..]), o, p);
    off := |p| + o;
  }

  lemma {:induction false} EmbeddedInField(u: string, f: Field) returns (off: nat)
    requires f.key == u || Occurs(u, f.value)
    ensures IsAt(Escape(u), SerializeField(f), off)
    decreases f, 0
  {
    var e := Escape(u);
    if f.key == u {
      off := 1;
      AtQuoted(e);
      AtSuffix(e, Quote(f.key), 1, ":");
      AtSuffix(e, Quote(f.key) + ":", 1, Serialize(f.value));
    } else {
      var o := Embedded(u, f.value);
      var p := Quote(f.key) + ":";
      AtPrefix(e, Serialize(f.value), o, p);
      off := |p| + o;
    }
  }
}
