/** UTF-8 (section 3.9 of the Unicode Standard, RFC 3629): the byte sequence of
    one Unicode scalar value, as encodeURIComponent produces it, and the reader
    that decodeURIComponent applies to the bytes of its escapes. */
module Utf8 {
  import opened Opt

  type Byte = b: int | 0 <= b < 256

  predicate IsContinuation(b: Byte) {
    0x80 <= b < 0xC0
  }

  /** The UTF-8 encoding of `c`, one to four bytes, shortest form. */
  function Encode(c: char): (bs: seq<Byte>)
    ensures 1 <= |bs| <= 4
    ensures |bs| == SequenceLength(bs[0])
    ensures forall k | 1 <= k < |bs| :: IsContinuation(bs[k])
  {
    var cp := c as int;
    var q1, r0 := cp / 64, cp % 64;
    var q2, r1 := q1 / 64, q1 % 64;
    var q3, r2 := q2 / 64, q2 % 64;
    if cp < 0x80 then [cp]
    else if cp < 0x800 then [0xC0 + q1, 0x80 + r0]
    else if cp < 0x1_0000 then [0xE0 + q2, 0x80 + r1, 0x80 + r0]
    else [0xF0 + q3, 0x80 + r2, 0x80 + r1, 0x80 + r0]
  }

  /** The number of bytes a sequence with lead byte `b` has, counted as the
      leading one bits of `b` (section 18.2.6.1.2 of ECMA-262, 6th edition); 0 when `b`
      cannot start a sequence (a continuation byte, or five or more ones). */
  function SequenceLength(b: Byte): (n: nat)
    ensures n <= 4
  {
    if b < 0x80 then 1
    else if b < 0xC0 then 0
    else if b < 0xE0 then 2
    else if b < 0xF0 then 3
    else if b < 0xF8 then 4
    else 0
  }

  /** The scalar value `bs` encodes, or None when `bs` is not one well-formed
      UTF-8 sequence: a bad lead or continuation byte, a wrong length, an
      overlong form, a surrogate, or a value above U+10FFFF. */
  function Decode(bs: seq<Byte>): (r: Option<char>)
  {
    if |bs| == 0 || |bs| != SequenceLength(bs[0]) then None
    else if exists k | 1 <= k < |bs| :: !IsContinuation(bs[k]) then None
    else if |bs| == 1 then Some(bs[0] as char)
    else if |bs| == 2 then
      var v := (bs[0] as int - 0xC0) * 64 + (bs[1] as int - 0x80);
      if v < 0x80 then None else Some(v as char)
    else if |bs| == 3 then
      var v := ((bs[0] as int - 0xE0) * 64 + (bs[1] as int - 0x80)) * 64 + (bs[2] as int - 0x80);
      if v < 0x800 || 0xD800 <= v < 0xE000 then None else Some(v as char)
    else
      var v := (((bs[0] as int - 0xF0) * 64 + (bs[1] as int - 0x80)) * 64 + (bs[2] as int - 0x80)) * 64 + (bs[3] as int - 0x80);
      if v < 0x1_0000 || v >= 0x11_0000 then None else Some(v as char)
  }

  /** Decoding the encoding of a scalar value gives it back. */
  lemma DecodeEncode(c: char)
    ensures Decode(Encode(c)) == Some(c)
  {
    var cp := c as int;
    var q1, r0 := cp / 64, cp % 64;
    var q2, r1 := q1 / 64, q1 % 64;
    var q3, r2 := q2 / 64, q2 % 64;
    assert cp == q1 * 64 + r0;
    assert q1 == q2 * 64 + r1;
    assert q2 == q3 * 64 + r2;
  }

  /** The decoder accepts only shortest-form encodings: whatever it accepts is
      exactly the encoding of the value it returns. */
  lemma EncodeDecode(bs: seq<Byte>)
    requires Decode(bs).Some?
    ensures Encode(Decode(bs).value) == bs
  {
    var c := Decode(bs).value;
    var cp := c as int;
    if |bs| == 2 {
      assert cp == (bs[0] as int - 0xC0) * 64 + (bs[1] as int - 0x80);
    } else if |bs| == 3 {
      var a: int := (bs[0] as int - 0xE0) * 64 + (bs[1] as int - 0x80);
      assert cp == a * 64 + (bs[2] as int - 0x80);
      assert cp / 64 == a;
    } else if |bs| == 4 {
      var a: int := (bs[0] as int - 0xF0) * 64 + (bs[1] as int - 0x80);
      var b: int := a * 64 + (bs[2] as int - 0x80);
      assert cp == b * 64 + (bs[3] as int - 0x80);
      assert cp / 64 == b;
      assert b / 64 == a;
    }
  }
}
