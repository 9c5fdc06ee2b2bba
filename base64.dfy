/** Base 64 encoding with the standard alphabet and `=` padding, as in
    section 4 of RFC 4648 (what Python's `base64.b64encode` produces). */
module Base64 {

  newtype byte = x: int | 0 <= x < 256

  /** The digit of the 64-character alphabet `A-Z a-z 0-9 + /` for a
      6-bit value. */
  function Digit(v: int): (c: char)
    requires 0 <= v < 64
    ensures IsDigit(c) && c != '='
  {
    if v < 26 then ('A' as int + v) as char
    else if v < 52 then ('a' as int + (v - 26)) as char
    else if v < 62 then ('0' as int + (v - 52)) as char
    else if v == 62 then '+'
    else '/'
  }

  predicate IsDigit(c: char) {
    ('A' <= c <= 'Z') || ('a' <= c <= 'z') || ('0' <= c <= '9') || c == '+' || c == '/'
  }

  /** Encoded text: every character a digit or the pad character. */
  predicate IsEncodedText(s: string) {
    forall i :: 0 <= i < |s| ==> IsDigit(s[i]) || s[i] == '='
  }

  /** `base64.b64encode(b).decode("utf-8")`: each group of three bytes becomes
      four digits; a final group of one or two bytes is padded with `==` or
      `=`. */
  function Encode(b: seq<byte>): seq<char> {
    if |b| == 0 then []
    else if |b| == 1 then
      [Digit(Sextet0(b[0])), Digit(Sextet1(b[0], 0)), '=', '=']
    else if |b| == 2 then
      [Digit(Sextet0(b[0])), Digit(Sextet1(b[0], b[1])), Digit(Sextet2(b[1], 0)), '=']
    else
      [Digit(Sextet0(b[0])), Digit(Sextet1(b[0], b[1])), Digit(Sextet2(b[1], b[2])), Digit(Sextet3(b[2]))]
      + Encode(b[3..])
  }

  /** Four characters for every three bytes or part of three, each a digit
      or the pad character. */
  lemma {:induction false} EncodeSpec(b: seq<byte>)
    ensures |Encode(b)| == 4 * ((|b| + 2) / 3)
    ensures IsEncodedText(Encode(b))
  {
    if |b| >= 3 {
      EncodeSpec(b[3..]);
      var head := [Digit(Sextet0(b[0])), Digit(Sextet1(b[0], b[1])),
                   Digit(Sextet2(b[1], b[2])), Digit(Sextet3(b[2]))];
      assert Encode(b) == head + Encode(b[3..]);
      forall i | 0 <= i < |Encode(b)|
        ensures IsDigit(Encode(b)[i]) || Encode(b)[i] == '='
      {
        if i >= 4 { assert Encode(b)[i] == Encode(b[3..])[i - 4]; }
      }
    }
  }

  /** The 6-bit digit values of a group, from its bytes (zero bits stand in
      for the bytes a short final group lacks). */
  function Sextet0(x: byte): (v: int) ensures 0 <= v < 64 { x as int / 4 }
  function Sextet1(x: byte, y: byte): (v: int) ensures 0 <= v < 64 { x as int % 4 * 16 + y as int / 16 }
  function Sextet2(y: byte, z: byte): (v: int) ensures 0 <= v < 64 { y as int % 16 * 4 + z as int / 64 }
  function Sextet3(z: byte): (v: int) ensures 0 <= v < 64 { z as int % 64 }
}
