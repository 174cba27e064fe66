/** UTF-8 validity: the grammar of section 4 of RFC 3629, tied to the bit layout of its section 3. */
module Utf8 {
  import opened Bytes

  predicate Tail(b: Byte) {
    0x80 <= b <= 0xBF
  }

  predicate Lead3(a: Byte, b: Byte) {
    || (a == 0xE0 && 0xA0 <= b <= 0xBF)
    || (0xE1 <= a <= 0xEC && Tail(b))
    || (a == 0xED && 0x80 <= b <= 0x9F)
    || (0xEE <= a <= 0xEF && Tail(b))
  }

  predicate Lead4(a: Byte, b: Byte) {
    || (a == 0xF0 && 0x90 <= b <= 0xBF)
    || (0xF1 <= a <= 0xF3 && Tail(b))
    || (a == 0xF4 && 0x80 <= b <= 0x8F)
  }

  /** The length of the UTF-8 character at the front of `s`, or 0 when there is none. */
  function FirstChar(s: seq<Byte>): (n: nat)
    ensures n <= 4 && n <= |s|
  {
    if s == [] then 0
    else if s[0] <= 0x7F then 1
    else if |s| >= 2 && 0xC2 <= s[0] <= 0xDF && Tail(s[1]) then 2
    else if |s| >= 3 && Lead3(s[0], s[1]) && Tail(s[2]) then 3
    else if |s| >= 4 && Lead4(s[0], s[1]) && Tail(s[2]) && Tail(s[3]) then 4
    else 0
  }

  predicate Valid(s: seq<Byte>) {
    s == [] || (FirstChar(s) > 0 && Valid(s[FirstChar(s)..]))
  }

  predicate IsScalar(c: int) {
    0 <= c <= 0xD7FF || 0xE000 <= c <= 0x10FFFF
  }

  /** Unicode scalar values: the code points other than the surrogates. */
  type Scalar = c: int | IsScalar(c)

  function EncodeChar(c: Scalar): seq<Byte> {
    assert IsScalar(c);
    var c1, c2 := c / 0x40, c / 0x40 / 0x40;
    if c <= 0x7F then [c]
    else if c <= 0x7FF then [0xC0 + c1, 0x80 + c % 0x40]
    else if c <= 0xFFFF then [0xE0 + c2, 0x80 + c1 % 0x40, 0x80 + c % 0x40]
    else [0xF0 + c2 / 0x40, 0x80 + c2 % 0x40, 0x80 + c1 % 0x40, 0x80 + c % 0x40]
  }

  function EncodeText(cs: seq<Scalar>): seq<Byte> {
    if cs == [] then [] else EncodeChar(cs[0]) + EncodeText(cs[1..])
  }

  lemma CharAccepted(c: Scalar, t: seq<Byte>)
    ensures FirstChar(EncodeChar(c) + t) == |EncodeChar(c)|
  {
    assert IsScalar(c);
  }

  /** Appends the six payload bits of a continuation byte to the bits before it. */
  function Shift(high: int, b: Byte): (c: int)
    requires Tail(b)
    ensures c / 0x40 == high && c % 0x40 == b - 0x80
  {
    high * 0x40 + (b - 0x80)
  }

  /** The scalar value that the first character of `s` encodes. */
  function DecodeChar(s: seq<Byte>): (c: int)
    requires FirstChar(s) > 0
  {
    var n := FirstChar(s);
    if n == 1 then s[0]
    else if n == 2 then Shift(s[0] - 0xC0, s[1])
    else if n == 3 then Shift(Shift(s[0] - 0xE0, s[1]), s[2])
    else Shift(Shift(Shift(s[0] - 0xF0, s[1]), s[2]), s[3])
  }

  lemma CharDecoded2(s: seq<Byte>)
    requires FirstChar(s) == 2
    ensures IsScalar(DecodeChar(s)) && EncodeChar(DecodeChar(s)) == s[..2]
  {
  }

  lemma CharDecoded3(s: seq<Byte>)
    requires FirstChar(s) == 3
    ensures IsScalar(DecodeChar(s)) && EncodeChar(DecodeChar(s)) == s[..3]
  {
    var c1 := Shift(s[0] - 0xE0, s[1]);
    var c := Shift(c1, s[2]);
    assert c == DecodeChar(s) && 0x800 <= c <= 0xFFFF;
    assert IsScalar(c) by {
      assert s[0] == 0xED ==> c1 < 0x360;
      assert s[0] > 0xED ==> c1 >= 0x380;
      assert s[0] < 0xED ==> c1 < 0x340;
    }
  }

  lemma CharDecoded4(s: seq<Byte>)
    requires FirstChar(s) == 4
    ensures IsScalar(DecodeChar(s)) && EncodeChar(DecodeChar(s)) == s[..4]
  {
    var c2 := Shift(s[0] - 0xF0, s[1]);
    var c1 := Shift(c2, s[2]);
    var c := Shift(c1, s[3]);
    assert c == DecodeChar(s) && 0x1_0000 <= c <= 0x10FFFF;
  }

  lemma CharDecoded(s: seq<Byte>)
    requires FirstChar(s) > 0
    ensures IsScalar(DecodeChar(s))
    ensures EncodeChar(DecodeChar(s)) == s[..FirstChar(s)]
  {
    match FirstChar(s)
    case 1 =>
    case 2 => CharDecoded2(s);
    case 3 => CharDecoded3(s);
    case 4 => CharDecoded4(s);
  }

  lemma {:induction false} TextIsValid(cs: seq<Scalar>)
    ensures Valid(EncodeText(cs))
  {
    if cs != [] {
      CharAccepted(cs[0], EncodeText(cs[1..]));
      assert EncodeText(cs)[|EncodeChar(cs[0])|..] == EncodeText(cs[1..]);
      TextIsValid(cs[1..]);
    }
  }

  lemma EncodeTextCons(c: Scalar, cs: seq<Scalar>)
    ensures EncodeText([c] + cs) == EncodeChar(c) + EncodeText(cs)
  {
    assert ([c] + cs)[1..] == cs;
  }

  lemma {:induction false} ValidIsText(s: seq<Byte>) returns (cs: seq<Scalar>)
    requires Valid(s)
    ensures EncodeText(cs) == s
  {
    if s == [] {
      cs := [];
    } else {
      var n := FirstChar(s);
      var tail := ValidIsText(s[n..]);
      CharDecoded(s);
      var c: Scalar := DecodeChar(s);
      cs := [c] + tail;
      EncodeTextCons(c, tail);
      assert s[..n] + s[n..] == s;
    }
  }

  /** The grammar accepts exactly the encodings of sequences of scalar values. */
  lemma ValidIffText(s: seq<Byte>)
    ensures Valid(s) <==> exists cs :: EncodeText(cs) == s
  {
    if Valid(s) {
      var cs := ValidIsText(s);
    }
    forall cs | EncodeText(cs) == s ensures Valid(s) {
      TextIsValid(cs);
    }
  }

  /** What never occurs in valid text: bytes that begin nothing, overlong forms, surrogates, and too much. */
  lemma {:induction false} NeverValid(s: seq<Byte>, i: nat)
    requires Valid(s) && i < |s|
    ensures s[i] != 0xC0 && s[i] != 0xC1 && s[i] < 0xF5
    ensures i + 1 < |s| && s[i] == 0xE0 ==> s[i + 1] >= 0xA0
    ensures i + 1 < |s| && s[i] == 0xED ==> s[i + 1] < 0xA0
    ensures i + 1 < |s| && s[i] == 0xF0 ==> s[i + 1] >= 0x90
    ensures i + 1 < |s| && s[i] == 0xF4 ==> s[i + 1] < 0x90
    decreases |s|
  {
    var n := FirstChar(s);
    if i >= n {
      NeverValid(s[n..], i - n);
    }
  }

  lemma FirstCharAppend(s: seq<Byte>, t: seq<Byte>)
    requires FirstChar(s) > 0
    ensures FirstChar(s + t) == FirstChar(s)
  {
    var u := s + t;
    assert u[0] == s[0] && (|s| >= 2 ==> u[1] == s[1]);
  }

  lemma {:induction false} ValidAppend(s: seq<Byte>, t: seq<Byte>)
    requires Valid(s) && Valid(t)
    ensures Valid(s + t)
  {
    if s == [] {
      assert s + t == t;
    } else {
      var n := FirstChar(s);
      FirstCharAppend(s, t);
      assert (s + t)[n..] == s[n..] + t;
      ValidAppend(s[n..], t);
    }
  }
}
