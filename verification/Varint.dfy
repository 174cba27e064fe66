/** Base 128 varints (Protocol Buffers Encoding, section "Base 128 Varints"). */
module Varint {
  import opened Bytes

  /** The shortest encoding: seven bits a byte, least significant group first. */
  function Encode(n: nat): (s: seq<Byte>)
    ensures s != []
  {
    if n < 0x80 then [n] else [0x80 + n % 0x80] + Encode(n / 0x80)
  }

  /**
   * Reads a varint of at most `max` bytes. It fails when the input ends, or `max` bytes have
   * passed, before a byte without the continuation bit.
   */
  function Decode(s: seq<Byte>, max: nat): (r: Read<nat>)
    ensures r.Got? ==> |r.rest| < |s|
  {
    if max == 0 || s == [] then Fail
    else if s[0] < 0x80 then Got(s[0], s[1..])
    else
      match Decode(s[1..], max - 1)
      case Fail => Fail
      case Got(high, rest) => Got(s[0] - 0x80 + 0x80 * high, rest)
  }

  // ---------------------------------------------------------------- what the bytes mean

  /** Bytes that form a varint: the continuation bit is set in all of them but the last. */
  predicate Terminated(v: seq<Byte>) {
    && v != []
    && v[|v| - 1] < 0x80
    && forall i | 0 <= i < |v| - 1 :: v[i] >= 0x80
  }

  /** The number that the low seven bits of each byte make up, those of byte `i` counting 128^i. */
  function Groups(v: seq<Byte>): nat {
    if v == [] then 0
    else Groups(v[..|v| - 1]) + v[|v| - 1] % 0x80 * Power(0x80, |v| - 1)
  }

  lemma {:induction false} GroupsCons(b: Byte, v: seq<Byte>)
    ensures Groups([b] + v) == b % 0x80 + 0x80 * Groups(v)
    decreases |v|
  {
    if v == [] {
      assert [b] + v == [b] && [b][..0] == [];
      assert Power(0x80, 0) == 1;
    } else {
      var n := |v| - 1;
      var w, x := v[..n], v[n] % 0x80;
      assert ([b] + v)[..|v|] == [b] + w;
      GroupsCons(b, w);
      assert x * (0x80 * Power(0x80, n)) == 0x80 * (x * Power(0x80, n));
    }
  }

  /** Whatever the spelling, shortest or not, reading it gives its number and the bytes behind it. */
  lemma {:induction false} DecodeSpelled(v: seq<Byte>, max: nat, rest: seq<Byte>)
    requires Terminated(v) && |v| <= max
    ensures Decode(v + rest, max) == Got(Groups(v), rest)
    decreases |v|
  {
    assert v == [v[0]] + v[1..] && (v + rest)[1..] == v[1..] + rest;
    GroupsCons(v[0], v[1..]);
    if |v| > 1 {
      DecodeSpelled(v[1..], max - 1, rest);
    }
  }

  lemma {:induction false} DecodeSpells(s: seq<Byte>, max: nat) returns (v: seq<Byte>)
    requires Decode(s, max).Got?
    ensures Terminated(v) && |v| <= max
    ensures s == v + Decode(s, max).rest && Decode(s, max).value == Groups(v)
    decreases |s|
  {
    if s[0] < 0x80 {
      v := [s[0]];
      GroupsCons(s[0], []);
      assert [s[0]] + [] == [s[0]];
    } else {
      var w := DecodeSpells(s[1..], max - 1);
      v := [s[0]] + w;
      GroupsCons(s[0], w);
    }
  }

  /** What is read from any bytes is the spelling at their front, of at most `max` bytes, and its number. */
  lemma DecodeIff(s: seq<Byte>, max: nat, n: nat, rest: seq<Byte>)
    ensures Decode(s, max) == Got(n, rest) <==>
            exists v :: Terminated(v) && |v| <= max && s == v + rest && n == Groups(v)
  {
    if Decode(s, max) == Got(n, rest) {
      var v := DecodeSpells(s, max);
    }
    forall v | Terminated(v) && |v| <= max && s == v + rest && n == Groups(v) ensures Decode(s, max) == Got(n, rest) {
      DecodeSpelled(v, max, rest);
    }
  }

  /** Reading fails exactly when all of the first `max` bytes that are there have the continuation bit. */
  lemma {:induction false} DecodeFailsIff(s: seq<Byte>, max: nat)
    ensures Decode(s, max).Fail? <==> forall i | 0 <= i < |s| && i < max :: s[i] >= 0x80
    decreases |s|
  {
    if max > 0 && s != [] && s[0] >= 0x80 {
      DecodeFailsIff(s[1..], max - 1);
      assert forall i | 0 < i < |s| :: s[i] == s[1..][i - 1];
    }
  }

  lemma TerminatedCons(b: Byte, v: seq<Byte>)
    requires b >= 0x80 && Terminated(v)
    ensures Terminated([b] + v) && ([b] + v)[|v|] == v[|v| - 1]
  {
  }

  lemma {:induction false} EncodeTerminated(n: nat)
    ensures Terminated(Encode(n))
    ensures |Encode(n)| > 1 ==> Encode(n)[|Encode(n)| - 1] > 0
  {
    if n >= 0x80 {
      EncodeTerminated(n / 0x80);
      TerminatedCons(0x80 + n % 0x80, Encode(n / 0x80));
    }
  }

  lemma {:induction false} EncodeValue(n: nat)
    ensures Groups(Encode(n)) == n
  {
    if n < 0x80 {
      GroupsCons(n, []);
      assert [n] + [] == [n];
    } else {
      var b: Byte, v := 0x80 + n % 0x80, Encode(n / 0x80);
      EncodeValue(n / 0x80);
      GroupsCons(b, v);
      assert Encode(n) == [b] + v;
      assert b % 0x80 + 0x80 * (n / 0x80) == n;
    }
  }

  /** What is written is a spelling of the number, and the shortest: its last group is not zero. */
  lemma EncodeSpells(n: nat)
    ensures Terminated(Encode(n)) && Groups(Encode(n)) == n
    ensures |Encode(n)| > 1 ==> Encode(n)[|Encode(n)| - 1] > 0
  {
    EncodeTerminated(n);
    EncodeValue(n);
  }

  lemma TimesMonotonic(a: nat, b: nat, d: nat)
    requires a <= b
    ensures a * d <= b * d
  {
    assert b * d == a * d + (b - a) * d;
  }

  lemma QuotientIs(n: nat, d: nat, q: nat, r: nat)
    requires n == q * d + r && r < d
    ensures n / d == q
  {
    var k := n / d;
    assert n == k * d + n % d;
    assert (k + 1) * d == k * d + d && (q + 1) * d == q * d + d;
    if k < q {
      TimesMonotonic(k + 1, q, d);
    } else if q < k {
      TimesMonotonic(q + 1, k, d);
    }
  }

  lemma DivideAgain(n: nat, p: nat)
    requires p > 0
    ensures n / 0x80 / p == n / (0x80 * p)
  {
    var q, r := n / 0x80 / p, n / 0x80 % p;
    assert n / 0x80 == q * p + r;
    assert 0x80 * (q * p) == q * (0x80 * p);
    QuotientIs(n, 0x80 * p, q, 0x80 * r + n % 0x80);
  }

  /** Byte `i` holds the bits 7i to 7i + 6 of the number, and whether another byte follows. */
  lemma {:induction false} EncodeGroup(n: nat, i: nat)
    requires i < |Encode(n)|
    ensures Encode(n)[i] % 0x80 == n / Power(0x80, i) % 0x80
    ensures Encode(n)[i] >= 0x80 <==> i + 1 < |Encode(n)|
    decreases i
  {
    if i == 0 {
      assert Power(0x80, 0) == 1;
    } else {
      EncodeGroup(n / 0x80, i - 1);
      DivideAgain(n, Power(0x80, i - 1));
    }
  }

  lemma RoundTrip(n: nat, max: nat, rest: seq<Byte>)
    requires |Encode(n)| <= max
    ensures Decode(Encode(n) + rest, max) == Got(n, rest)
  {
    EncodeSpells(n);
    DecodeSpelled(Encode(n), max, rest);
  }

  /** What was read does not depend on the bytes behind it. */
  lemma {:induction false} DecodeAppend(s: seq<Byte>, max: nat, t: seq<Byte>)
    requires Decode(s, max).Got?
    ensures Decode(s + t, max) == Got(Decode(s, max).value, Decode(s, max).rest + t)
  {
    assert (s + t)[1..] == s[1..] + t;
    if s[0] >= 0x80 {
      DecodeAppend(s[1..], max - 1, t);
    }
  }

  /** No encoding is a proper prefix of another. */
  lemma PrefixFree(m: nat, n: nat, tail: seq<Byte>)
    requires Encode(n) == Encode(m) + tail
    ensures m == n && tail == []
  {
    var max := |Encode(n)|;
    RoundTrip(m, max, tail);
    RoundTrip(n, max, []);
    assert Encode(n) + [] == Encode(n);
  }

  /** The size calculator: a chain of thresholds, one for each further group of seven bits. */
  function Size(n: UInt64): nat {
    if n < 0x80 then 1
    else if n < 0x4000 then 2
    else if n < 0x20_0000 then 3
    else if n < 0x1000_0000 then 4
    else if n < 0x8_0000_0000 then 5
    else if n < 0x400_0000_0000 then 6
    else if n < 0x2_0000_0000_0000 then 7
    else if n < 0x100_0000_0000_0000 then 8
    else if n < 0x8000_0000_0000_0000 then 9
    else 10
  }

  lemma {:induction false} SizeIsLength(n: UInt64)
    ensures |Encode(n)| == Size(n) <= 10
    decreases n
  {
    if n >= 0x80 {
      SizeIsLength(n / 0x80);
    }
  }

  /** An `int32` takes one to five bytes when it is not negative and ten when it is. */
  lemma Int32Size(v: Int32)
    ensures v >= 0 ==> 1 <= |Encode(SignExtend(v))| <= 5
    ensures v < 0 ==> |Encode(SignExtend(v))| == 10
  {
    SizeIsLength(SignExtend(v));
  }

  /** Writing any `int32` and reading it back gives that `int32` and the bytes behind it. */
  lemma Int32RoundTrip(v: Int32, rest: seq<Byte>)
    ensures var r := Decode(Encode(SignExtend(v)) + rest, 10);
            r.Got? && ToInt32(r.value) == v && r.rest == rest
  {
    SizeIsLength(SignExtend(v));
    RoundTrip(SignExtend(v), 10, rest);
    SignExtendRoundTrip(v);
  }
}
