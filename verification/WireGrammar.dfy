/**
 * The grammar of the wire format, spelled out over bytes: which bytes are read as which value, and
 * when a group is refused. It names none of the reading functions for varints and fixed-width
 * numbers; the contents of a group are the records that its bytes split into.
 */
module WireGrammar {
  import opened Bytes
  import opened Wire
  import opened MessageFold
  import opened Varint
  import opened WireTheory

  // ---------------------------------------------------------------- reading stops where the value does

  lemma TagSplit(s: seq<Byte>) returns (v: seq<Byte>)
    requires ReadTag(s).Got?
    ensures Terminated(v) && |v| <= 5 && s == v + ReadTag(s).rest
    ensures ReadTag(s).value == Groups(v) % 0x1_0000_0000
    ensures forall t :: ReadTag(v + t) == Got(ReadTag(s).value, t)
  {
    v := DecodeSpells(s, MAX_TAG_BYTES);
    forall t ensures ReadTag(v + t) == Got(ReadTag(s).value, t) {
      DecodeSpelled(v, MAX_TAG_BYTES, t);
    }
  }

  /** The bytes of the record in front, which read alone give the same record. */
  lemma {:induction false} ItemTake(s: seq<Byte>) returns (r: seq<Byte>)
    requires ReadItem(s).Record?
    ensures s == r + ReadItem(s).rest && ReadItem(r) == Record(ReadItem(s).field, [])
    decreases |s|, 0
  {
    var t := ReadTag(s);
    var v := TagSplit(s);
    var body := ValueTake(t.value, t.rest);
    r := v + body;
    Assoc(v, body, ReadItem(s).rest);
  }

  lemma LenTake(s: seq<Byte>) returns (body: seq<Byte>)
    requires ReadLen(s).Got?
    ensures s == body + ReadLen(s).rest && ReadLen(body) == Got(ReadLen(s).value, [])
  {
    var v := DecodeSpells(s, MAX_TAG_BYTES);
    var data := ReadLen(s).value.data;
    body := v + data;
    DecodeSpelled(v, MAX_TAG_BYTES, data);
    assert data[..|data|] == data;
    Assoc(v, data, ReadLen(s).rest);
  }

  lemma {:induction false} ValueTake(tag: UInt32, s: seq<Byte>) returns (body: seq<Byte>)
    requires ReadValue(tag, s).Got?
    ensures s == body + ReadValue(tag, s).rest && ReadValue(tag, body) == Got(ReadValue(tag, s).value, [])
    decreases |s|, 2
  {
    var r := ReadValue(tag, s);
    match tag % 8
    case 0 =>
      body := DecodeSpells(s, MAX_VARINT_BYTES);
      DecodeSpelled(body, MAX_VARINT_BYTES, []);
      assert body + [] == body;
    case 1 =>
      body := s[..8];
      assert body[..8] == body;
    case 2 => body := LenTake(s);
    case 3 => body := GroupTake(tag / 8, s);
    case 5 =>
      body := s[..4];
      assert body[..4] == body;
  }

  lemma {:induction false} GroupTake(number: nat, s: seq<Byte>) returns (body: seq<Byte>)
    requires ReadGroup(number, s).Got?
    ensures s == body + ReadGroup(number, s).rest
    ensures ReadGroup(number, body) == Got(ReadGroup(number, s).value, [])
    decreases |s|, 1
  {
    if ReadItem(s).Stop? {
      body := TagSplit(s);
      assert body + [] == body;
    } else {
      var rest := ReadItem(s).rest;
      var r := ItemTake(s);
      var more := GroupTake(number, rest);
      body := r + more;
      ItemAppend(r, more);
      assert [] + more == more;
      Assoc(r, more, ReadGroup(number, s).rest);
    }
  }

  // ---------------------------------------------------------------- groups

  /** A group is read when its records are followed by the end-group tag with its own number. */
  lemma {:induction false} GroupJoin(number: nat, a: seq<Byte>, b: seq<Byte>, rest: seq<Byte>)
    requires Tokenize(a).ending.Clean? && b != []
    requires number * 8 + 4 < 0x1_0000_0000 && ReadTag(b) == Got(number * 8 + 4, rest)
    ensures ReadGroup(number, a + b) == Got(Tokenize(a).fields, rest)
    decreases |a|
  {
    if a == [] {
      assert a + b == b;
    } else {
      ItemAppend(a, b);
      GroupJoin(number, ReadItem(a).rest, b, rest);
    }
  }

  lemma {:induction false} GroupSplit(number: nat, s: seq<Byte>) returns (a: seq<Byte>, b: seq<Byte>)
    requires ReadGroup(number, s).Got?
    ensures s == a + b && Tokenize(a) == Tokens(ReadGroup(number, s).value, Clean)
    ensures number * 8 + 4 < 0x1_0000_0000 && ReadTag(b) == Got(number * 8 + 4, ReadGroup(number, s).rest)
    decreases |s|
  {
    if ReadItem(s).Stop? {
      a, b := [], s;
    } else {
      var r := ItemTake(s);
      var a';
      a', b := GroupSplit(number, ReadItem(s).rest);
      a := r + a';
      ItemAppend(r, a');
      assert [] + a' == a';
      Assoc(r, a', b);
    }
  }

  /** Does `s` consist of the records `fs`, the end-group tag of this number, and then `rest`? */
  ghost predicate IsGroup(number: nat, s: seq<Byte>, fs: seq<Field>, rest: seq<Byte>) {
    exists a, b ::
      && s == a + b && Tokenize(a) == Tokens(fs, Clean)
      && number * 8 + 4 < 0x1_0000_0000 && ReadTag(b) == Got(number * 8 + 4, rest)
  }

  /** That is exactly when a group is read. */
  lemma GroupIff(number: nat, s: seq<Byte>, fs: seq<Field>, rest: seq<Byte>)
    ensures ReadGroup(number, s) == Got(fs, rest) <==> IsGroup(number, s, fs, rest)
  {
    if ReadGroup(number, s) == Got(fs, rest) {
      var a, b := GroupSplit(number, s);
    }
    if IsGroup(number, s, fs, rest) {
      var a, b :| s == a + b && Tokenize(a) == Tokens(fs, Clean) && ReadTag(b) == Got(number * 8 + 4, rest);
      GroupJoin(number, a, b, rest);
    }
  }

  /** A group whose first stop is another tag is refused: tag 0, or the end tag of another number. */
  lemma {:induction false} GroupRefused(number: nat, a: seq<Byte>, b: seq<Byte>)
    requires Tokenize(a).ending.Clean? && ReadTag(b).Got?
    requires var t := ReadTag(b).value; (t == 0 || t % 8 == 4) && t != number * 8 + 4
    ensures ReadGroup(number, a + b).Fail?
    decreases |a|
  {
    if a == [] {
      assert a + b == b;
    } else {
      ItemAppend(a, b);
      GroupRefused(number, ReadItem(a).rest, b);
    }
  }

  /** So is one that the input ends in. */
  lemma {:induction false} GroupCutOff(number: nat, a: seq<Byte>)
    requires Tokenize(a).ending.Clean?
    ensures ReadGroup(number, a).Fail?
    decreases |a|
  {
    if a != [] {
      GroupCutOff(number, ReadItem(a).rest);
    }
  }

  /** The records are followed by a stop that is not this group's end tag, or by the end of the input. */
  predicate Unclosed(number: nat, b: seq<Byte>) {
    b == [] || (ReadTag(b).Got? && var t := ReadTag(b).value; (t == 0 || t % 8 == 4) && t != number * 8 + 4)
  }

  lemma UnclosedValue(number: nat, tag: UInt32, s: seq<Byte>, a: seq<Byte>, b: seq<Byte>)
    requires tag == number * 8 + 3 && number > 0 && s == a + b
    requires Tokenize(a).ending.Clean? && Unclosed(number, b)
    ensures !IsStop(tag) && ReadValue(tag, s).Fail?
  {
    assert tag / 8 == number && tag % 8 == 3;
    if b == [] {
      assert a + b == a;
      GroupCutOff(number, a);
    } else {
      GroupRefused(number, a, b);
    }
  }

  /** Such a group makes the parse of any message fail, with what was parsed before it. */
  lemma ForeignEndFails<M>(apply: (M, Field) -> Applied<M>, m: M, number: nat, a: seq<Byte>, b: seq<Byte>)
    requires 1 <= number <= MAX_FIELD_NUMBER && Tokenize(a).ending.Clean? && Unclosed(number, b)
    ensures ParseWith(apply, m, Encode(number * 8 + 3) + (a + b)) == Failed(m, Some(number * 8 + 3))
  {
    var tag: UInt32, s := number * 8 + 3, a + b;
    TagRoundTrip(tag, s);
    UnclosedValue(number, tag, s, a, b);
    ParseRecord(apply, m, Encode(tag) + s, tag, s);
  }

  // ---------------------------------------------------------------- values

  ghost predicate SpellsLength(size: seq<Byte>, data: seq<Byte>, body: seq<Byte>) {
    Terminated(size) && |size| <= 5 && Groups(size) == |data| && body == size + data
  }

  /** Do these bytes, behind this tag, spell that value? */
  ghost predicate Spells(tag: UInt32, body: seq<Byte>, v: Value) {
    match v
    case VarintValue(n) =>
      tag % 8 == 0 && Terminated(body) && |body| <= 10 && n == Groups(body) % 0x1_0000_0000_0000_0000
    case Fixed64(n) => tag % 8 == 1 && |body| == 8 && n == BytesValue(body)
    case Len(data) => tag % 8 == 2 && |data| <= 0x7FFF_FFEF && exists size :: SpellsLength(size, data, body)
    case Group(fs) => tag % 8 == 3 && IsGroup(tag / 8, body, fs, [])
    case Fixed32(n) => tag % 8 == 5 && |body| == 4 && n == BytesValue(body)
  }

  lemma ReadsSpelled(tag: UInt32, body: seq<Byte>, v: Value, rest: seq<Byte>)
    requires tag / 8 > 0 && Spells(tag, body, v)
    ensures ReadValue(tag, body + rest) == Got(v, rest)
  {
    match v
    case VarintValue(n) => DecodeSpelled(body, MAX_VARINT_BYTES, rest);
    case Fixed64(n) =>
      Halves(body, rest);
      FromLittleEndian64Means(body);
    case Len(data) =>
      var size :| SpellsLength(size, data, body);
      Assoc(size, data, rest);
      DecodeSpelled(size, MAX_TAG_BYTES, data + rest);
      Halves(data, rest);
    case Group(fs) =>
      GroupIff(tag / 8, body, fs, []);
      GroupAppend(tag / 8, body, rest);
      assert [] + rest == rest;
    case Fixed32(n) =>
      Halves(body, rest);
      FromLittleEndian32Means(body);
  }

  lemma SpelledByRead(tag: UInt32, s: seq<Byte>) returns (body: seq<Byte>)
    requires ReadValue(tag, s).Got?
    ensures s == body + ReadValue(tag, s).rest && Spells(tag, body, ReadValue(tag, s).value)
  {
    body := ValueTake(tag, s);
    match tag % 8
    case 0 =>
      var v := DecodeSpells(body, MAX_VARINT_BYTES);
      assert v + [] == v;
    case 1 =>
      assert body[..8] == body;
      FromLittleEndian64Means(body);
    case 2 =>
      var size := DecodeSpells(body, MAX_TAG_BYTES);
      var data := ReadLen(body).value.data;
      assert body == size + data;
      assert SpellsLength(size, data, body);
    case 3 => GroupIff(tag / 8, body, ReadGroup(tag / 8, body).value, []);
    case 5 =>
      assert body[..4] == body;
      FromLittleEndian32Means(body);
  }

  /** Behind a tag, a value is read exactly when some bytes in front spell it and the number is not 0. */
  lemma ValueIff(tag: UInt32, s: seq<Byte>, v: Value, rest: seq<Byte>)
    ensures ReadValue(tag, s) == Got(v, rest) <==>
            tag / 8 > 0 && exists body :: s == body + rest && Spells(tag, body, v)
  {
    if ReadValue(tag, s) == Got(v, rest) {
      var body := SpelledByRead(tag, s);
    }
    forall body | tag / 8 > 0 && s == body + rest && Spells(tag, body, v) ensures ReadValue(tag, s) == Got(v, rest) {
      ReadsSpelled(tag, body, v, rest);
    }
  }

  /** A tag is read exactly from the varint of at most five bytes in front, of which 32 bits are kept. */
  lemma TagIff(s: seq<Byte>, tag: UInt32, rest: seq<Byte>)
    ensures ReadTag(s) == Got(tag, rest) <==>
            exists v :: Terminated(v) && |v| <= 5 && s == v + rest && tag == Groups(v) % 0x1_0000_0000
  {
    if ReadTag(s) == Got(tag, rest) {
      var v := TagSplit(s);
    }
    forall v | Terminated(v) && |v| <= 5 && s == v + rest && tag == Groups(v) % 0x1_0000_0000
      ensures ReadTag(s) == Got(tag, rest)
    {
      DecodeSpelled(v, MAX_TAG_BYTES, rest);
    }
  }
}
