/** What reading and writing records have to do with each other. */
module WireTheory {
  import opened Bytes
  import opened Wire
  import Varint

  // ---------------------------------------------------------------- reading back what was written

  lemma TagOfVarint(s: seq<Byte>, tag: UInt32, rest: seq<Byte>)
    requires Varint.Decode(s, MAX_TAG_BYTES) == Got(tag, rest)
    ensures ReadTag(s) == Got(tag, rest)
  {
  }

  lemma ShortVarint(n: UInt32)
    ensures |Varint.Encode(n)| <= MAX_TAG_BYTES
  {
    Varint.SizeIsLength(n);
  }

  lemma TagRoundTrip(tag: UInt32, rest: seq<Byte>)
    ensures ReadTag(Varint.Encode(tag) + rest) == Got(tag, rest)
  {
    ShortVarint(tag);
    Varint.RoundTrip(tag, MAX_TAG_BYTES, rest);
    TagOfVarint(Varint.Encode(tag) + rest, tag, rest);
  }

  lemma ShortTag(tag: Byte, rest: seq<Byte>)
    requires tag < 0x80
    ensures ReadTag([tag] + rest) == Got(tag, rest)
  {
    TagRoundTrip(tag, rest);
  }

  lemma VarintSpelled(v: seq<Byte>, rest: seq<Byte>)
    requires Varint.Terminated(v) && |v| <= 10
    ensures ReadVarint(v + rest) == Got(VarintValue(Varint.Groups(v) % 0x1_0000_0000_0000_0000), rest)
  {
    Varint.DecodeSpelled(v, MAX_VARINT_BYTES, rest);
  }

  /** A one-byte tag and a varint behind it, of which the low 32 bits are `p`. */
  lemma Int32Spelled(tag: Byte, v: seq<Byte>, p: Int32, rest: seq<Byte>) returns (r: seq<Byte>, x: UInt64)
    requires tag < 0x80 && Varint.Terminated(v) && |v| <= 10
    requires (p as int - Varint.Groups(v)) % 0x1_0000_0000 == 0
    ensures ReadTag([tag] + v + rest) == Got(tag, r)
    ensures ReadVarint(r) == Got(VarintValue(x), rest) && ToInt32(x) == p
  {
    r, x := v + rest, Varint.Groups(v) % 0x1_0000_0000_0000_0000;
    Assoc([tag], v, rest);
    ShortTag(tag, r);
    VarintSpelled(v, rest);
    Low32(Varint.Groups(v), p);
  }

  lemma TagParts(f: Field)
    requires WellFormed(f)
    ensures 0 < Tag(f) < 0x1_0000_0000 && !IsStop(Tag(f))
    ensures Tag(f) / 8 == f.number && Tag(f) % 8 == WireType(f.value)
  {
  }

  lemma {:induction false} ItemRoundTrip(f: Field, rest: seq<Byte>)
    requires WellFormed(f)
    ensures ReadItem(EncodeField(f) + rest) == Record(f, rest)
    decreases f, 0
  {
    TagParts(f);
    var behind := EncodeValue(f.number, f.value) + rest;
    Assoc(Varint.Encode(Tag(f)), EncodeValue(f.number, f.value), rest);
    TagRoundTrip(Tag(f), behind);
    ValueRoundTrip(f.number, f.value, rest);
  }

  lemma Fixed64RoundTrip(bits: UInt64, rest: seq<Byte>)
    ensures (LittleEndian64(bits) + rest)[8..] == rest
    ensures FromLittleEndian64((LittleEndian64(bits) + rest)[..8]) == bits
  {
    Halves(LittleEndian64(bits), rest);
    LittleEndian64RoundTrip(bits);
  }

  lemma Fixed32RoundTrip(bits: UInt32, rest: seq<Byte>)
    ensures ReadFixed32(LittleEndian32(bits) + rest) == Got(Fixed32(bits), rest)
  {
    Halves(LittleEndian32(bits), rest);
    LittleEndian32RoundTrip(bits);
  }

  lemma VarintRoundTrip(n: UInt64, rest: seq<Byte>)
    ensures ReadVarint(Varint.Encode(n) + rest) == Got(VarintValue(n), rest)
  {
    Varint.SizeIsLength(n);
    Varint.RoundTrip(n, MAX_VARINT_BYTES, rest);
  }

  lemma LenRoundTrip(data: seq<Byte>, rest: seq<Byte>)
    requires |data| <= MAX_SIZE
    ensures ReadLen(Varint.Encode(|data|) + data + rest) == Got(Len(data), rest)
  {
    Assoc(Varint.Encode(|data|), data, rest);
    ShortVarint(|data|);
    Varint.RoundTrip(|data|, MAX_TAG_BYTES, data + rest);
    Halves(data, rest);
  }

  lemma {:induction false} ValueRoundTrip(number: nat, v: Value, rest: seq<Byte>)
    requires WellFormed(Field(number, v))
    ensures ReadValue(number * 8 + WireType(v), EncodeValue(number, v) + rest) == Got(v, rest)
    decreases v, 1
  {
    TagParts(Field(number, v));
    match v
    case VarintValue(n) => VarintRoundTrip(n, rest);
    case Fixed64(bits) => Fixed64RoundTrip(bits, rest);
    case Len(data) => LenRoundTrip(data, rest);
    case Group(fields) =>
      var end := Varint.Encode(number * 8 + END_GROUP);
      Assoc(EncodeFields(fields), end, rest);
      GroupRoundTrip(number, fields, rest);
    case Fixed32(bits) => Fixed32RoundTrip(bits, rest);
  }

  lemma EncodeCons(fs: seq<Field>, rest: seq<Byte>)
    requires fs != []
    ensures EncodeFields(fs) + rest == EncodeField(fs[0]) + (EncodeFields(fs[1..]) + rest)
    ensures [fs[0]] + fs[1..] == fs
  {
    Assoc(EncodeField(fs[0]), EncodeFields(fs[1..]), rest);
  }

  lemma {:induction false} GroupRoundTrip(number: nat, fs: seq<Field>, rest: seq<Byte>)
    requires 1 <= number <= MAX_FIELD_NUMBER && AllWellFormed(fs)
    ensures ReadGroup(number, EncodeFields(fs) + (Varint.Encode(number * 8 + END_GROUP) + rest)) == Got(fs, rest)
    decreases fs, 1
  {
    var end := Varint.Encode(number * 8 + END_GROUP) + rest;
    if fs == [] {
      assert EncodeFields(fs) + end == end;
      TagRoundTrip(number * 8 + END_GROUP, rest);
    } else {
      EncodeCons(fs, end);
      ItemRoundTrip(fs[0], EncodeFields(fs[1..]) + end);
      GroupRoundTrip(number, fs[1..], rest);
    }
  }

  /** Records written one after the other are read back as those records, to a clean end. */
  lemma {:induction false} TokenizeRoundTrip(fs: seq<Field>)
    requires AllWellFormed(fs)
    ensures Tokenize(EncodeFields(fs)) == Tokens(fs, Clean)
  {
    if fs != [] {
      ItemRoundTrip(fs[0], EncodeFields(fs[1..]));
      TokenizeRoundTrip(fs[1..]);
    }
  }

  lemma {:induction false} EncodeFieldsAppend(fs: seq<Field>, gs: seq<Field>)
    ensures EncodeFields(fs + gs) == EncodeFields(fs) + EncodeFields(gs)
  {
    if fs == [] {
      assert fs + gs == gs;
    } else {
      assert (fs + gs)[1..] == fs[1..] + gs;
      EncodeFieldsAppend(fs[1..], gs);
    }
  }

  /** Different lists of records never have the same bytes. */
  lemma EncodeFieldsInjective(fs: seq<Field>, gs: seq<Field>)
    requires AllWellFormed(fs) && AllWellFormed(gs)
    requires EncodeFields(fs) == EncodeFields(gs)
    ensures fs == gs
  {
    TokenizeRoundTrip(fs);
    TokenizeRoundTrip(gs);
  }

  // ---------------------------------------------------------------- reading in front of more bytes

  lemma {:induction false} ItemAppend(s: seq<Byte>, t: seq<Byte>)
    requires ReadItem(s).Record? || ReadItem(s).Stop?
    ensures var r := ReadItem(s);
            ReadItem(s + t) == if r.Record? then Record(r.field, r.rest + t) else Stop(r.tag, r.rest + t)
    decreases |s|, 0
  {
    Varint.DecodeAppend(s, MAX_TAG_BYTES, t);
    var r := ReadTag(s);
    if !IsStop(r.value) {
      ValueAppend(r.value, r.rest, t);
    }
  }

  lemma SplitAppend(s: seq<Byte>, n: nat, t: seq<Byte>)
    requires n <= |s|
    ensures (s + t)[..n] == s[..n] && (s + t)[n..] == s[n..] + t
  {
  }

  lemma LenAppend(s: seq<Byte>, t: seq<Byte>)
    requires ReadLen(s).Got?
    ensures ReadLen(s + t) == Got(ReadLen(s).value, ReadLen(s).rest + t)
  {
    Varint.DecodeAppend(s, MAX_TAG_BYTES, t);
    var r := Varint.Decode(s, MAX_TAG_BYTES);
    SplitAppend(r.rest, r.value, t);
  }

  lemma {:induction false} ValueAppend(tag: UInt32, s: seq<Byte>, t: seq<Byte>)
    requires ReadValue(tag, s).Got?
    ensures ReadValue(tag, s + t) == Got(ReadValue(tag, s).value, ReadValue(tag, s).rest + t)
    decreases |s|, 2
  {
    match tag % 8
    case 0 => Varint.DecodeAppend(s, MAX_VARINT_BYTES, t);
    case 1 => SplitAppend(s, 8, t);
    case 2 => LenAppend(s, t);
    case 3 => GroupAppend(tag / 8, s, t);
    case 5 => SplitAppend(s, 4, t);
  }

  lemma {:induction false} GroupAppend(number: nat, s: seq<Byte>, t: seq<Byte>)
    requires ReadGroup(number, s).Got?
    ensures ReadGroup(number, s + t) == Got(ReadGroup(number, s).value, ReadGroup(number, s).rest + t)
    decreases |s|, 1
  {
    ItemAppend(s, t);
    if ReadItem(s).Record? {
      GroupAppend(number, ReadItem(s).rest, t);
    }
  }

  /** After input that ends cleanly, reading goes on with the bytes that follow it. */
  lemma {:induction false} TokenizeAppend(s: seq<Byte>, t: seq<Byte>)
    requires Tokenize(s).ending.Clean?
    ensures Tokenize(s + t) == Tokens(Tokenize(s).fields + Tokenize(t).fields, Tokenize(t).ending)
    decreases |s|
  {
    if s == [] {
      assert s + t == t;
    } else {
      ItemAppend(s, t);
      var r := ReadItem(s);
      var head, tail := Tokenize(r.rest), Tokenize(t);
      TokenizeAppend(r.rest, t);
      Assoc([r.field], head.fields, tail.fields);
    }
  }

  // ---------------------------------------------------------------- what can be read

  lemma {:induction false} ItemWellFormed(s: seq<Byte>)
    requires ReadItem(s).Record?
    ensures WellFormed(ReadItem(s).field)
    decreases |s|, 0
  {
    var r := ReadTag(s);
    ValueWellFormed(r.value, r.rest);
  }

  lemma {:induction false} ValueWellFormed(tag: UInt32, s: seq<Byte>)
    requires ReadValue(tag, s).Got?
    ensures WellFormed(Field(tag / 8, ReadValue(tag, s).value))
    ensures WireType(ReadValue(tag, s).value) == tag % 8
    decreases |s|, 2
  {
    if tag % 8 == 3 {
      GroupWellFormed(tag / 8, s);
    }
  }

  lemma {:induction false} GroupWellFormed(number: nat, s: seq<Byte>)
    requires ReadGroup(number, s).Got?
    ensures AllWellFormed(ReadGroup(number, s).value)
    decreases |s|, 1
  {
    if ReadItem(s).Record? {
      ItemWellFormed(s);
      GroupWellFormed(number, ReadItem(s).rest);
    }
  }

  /** Every record that can be read can be written: what reads produce is what writes demand. */
  lemma {:induction false} TokenizeWellFormed(s: seq<Byte>)
    ensures AllWellFormed(Tokenize(s).fields)
    decreases |s|
  {
    if ReadItem(s).Record? {
      ItemWellFormed(s);
      TokenizeWellFormed(ReadItem(s).rest);
    }
  }

  // ---------------------------------------------------------------- sizes

  function ValueSize(number: nat, v: Value): nat
    requires WellFormed(Field(number, v))
    decreases v, 1
  {
    match v
    case VarintValue(n) => Varint.Size(n)
    case Fixed64(_) => 8
    case Len(data) => Varint.Size(|data|) + |data|
    case Group(fields) => FieldsSize(fields) + Varint.Size(number * 8 + END_GROUP)
    case Fixed32(_) => 4
  }

  function FieldSize(f: Field): nat
    requires WellFormed(f)
    decreases f, 0
  {
    Varint.Size(Tag(f)) + ValueSize(f.number, f.value)
  }

  function FieldsSize(fs: seq<Field>): nat
    requires AllWellFormed(fs)
    decreases fs, 1
  {
    if fs == [] then 0 else FieldSize(fs[0]) + FieldsSize(fs[1..])
  }

  lemma {:induction false} FieldSizeIsLength(f: Field)
    requires WellFormed(f)
    ensures FieldSize(f) == |EncodeField(f)|
    decreases f, 0
  {
    Varint.SizeIsLength(Tag(f));
    match f.value
    case VarintValue(n) => Varint.SizeIsLength(n);
    case Len(data) => Varint.SizeIsLength(|data|);
    case Group(fields) =>
      FieldsSizeIsLength(fields);
      Varint.SizeIsLength(f.number * 8 + END_GROUP);
    case _ =>
  }

  lemma {:induction false} FieldsSizeIsLength(fs: seq<Field>)
    requires AllWellFormed(fs)
    ensures FieldsSize(fs) == |EncodeFields(fs)|
    decreases fs, 1
  {
    if fs != [] {
      FieldSizeIsLength(fs[0]);
      FieldsSizeIsLength(fs[1..]);
    }
  }
}
