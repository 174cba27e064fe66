/** The message object: fields updated in place, proved against the reference semantics of BookCodec. */
module BookMessage {
  import opened Bytes
  import opened Wire
  import opened BookCodec
  import opened MessageIO
  import opened MessageFold
  import Varint
  import Utf8
  import WireTheory

  // ---------------------------------------------------------------- the bytes

  function NameBytes(b: BookValue): seq<Byte> {
    if b.name == [] then [] else [10] + Varint.Encode(|b.name|) + b.name
  }

  function PagesBytes(b: BookValue): seq<Byte> {
    if b.pages == 0 then [] else [16] + Varint.Encode(SignExtend(b.pages))
  }

  function PriceBytes(b: BookValue): seq<Byte> {
    if b.price == 0 then [] else [29] + LittleEndian32(b.price)
  }

  /** The bytes of a message, field by field, with the one-byte tags 10, 16 and 29. */
  lemma SerializeParts(b: BookValue)
    ensures Serialize(b) == NameBytes(b) + PagesBytes(b) + PriceBytes(b) + EncodeFields(b.unknown)
  {
    var n, g, p, u := NameFields(b), PagesFields(b), PriceFields(b), b.unknown;
    WireTheory.EncodeFieldsAppend(n, g + (p + u));
    WireTheory.EncodeFieldsAppend(g, p + u);
    WireTheory.EncodeFieldsAppend(p, u);
    assert EncodeFields(n) == NameBytes(b) by {
      if b.name != [] { EncodeOne(n[0], 10); }
    }
    assert EncodeFields(g) == PagesBytes(b) by {
      if b.pages != 0 { EncodeOne(g[0], 16); }
    }
    assert EncodeFields(p) == PriceBytes(b) by {
      if b.price != 0 { EncodeOne(p[0], 29); }
    }
    Assoc(NameBytes(b), PagesBytes(b), PriceBytes(b) + EncodeFields(u));
    Assoc(NameBytes(b) + PagesBytes(b), PriceBytes(b), EncodeFields(u));
  }

  // ---------------------------------------------------------------- one turn of the loop

  lemma OnName(b: BookValue, s: seq<Byte>, r: seq<Byte>)
    requires s != [] && ReadTag(s) == Got(10, r)
    ensures Parse(b, s) ==
            match ReadLen(r)
            case Fail => Failed(b, Some(10))
            case Got(v, rest) =>
              var b' := b.(name := v.data);
              if Utf8.Valid(v.data) then Parse(b', rest) else Rejected(b')
  {
    ParseRecord(Apply, b, s, 10, r);
  }

  lemma OnPages(b: BookValue, s: seq<Byte>, r: seq<Byte>)
    requires s != [] && ReadTag(s) == Got(16, r)
    ensures Parse(b, s) ==
            match ReadVarint(r)
            case Fail => Failed(b, Some(16))
            case Got(v, rest) => Parse(b.(pages := ToInt32(v.v)), rest)
  {
    ParseRecord(Apply, b, s, 16, r);
  }

  /** However the varint is spelled, the field keeps its number modulo 2^32, as a signed one. */
  lemma PagesFromVarint(b: BookValue, v: seq<Byte>, p: Int32, rest: seq<Byte>)
    requires Varint.Terminated(v) && |v| <= 10 && (p as int - Varint.Groups(v)) % 0x1_0000_0000 == 0
    ensures Parse(b, [16] + v + rest) == Parse(b.(pages := p), rest)
  {
    var r, x := WireTheory.Int32Spelled(16, v, p, rest);
    OnPages(b, [16] + v + rest, r);
  }

  /** So a varint of 64 bits that somebody else wrote is taken for its low 32 bits. */
  lemma PagesLow32(b: BookValue, n: UInt64, p: Int32, rest: seq<Byte>)
    requires (p as int - n as int) % 0x1_0000_0000 == 0
    ensures Parse(b, [16] + Varint.Encode(n) + rest) == Parse(b.(pages := p), rest)
  {
    Varint.EncodeSpells(n);
    Varint.SizeIsLength(n);
    PagesFromVarint(b, Varint.Encode(n), p, rest);
  }

  lemma OnPrice(b: BookValue, s: seq<Byte>, r: seq<Byte>)
    requires s != [] && ReadTag(s) == Got(29, r)
    ensures Parse(b, s) ==
            match ReadFixed32(r)
            case Fail => Failed(b, Some(29))
            case Got(v, rest) => Parse(b.(price := v.bits32), rest)
  {
    ParseRecord(Apply, b, s, 29, r);
  }

  /** A price is its four bytes, least significant first. */
  lemma PriceFromBytes(b: BookValue, bytes: seq<Byte>, rest: seq<Byte>)
    requires |bytes| == 4
    ensures Parse(b, [29] + bytes + rest) == Parse(b.(price := FromLittleEndian32(bytes)), rest)
    ensures FromLittleEndian32(bytes) == BytesValue(bytes)
  {
    Assoc([29], bytes, rest);
    WireTheory.ShortTag(29, bytes + rest);
    Halves(bytes, rest);
    OnPrice(b, [29] + bytes + rest, bytes + rest);
    FromLittleEndian32Means(bytes);
  }

  lemma OnUnknown(b: BookValue, s: seq<Byte>, tag: UInt32, r: seq<Byte>)
    requires s != [] && ReadTag(s) == Got(tag, r) && !IsStop(tag)
    requires tag != 10 && tag != 16 && tag != 29
    ensures Parse(b, s) ==
            match ReadValue(tag, r)
            case Fail => Failed(b, Some(tag))
            case Got(v, rest) => Parse(b.(unknown := b.unknown + [Field(tag / 8, v)]), rest)
  {
    ParseRecord(Apply, b, s, tag, r);
    if ReadValue(tag, r).Got? {
      WireTheory.ValueWellFormed(tag, r);
    }
  }

  // ---------------------------------------------------------------- the object

  class Book {
    var name: seq<Byte>
    var pages: Int32
    var price: UInt32
    var unknown: seq<Field>

    function Value(): BookValue
      reads this
    {
      BookValue(name, pages, price, unknown)
    }

    constructor ()
      ensures Value() == EMPTY
    {
      name, pages, price, unknown := [], 0, 0, [];
    }

    method Clear()
      modifies this
      ensures Value() == EMPTY
    {
      name, pages, price, unknown := [], 0, 0, [];
    }

    /** Whatever the library has read of a record before it notices that it cannot be read. */
    method Spoil(tag: UInt32)
      modifies this
      ensures Spoils(tag, old(Value()), Value())
    {
      match tag {
        case 10 => name := *;
        case 16 => pages := *;
        case 29 => price := *;
        case _ =>
          var partial: seq<Field> := *;
          unknown := unknown + partial;
      }
    }

    /** The dispatch behind a tag: the parse ends there, or goes on at the pointer returned. */
    method TakeField(tag: UInt32, at: seq<Byte>, ghost s: seq<Byte>) returns (ended: Option<Pointer>, ptr: seq<Byte>)
      requires s != [] && ReadTag(s) == Got(tag, at)
      modifies this
      ensures |ptr| <= |at|
      ensures match ended
              case None => Parse(old(Value()), s) == Parse(Value(), ptr)
              case Some(r) => r == PointerAfter(Parse(old(Value()), s)) && Leaves(Parse(old(Value()), s), Value())
    {
      ended, ptr := None, at;
      if tag / 8 == 1 && tag % 0x100 == 10 {
        OnName(Value(), s, at);
        var v := ReadLen(at);
        if v.Fail? {
          Spoil(tag);
          return Some(Null), at;
        }
        ptr, name := v.rest, v.value.data;
        if !Utf8.Valid(name) {
          return Some(Null), ptr;
        }
      } else if tag / 8 == 2 && tag % 0x100 == 16 {
        OnPages(Value(), s, at);
        var v := ReadVarint(at);
        if v.Fail? {
          Spoil(tag);
          return Some(Null), at;
        }
        ptr, pages := v.rest, ToInt32(v.value.v);
      } else if tag / 8 == 3 && tag % 0x100 == 29 {
        OnPrice(Value(), s, at);
        var v := ReadFixed32(at);
        if v.Fail? {
          Spoil(tag);
          return Some(Null), at;
        }
        ptr, price := v.rest, v.value.bits32;
      } else if tag == 0 || tag % 8 == 4 {
        ParseStop(Apply, Value(), s, tag, at);
        return Some(Behind(tag, at)), at;
      } else {
        OnUnknown(Value(), s, tag, at);
        var v := ReadValue(tag, at);
        if v.Fail? {
          Spoil(tag);
          return Some(Null), at;
        }
        ptr, unknown := v.rest, unknown + [Field(tag / 8, v.value)];
      }
    }

    /** The generated loop: read a tag, then what it announces, until the end, a stop or a failure. */
    method InternalParse(input: seq<Byte>) returns (r: Pointer)
      modifies this
      ensures r == PointerAfter(Parse(old(Value()), input))
      ensures Leaves(Parse(old(Value()), input), Value())
    {
      ghost var goal := Parse(Value(), input);
      var ptr, ended := input, None;
      while ended.None? && ptr != []
        invariant ended.None? ==> goal == Parse(Value(), ptr)
        invariant ended.Some? ==> ended.value == PointerAfter(goal) && Leaves(goal, Value())
        decreases ended.None?, |ptr|
      {
        var t := ReadTag(ptr);
        if t.Fail? {
          ParseBadTag(Apply, Value(), ptr);
          var any: UInt32 := *;
          Spoil(any);
          AnySpoils(any, goal, Value());
          return Null;
        }
        ended, ptr := TakeField(t.value, t.rest, ptr);
      }
      if ended.Some? {
        return ended.value;
      }
      ParseEnd(Apply, Value());
      return AtEnd;
    }

    /** Succeeds when the loop stops at the end of the input, not at a tag and not at null. */
    method ParseFromString(input: seq<Byte>) returns (ok: bool)
      modifies this
      ensures ok <==> Parse(EMPTY, input).Parsed?
      ensures Leaves(Parse(EMPTY, input), Value())
      ensures ok ==> BookCodec.WellFormed(Value())
    {
      Clear();
      var r := InternalParse(input);
      ok := r.AtEnd?;
      if ok {
        ParsedIsWellFormed(input);
      }
    }

    /** Writes the message at `target`; the end returned is the new write position. */
    method InternalSerialize(buffer: array<Byte>, target: nat) returns (end: nat)
      requires target + |Serialize(Value())| <= buffer.Length
      modifies buffer
      ensures end == target + |Serialize(Value())|
      ensures Written(buffer[..], old(buffer[..]), target, Serialize(Value()))
    {
      ghost var was, b := buffer[..], Value();
      ghost var done1, done2 := NameBytes(b), NameBytes(b) + PagesBytes(b);
      ghost var done3 := done2 + PriceBytes(b);
      SerializeParts(b);
      assert [] + done1 == done1;
      NothingWritten(was, target);
      end := AppendIf(name != [], [10] + Varint.Encode(|name|) + name, buffer, target, was, target, []);
      end := AppendIf(pages != 0, [16] + Varint.Encode(SignExtend(pages)), buffer, end, was, target, done1);
      end := AppendIf(price != 0, [29] + LittleEndian32(price), buffer, end, was, target, done2);
      end := AppendIf(unknown != [], EncodeFields(unknown), buffer, end, was, target, done3);
    }

    method ByteSizeLong() returns (total: nat)
      requires Countable(Value())
      ensures total == |Serialize(Value())|
    {
      SerializeParts(Value());
      total := 0;
      if name != [] {
        Varint.SizeIsLength(|name|);
        total := total + 1 + Varint.Size(|name|) + |name|;
      }
      if pages != 0 {
        Varint.SizeIsLength(SignExtend(pages));
        total := total + 1 + Varint.Size(SignExtend(pages));
      }
      if price != 0 {
        total := total + 1 + 4;
      }
      WireTheory.FieldsSizeIsLength(unknown);
      total := total + WireTheory.FieldsSize(unknown);
    }

    /** A buffer of exactly the computed size is filled to its end, unless that size is over INT_MAX. */
    method SerializeToString() returns (r: Option<array<Byte>>)
      requires Countable(Value())
      ensures r.None? <==> |Serialize(Value())| > INT_MAX
      ensures r.Some? ==> fresh(r.value) && r.value[..] == Serialize(Value())
    {
      var size := ByteSizeLong();
      if size > INT_MAX {
        return None;
      }
      var out := new Byte[size];
      var end := InternalSerialize(out, 0);
      assert end == out.Length;
      r := Some(out);
    }

    method MergeFrom(from: Book)
      requires from != this
      modifies this
      ensures Value() == Merge(old(Value()), from.Value())
    {
      if from.name != [] {
        name := from.name;
      }
      if from.pages != 0 {
        pages := from.pages;
      }
      if from.price != 0 {
        price := from.price;
      }
      unknown := unknown + from.unknown;
    }

    method CopyFrom(from: Book)
      modifies this
      ensures Value() == old(from.Value())
    {
      if from == this {
        return;
      }
      Clear();
      MergeFrom(from);
      MergeIdentity(from.Value());
    }
  }
}
