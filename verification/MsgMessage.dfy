/** The chat message object, proved against the reference semantics of MsgCodec. */
module MsgMessage {
  import opened Bytes
  import opened Wire
  import opened MsgCodec
  import opened MessageIO
  import opened MessageFold
  import Varint
  import Utf8
  import WireTheory

  // ---------------------------------------------------------------- the bytes

  function IdBytes(m: MsgValue): seq<Byte> {
    if m.id == 0 then [] else [8] + Varint.Encode(SignExtend(m.id))
  }

  function TextBytes(m: MsgValue): seq<Byte> {
    if m.text == [] then [] else [18] + Varint.Encode(|m.text|) + m.text
  }

  /** The bytes of a message, field by field, with the one-byte tags 8 and 18. */
  lemma SerializeParts(m: MsgValue)
    ensures Serialize(m) == IdBytes(m) + TextBytes(m) + EncodeFields(m.unknown)
  {
    var i, t, u := IdFields(m), TextFields(m), m.unknown;
    WireTheory.EncodeFieldsAppend(i, t + u);
    WireTheory.EncodeFieldsAppend(t, u);
    assert EncodeFields(i) == IdBytes(m) by {
      if m.id != 0 { EncodeOne(i[0], 8); }
    }
    assert EncodeFields(t) == TextBytes(m) by {
      if m.text != [] { EncodeOne(t[0], 18); }
    }
    Assoc(IdBytes(m), TextBytes(m), EncodeFields(u));
  }

  // ---------------------------------------------------------------- one turn of the loop

  lemma OnId(m: MsgValue, s: seq<Byte>, r: seq<Byte>)
    requires s != [] && ReadTag(s) == Got(8, r)
    ensures Parse(m, s) ==
            match ReadVarint(r)
            case Fail => Failed(m, Some(8))
            case Got(v, rest) => Parse(m.(id := ToInt32(v.v)), rest)
  {
    ParseRecord(Apply, m, s, 8, r);
  }

  /** However the varint is spelled, the field keeps its number modulo 2^32, as a signed one. */
  lemma IdFromVarint(m: MsgValue, v: seq<Byte>, p: Int32, rest: seq<Byte>)
    requires Varint.Terminated(v) && |v| <= 10 && (p as int - Varint.Groups(v)) % 0x1_0000_0000 == 0
    ensures Parse(m, [8] + v + rest) == Parse(m.(id := p), rest)
  {
    var r, x := WireTheory.Int32Spelled(8, v, p, rest);
    OnId(m, [8] + v + rest, r);
  }

  /** So a varint of 64 bits that somebody else wrote is taken for its low 32 bits. */
  lemma IdLow32(m: MsgValue, n: UInt64, p: Int32, rest: seq<Byte>)
    requires (p as int - n as int) % 0x1_0000_0000 == 0
    ensures Parse(m, [8] + Varint.Encode(n) + rest) == Parse(m.(id := p), rest)
  {
    Varint.EncodeSpells(n);
    Varint.SizeIsLength(n);
    IdFromVarint(m, Varint.Encode(n), p, rest);
  }

  lemma OnText(m: MsgValue, s: seq<Byte>, r: seq<Byte>)
    requires s != [] && ReadTag(s) == Got(18, r)
    ensures Parse(m, s) ==
            match ReadLen(r)
            case Fail => Failed(m, Some(18))
            case Got(v, rest) =>
              var m' := m.(text := v.data);
              if Utf8.Valid(v.data) then Parse(m', rest) else Rejected(m')
  {
    ParseRecord(Apply, m, s, 18, r);
  }

  lemma OnUnknown(m: MsgValue, s: seq<Byte>, tag: UInt32, r: seq<Byte>)
    requires s != [] && ReadTag(s) == Got(tag, r) && !IsStop(tag)
    requires tag != 8 && tag != 18
    ensures Parse(m, s) ==
            match ReadValue(tag, r)
            case Fail => Failed(m, Some(tag))
            case Got(v, rest) => Parse(m.(unknown := m.unknown + [Field(tag / 8, v)]), rest)
  {
    ParseRecord(Apply, m, s, tag, r);
    if ReadValue(tag, r).Got? {
      WireTheory.ValueWellFormed(tag, r);
    }
  }

  // ---------------------------------------------------------------- the object

  class MsgData {
    var id: Int32
    var text: seq<Byte>
    var unknown: seq<Field>

    function Value(): MsgValue
      reads this
    {
      MsgValue(id, text, unknown)
    }

    constructor ()
      ensures Value() == EMPTY
    {
      id, text, unknown := 0, [], [];
    }

    method Clear()
      modifies this
      ensures Value() == EMPTY
    {
      id, text, unknown := 0, [], [];
    }

    /** Whatever the library has read of a record at `at` before it notices that it cannot be read. */
    method Spoil(tag: UInt32, at: seq<Byte>)
      modifies this
      ensures Spoils(tag, old(Value()), Value())
      ensures |text| <= |old(text)| || |text| <= |at| + SLOP_BYTES
    {
      match tag {
        case 8 => id := *;
        case 18 =>
          var partial: seq<Byte> := *;
          text := if |partial| <= |at| + SLOP_BYTES then partial else [];
        case _ =>
          var partial: seq<Field> := *;
          unknown := unknown + partial;
      }
    }

    /** The dispatch behind a tag: the parse ends there, or goes on at the pointer returned. */
    method TakeField(tag: UInt32, at: seq<Byte>, ghost s: seq<Byte>) returns (ended: Option<Pointer>, ptr: seq<Byte>)
      requires s != [] && ReadTag(s) == Got(tag, at)
      modifies this
      ensures |ptr| <= |at|
      ensures match ended
              case None => Parse(old(Value()), s) == Parse(Value(), ptr)
              case Some(r) => r == PointerAfter(Parse(old(Value()), s)) && Leaves(Parse(old(Value()), s), Value())
      ensures |text| <= |old(text)| || |text| <= |at| + SLOP_BYTES
    {
      ended, ptr := None, at;
      if tag / 8 == 1 && tag % 0x100 == 8 {
        OnId(Value(), s, at);
        var v := ReadVarint(at);
        if v.Fail? {
          Spoil(tag, at);
          return Some(Null), at;
        }
        ptr, id := v.rest, ToInt32(v.value.v);
      } else if tag / 8 == 2 && tag % 0x100 == 18 {
        OnText(Value(), s, at);
        var v := ReadLen(at);
        if v.Fail? {
          Spoil(tag, at);
          return Some(Null), at;
        }
        ptr, text := v.rest, v.value.data;
        if !Utf8.Valid(text) {
          return Some(Null), ptr;
        }
      } else if tag == 0 || tag % 8 == 4 {
        ParseStop(Apply, Value(), s, tag, at);
        return Some(Behind(tag, at)), at;
      } else {
        OnUnknown(Value(), s, tag, at);
        var v := ReadValue(tag, at);
        if v.Fail? {
          Spoil(tag, at);
          return Some(Null), at;
        }
        ptr, unknown := v.rest, unknown + [Field(tag / 8, v.value)];
      }
    }

    /** The generated loop: read a tag, then what it announces, until the end, a stop or a failure. */
    method InternalParse(input: seq<Byte>) returns (r: Pointer)
      modifies this
      ensures r == PointerAfter(Parse(old(Value()), input))
      ensures Leaves(Parse(old(Value()), input), Value())
      ensures |text| <= |old(text)| || |text| <= |input| + SLOP_BYTES
    {
      ghost var goal := Parse(Value(), input);
      var ptr, ended := input, None;
      while ended.None? && ptr != []
        invariant |ptr| <= |input|
        invariant |text| <= |old(text)| || |text| <= |input| + SLOP_BYTES
        invariant ended.None? ==> goal == Parse(Value(), ptr)
        invariant ended.Some? ==> ended.value == PointerAfter(goal) && Leaves(goal, Value())
        decreases ended.None?, |ptr|
      {
        var t := ReadTag(ptr);
        if t.Fail? {
          ParseBadTag(Apply, Value(), ptr);
          var any: UInt32 := *;
          Spoil(any, ptr);
          AnySpoils(any, goal, Value());
          return Null;
        }
        ended, ptr := TakeField(t.value, t.rest, ptr);
      }
      if ended.Some? {
        return ended.value;
      }
      ParseEnd(Apply, Value());
      return AtEnd;
    }

    /** Succeeds when the loop stops at the end of the input, not at a tag and not at null. */
    method ParseFromString(input: seq<Byte>) returns (ok: bool)
      modifies this
      ensures ok <==> Parse(EMPTY, input).Parsed?
      ensures Leaves(Parse(EMPTY, input), Value())
      ensures |text| <= |input| + SLOP_BYTES
      ensures ok ==> MsgCodec.WellFormed(Value())
    {
      Clear();
      var r := InternalParse(input);
      ok := r.AtEnd?;
      if ok {
        ParsedIsWellFormed(input);
      }
    }

    /** Writes the message at `target`; the end returned is the new write position. */
    method InternalSerialize(buffer: array<Byte>, target: nat) returns (end: nat)
      requires target + |Serialize(Value())| <= buffer.Length
      modifies buffer
      ensures end == target + |Serialize(Value())|
      ensures Written(buffer[..], old(buffer[..]), target, Serialize(Value()))
    {
      ghost var was, m := buffer[..], Value();
      SerializeParts(m);
      Assoc(IdBytes(m), TextBytes(m), EncodeFields(unknown));
      assert [] + IdBytes(m) == IdBytes(m);
      NothingWritten(was, target);
      end := AppendIf(id != 0, [8] + Varint.Encode(SignExtend(id)), buffer, target, was, target, []);
      end := AppendIf(text != [], [18] + Varint.Encode(|text|) + text, buffer, end, was, target, IdBytes(m));
      end := AppendIf(unknown != [], EncodeFields(unknown), buffer, end, was, target, IdBytes(m) + TextBytes(m));
    }

    method ByteSizeLong() returns (total: nat)
      requires Countable(Value())
      ensures total == |Serialize(Value())|
    {
      SerializeParts(Value());
      total := 0;
      if text != [] {
        Varint.SizeIsLength(|text|);
        total := total + 1 + Varint.Size(|text|) + |text|;
      }
      if id != 0 {
        Varint.SizeIsLength(SignExtend(id));
        total := total + 1 + Varint.Size(SignExtend(id));
      }
      WireTheory.FieldsSizeIsLength(unknown);
      total := total + WireTheory.FieldsSize(unknown);
    }

    /** A buffer of exactly the computed size is filled to its end, unless that size is over INT_MAX. */
    method SerializeToString() returns (r: Option<array<Byte>>)
      requires Countable(Value())
      ensures r.None? <==> |Serialize(Value())| > INT_MAX
      ensures r.Some? ==> fresh(r.value) && r.value[..] == Serialize(Value())
    {
      var size := ByteSizeLong();
      if size > INT_MAX {
        return None;
      }
      var out := new Byte[size];
      var end := InternalSerialize(out, 0);
      assert end == out.Length;
      r := Some(out);
    }
  }
}
