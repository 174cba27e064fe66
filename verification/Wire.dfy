/**
 * The Protocol Buffers wire format: a message is a sequence of records, each a tag followed by a
 * value (Protocol Buffers Encoding, sections "Message Structure", "Length-Delimited Records" and
 * "Groups"). The records that a generated parser does not know are kept in this form.
 */
module Wire {
  import opened Bytes
  import Varint

  datatype Value =
    | VarintValue(v: UInt64)
    | Fixed64(bits64: UInt64)
    | Len(data: seq<Byte>)
    | Group(fields: seq<Field>)
    | Fixed32(bits32: UInt32)

  datatype Field = Field(number: nat, value: Value)

  const END_GROUP := 4
  const MAX_FIELD_NUMBER := 0x1FFF_FFFF
  const MAX_TAG_BYTES := 5
  const MAX_VARINT_BYTES := 10

  const INT_MAX := 0x7FFF_FFFF

  /** How far behind the end of its input the library may have read before it notices. */
  const SLOP_BYTES := 16

  /** The longest length that the library's size reader accepts. */
  const MAX_SIZE := INT_MAX - SLOP_BYTES

  function WireType(v: Value): nat {
    match v
    case VarintValue(_) => 0
    case Fixed64(_) => 1
    case Len(_) => 2
    case Group(_) => 3
    case Fixed32(_) => 5
  }

  function Tag(f: Field): nat {
    f.number * 8 + WireType(f.value)
  }

  predicate WellFormed(f: Field) {
    && 1 <= f.number <= MAX_FIELD_NUMBER
    && match f.value
       case Len(data) => |data| <= MAX_SIZE
       case Group(fields) => forall g | g in fields :: WellFormed(g)
       case _ => true
  }

  predicate AllWellFormed(fs: seq<Field>) {
    forall f | f in fs :: WellFormed(f)
  }

  // ---------------------------------------------------------------- writing

  function EncodeField(f: Field): (s: seq<Byte>)
    ensures s != []
    decreases f, 0
  {
    Varint.Encode(Tag(f)) + EncodeValue(f.number, f.value)
  }

  function EncodeValue(number: nat, v: Value): seq<Byte>
    decreases v, 1
  {
    match v
    case VarintValue(n) => Varint.Encode(n)
    case Fixed64(bits) => LittleEndian64(bits)
    case Len(data) => Varint.Encode(|data|) + data
    case Group(fields) => EncodeFields(fields) + Varint.Encode(number * 8 + END_GROUP)
    case Fixed32(bits) => LittleEndian32(bits)
  }

  function EncodeFields(fs: seq<Field>): seq<Byte>
    decreases fs, 1
  {
    if fs == [] then [] else EncodeField(fs[0]) + EncodeFields(fs[1..])
  }

  // ---------------------------------------------------------------- reading

  /**
   * The record at the front of the input, or why there is none. A broken record is one whose tag
   * was read and whose value was not; without that tag the tag itself could not be read.
   */
  datatype Item =
    | End
    | Stop(tag: UInt32, rest: seq<Byte>)
    | Bad(broken: Option<UInt32>)
    | Record(field: Field, rest: seq<Byte>)

  function ReadTag(s: seq<Byte>): (r: Read<UInt32>)
    ensures r.Got? ==> |r.rest| < |s|
  {
    match Varint.Decode(s, MAX_TAG_BYTES)
    case Fail => Fail
    case Got(n, rest) => Got(n % 0x1_0000_0000, rest)
  }

  /** Tag 0 and end-group tags end a message instead of starting a record. */
  predicate IsStop(tag: UInt32) {
    tag == 0 || tag % 8 == END_GROUP
  }

  function ReadItem(s: seq<Byte>): (r: Item)
    ensures r.Record? || r.Stop? ==> |r.rest| < |s|
    decreases |s|, 0
  {
    if s == [] then End
    else
      match ReadTag(s)
      case Fail => Bad(None)
      case Got(tag, rest) =>
        if IsStop(tag) then Stop(tag, rest)
        else
          match ReadValue(tag, rest)
          case Fail => Bad(Some(tag))
          case Got(v, rest') => Record(Field(tag / 8, v), rest')
  }

  function ReadVarint(s: seq<Byte>): (r: Read<Value>)
    ensures r.Got? ==> |r.rest| <= |s| && r.value.VarintValue?
  {
    match Varint.Decode(s, MAX_VARINT_BYTES)
    case Fail => Fail
    case Got(n, rest) => Got(VarintValue(n % 0x1_0000_0000_0000_0000), rest)
  }

  function ReadFixed32(s: seq<Byte>): (r: Read<Value>)
    ensures r.Got? ==> |r.rest| <= |s| && r.value.Fixed32?
  {
    if |s| < 4 then Fail else Got(Fixed32(FromLittleEndian32(s[..4])), s[4..])
  }

  /** A length is an `int32` varint of at most five bytes; one that is too large or past the end fails. */
  function ReadLen(s: seq<Byte>): (r: Read<Value>)
    ensures r.Got? ==> |r.rest| <= |s| && r.value.Len? && |r.value.data| <= |s|
  {
    match Varint.Decode(s, MAX_TAG_BYTES)
    case Fail => Fail
    case Got(n, rest) =>
      if n > MAX_SIZE || n > |rest| then Fail else Got(Len(rest[..n]), rest[n..])
  }

  function ReadValue(tag: UInt32, s: seq<Byte>): (r: Read<Value>)
    ensures r.Got? ==> |r.rest| <= |s|
    decreases |s|, 2
  {
    if tag / 8 == 0 then Fail
    else if tag % 8 == 0 then ReadVarint(s)
    else if tag % 8 == 1 then
      if |s| < 8 then Fail else Got(Fixed64(FromLittleEndian64(s[..8])), s[8..])
    else if tag % 8 == 2 then ReadLen(s)
    else if tag % 8 == 3 then
      match ReadGroup(tag / 8, s)
      case Fail => Fail
      case Got(fs, rest) => Got(Group(fs), rest)
    else if tag % 8 == 5 then ReadFixed32(s)
    else Fail
  }

  /** The records of a group, up to and including the end-group tag with the same number. */
  function ReadGroup(number: nat, s: seq<Byte>): (r: Read<seq<Field>>)
    ensures r.Got? ==> |r.rest| <= |s|
    decreases |s|, 1
  {
    match ReadItem(s)
    case End => Fail
    case Bad(_) => Fail
    case Stop(tag, rest) => if tag == number * 8 + END_GROUP then Got([], rest) else Fail
    case Record(f, rest) =>
      match ReadGroup(number, rest)
      case Fail => Fail
      case Got(fs, rest') => Got([f] + fs, rest')
  }

  /** How the top level of a message ends. */
  datatype Ending = Clean | Stopped(tag: UInt32, rest: seq<Byte>) | Malformed(broken: Option<UInt32>)

  datatype Tokens = Tokens(fields: seq<Field>, ending: Ending)

  function Tokenize(s: seq<Byte>): Tokens
    decreases |s|
  {
    match ReadItem(s)
    case End => Tokens([], Clean)
    case Bad(broken) => Tokens([], Malformed(broken))
    case Stop(tag, rest) => Tokens([], Stopped(tag, rest))
    case Record(f, rest) => var t := Tokenize(rest); Tokens([f] + t.fields, t.ending)
  }
}
