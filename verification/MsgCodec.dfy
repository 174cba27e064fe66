/**
 * The generated codec of the chat message. The server declares `MsgData { int32 id = 1;
 * string data = 2; }` and the client `MsgData { int32 id = 1; string dara = 2; }`: field names
 * are not on the wire, so one codec models both, with the string called `text`.
 */
module MsgCodec {
  import opened Bytes
  import opened Wire
  import opened MessageFold
  import Utf8
  import WireTheory

  datatype MsgValue = MsgValue(id: Int32, text: seq<Byte>, unknown: seq<Field>)

  const EMPTY := MsgValue(0, [], [])

  predicate IsId(f: Field) { f.number == 1 && f.value.VarintValue? }
  predicate IsText(f: Field) { f.number == 2 && f.value.Len? }
  predicate Known(f: Field) { IsId(f) || IsText(f) }

  /**
   * The meaning of one record: later records win, records that are not known are kept in order. A
   * text that is not valid UTF-8 is stored before it is refused.
   */
  function Apply(m: MsgValue, f: Field): Applied<MsgValue> {
    if IsId(f) then Kept(m.(id := ToInt32(f.value.v)))
    else if IsText(f) then
      var m' := m.(text := f.value.data);
      if Utf8.Valid(f.value.data) then Kept(m') else Refused(m')
    else Kept(m.(unknown := m.unknown + [f]))
  }

  function ApplyAll(m: MsgValue, fs: seq<Field>): Applied<MsgValue> {
    Fold(Apply, m, fs)
  }

  function Parse(m: MsgValue, s: seq<Byte>): Outcome<MsgValue> {
    ParseWith(Apply, m, s)
  }

  /** Is `m` what `was` may become by a record with this tag that cannot be read? */
  predicate Spoils(tag: UInt32, was: MsgValue, m: MsgValue) {
    && (m.id == was.id || tag == 8)
    && (m.text == was.text || tag == 18)
    && (m.unknown == was.unknown || (was.unknown <= m.unknown && tag !in {8, 18}))
  }

  /** The fields that a parse with this outcome may leave; a tag that cannot be read may be any. */
  ghost predicate Leaves(o: Outcome<MsgValue>, m: MsgValue) {
    if !o.Failed? then m == o.value
    else if o.broken.Some? then Spoils(o.broken.value, o.value, m)
    else exists tag: UInt32 :: Spoils(tag, o.value, m)
  }

  /** At most one field is concerned, the one that the tag announces; unknown records only grow. */
  lemma SpoilsOne(tag: UInt32, was: MsgValue, m: MsgValue)
    ensures Spoils(tag, was, m) <==>
            if tag == 8 then m == was.(id := m.id)
            else if tag == 18 then m == was.(text := m.text)
            else m == was.(unknown := m.unknown) && was.unknown <= m.unknown
  {
  }

  lemma AnySpoils(tag: UInt32, o: Outcome<MsgValue>, m: MsgValue)
    requires o.Failed? && o.broken.None? && Spoils(tag, o.value, m)
    ensures Leaves(o, m)
  {
  }

  predicate Sized(m: MsgValue) {
    |m.text| <= MAX_SIZE && AllWellFormed(m.unknown)
  }

  /** The text's length fits the 32 bits in which its size is computed. */
  predicate Countable(m: MsgValue) {
    |m.text| < 0x1_0000_0000 && AllWellFormed(m.unknown)
  }

  predicate WellFormed(m: MsgValue) {
    && Utf8.Valid(m.text)
    && Sized(m)
    && forall f | f in m.unknown :: !Known(f)
  }

  function IdFields(m: MsgValue): seq<Field> {
    if m.id == 0 then [] else [Field(1, VarintValue(SignExtend(m.id)))]
  }

  function TextFields(m: MsgValue): seq<Field> {
    if m.text == [] then [] else [Field(2, Len(m.text))]
  }

  function Fields(m: MsgValue): seq<Field> {
    IdFields(m) + (TextFields(m) + m.unknown)
  }

  function Serialize(m: MsgValue): seq<Byte> {
    EncodeFields(Fields(m))
  }

  // ---------------------------------------------------------------- theory

  lemma {:induction false} ApplyOnlyUnknown(m: MsgValue, fs: seq<Field>)
    requires forall f | f in fs :: !Known(f)
    ensures ApplyAll(m, fs) == Kept(m.(unknown := m.unknown + fs))
    decreases fs
  {
    if fs == [] {
      assert m.unknown + fs == m.unknown;
    } else {
      assert !Known(fs[0]);
      assert (m.unknown + [fs[0]]) + fs[1..] == m.unknown + fs;
      ApplyOnlyUnknown(Apply(m, fs[0]).value, fs[1..]);
    }
  }

  /** The records that are not known are collected in order, whatever else happens. */
  lemma CollectsUnknown(m: MsgValue, fs: seq<Field>)
    requires ApplyAll(m, fs).Kept?
    ensures ApplyAll(m, fs).value.unknown == m.unknown + Unknown(Known, fs)
  {
    var unknownOf := (x: MsgValue) => x.unknown;
    forall x: MsgValue, f: Field | Apply(x, f).Kept?
      ensures unknownOf(Apply(x, f).value) == unknownOf(x) + if Known(f) then [] else [f]
    {
      assert x.unknown + [] == x.unknown;
    }
    ApplyAllUnknown(Apply, Known, unknownOf, m, fs);
  }

  lemma ApplyFields(m: MsgValue)
    requires WellFormed(m)
    ensures ApplyAll(EMPTY, Fields(m)) == Kept(m)
  {
    var m1, m2 := EMPTY.(id := m.id), EMPTY.(id := m.id, text := m.text);
    ApplyAllAppend(Apply, EMPTY, IdFields(m), TextFields(m) + m.unknown);
    ApplyAllAppend(Apply, m1, TextFields(m), m.unknown);
    assert ApplyAll(EMPTY, IdFields(m)) == Kept(m1) by {
      ApplyOne(Apply, EMPTY, Field(1, VarintValue(SignExtend(m.id))));
      SignExtendRoundTrip(m.id);
    }
    assert ApplyAll(m1, TextFields(m)) == Kept(m2) by { ApplyOne(Apply, m1, Field(2, Len(m.text))); }
    ApplyOnlyUnknown(m2, m.unknown);
    assert m2.unknown + m.unknown == m.unknown;
  }

  /** Every well-formed message is read back exactly. */
  lemma RoundTrip(m: MsgValue)
    requires WellFormed(m)
    ensures Parse(EMPTY, Serialize(m)) == Parsed(m)
  {
    WireTheory.TokenizeRoundTrip(Fields(m));
    ApplyFields(m);
  }

  lemma ApplyWellFormed(m: MsgValue, f: Field)
    requires WellFormed(m) && Wire.WellFormed(f) && Apply(m, f).Kept?
    ensures WellFormed(Apply(m, f).value)
  {
  }

  /** Whatever the bytes were, a parse that succeeds leaves a message that survives a round trip. */
  lemma ParsedIsWellFormed(s: seq<Byte>)
    requires Parse(EMPTY, s).Parsed?
    ensures WellFormed(Parse(EMPTY, s).value)
    ensures Parse(EMPTY, Serialize(Parse(EMPTY, s).value)) == Parse(EMPTY, s)
  {
    var fs := Tokenize(s).fields;
    WireTheory.TokenizeWellFormed(s);
    forall m: MsgValue, f: Field | WellFormed(m) && f in fs && Apply(m, f).Kept?
      ensures WellFormed(Apply(m, f).value)
    {
      ApplyWellFormed(m, f);
    }
    ApplyAllKeeps(Apply, WellFormed, EMPTY, fs);
    RoundTrip(Parse(EMPTY, s).value);
  }

  /** The round trip's conditions are exact: no message outside them is read back as itself. */
  lemma RoundTripIff(m: MsgValue)
    ensures Parse(EMPTY, Serialize(m)) == Parsed(m) <==> WellFormed(m)
  {
    if WellFormed(m) {
      RoundTrip(m);
    } else if Parse(EMPTY, Serialize(m)) == Parsed(m) {
      ParsedIsWellFormed(Serialize(m));
    }
  }
}
