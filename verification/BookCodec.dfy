/**
 * The generated codec of `message Book { string name = 1; int32 pages = 2; float price = 3; }`.
 * A price is kept as its raw 32 bits, which is what the generated code tests and copies.
 */
module BookCodec {
  import opened Bytes
  import opened Wire
  import opened MessageFold
  import Utf8
  import WireTheory

  datatype BookValue = BookValue(name: seq<Byte>, pages: Int32, price: UInt32, unknown: seq<Field>)

  const EMPTY := BookValue([], 0, 0, [])

  // ---------------------------------------------------------------- reference semantics

  predicate IsName(f: Field) { f.number == 1 && f.value.Len? }
  predicate IsPages(f: Field) { f.number == 2 && f.value.VarintValue? }
  predicate IsPrice(f: Field) { f.number == 3 && f.value.Fixed32? }
  predicate Known(f: Field) { IsName(f) || IsPages(f) || IsPrice(f) }

  /**
   * The meaning of one record: later records win, records that are not known are kept in order. A
   * name that is not valid UTF-8 is stored before it is refused.
   */
  function Apply(b: BookValue, f: Field): Applied<BookValue> {
    if IsName(f) then
      var b' := b.(name := f.value.data);
      if Utf8.Valid(f.value.data) then Kept(b') else Refused(b')
    else if IsPages(f) then Kept(b.(pages := ToInt32(f.value.v)))
    else if IsPrice(f) then Kept(b.(price := f.value.bits32))
    else Kept(b.(unknown := b.unknown + [f]))
  }

  function ApplyAll(b: BookValue, fs: seq<Field>): Applied<BookValue> {
    Fold(Apply, b, fs)
  }

  function Parse(b: BookValue, s: seq<Byte>): Outcome<BookValue> {
    ParseWith(Apply, b, s)
  }

  /** Is `b` what `was` may become by a record with this tag that cannot be read? */
  predicate Spoils(tag: UInt32, was: BookValue, b: BookValue) {
    && (b.name == was.name || tag == 10)
    && (b.pages == was.pages || tag == 16)
    && (b.price == was.price || tag == 29)
    && (b.unknown == was.unknown || (was.unknown <= b.unknown && tag !in {10, 16, 29}))
  }

  /** The fields that a parse with this outcome may leave; a tag that cannot be read may be any. */
  ghost predicate Leaves(o: Outcome<BookValue>, b: BookValue) {
    if !o.Failed? then b == o.value
    else if o.broken.Some? then Spoils(o.broken.value, o.value, b)
    else exists tag: UInt32 :: Spoils(tag, o.value, b)
  }

  /** At most one field is concerned, the one that the tag announces; unknown records only grow. */
  lemma SpoilsOne(tag: UInt32, was: BookValue, b: BookValue)
    ensures Spoils(tag, was, b) <==>
            if tag == 10 then b == was.(name := b.name)
            else if tag == 16 then b == was.(pages := b.pages)
            else if tag == 29 then b == was.(price := b.price)
            else b == was.(unknown := b.unknown) && was.unknown <= b.unknown
  {
  }

  lemma AnySpoils(tag: UInt32, o: Outcome<BookValue>, b: BookValue)
    requires o.Failed? && o.broken.None? && Spoils(tag, o.value, b)
    ensures Leaves(o, b)
  {
  }

  /** Lengths and numbers fit the wire format. */
  predicate Sized(b: BookValue) {
    |b.name| <= MAX_SIZE && AllWellFormed(b.unknown)
  }

  /** What the message must satisfy to survive a round trip. */
  predicate WellFormed(b: BookValue) {
    && Utf8.Valid(b.name)
    && Sized(b)
    && forall f | f in b.unknown :: !Known(f)
  }

  /** The name's length fits the 32 bits in which its size is computed. */
  predicate Countable(b: BookValue) {
    |b.name| < 0x1_0000_0000 && AllWellFormed(b.unknown)
  }

  function NameFields(b: BookValue): seq<Field> {
    if b.name == [] then [] else [Field(1, Len(b.name))]
  }

  function PagesFields(b: BookValue): seq<Field> {
    if b.pages == 0 then [] else [Field(2, VarintValue(SignExtend(b.pages)))]
  }

  function PriceFields(b: BookValue): seq<Field> {
    if b.price == 0 then [] else [Field(3, Fixed32(b.price))]
  }

  /** The records a message is written as: defaults are skipped, unknown records come last. */
  function Fields(b: BookValue): seq<Field> {
    NameFields(b) + (PagesFields(b) + (PriceFields(b) + b.unknown))
  }

  function Serialize(b: BookValue): seq<Byte> {
    EncodeFields(Fields(b))
  }

  /** Merging: defaults of the source do not overwrite, unknown records are appended. */
  function Merge(to: BookValue, from: BookValue): BookValue {
    BookValue(
      if from.name != [] then from.name else to.name,
      if from.pages != 0 then from.pages else to.pages,
      if from.price != 0 then from.price else to.price,
      to.unknown + from.unknown)
  }

  // ---------------------------------------------------------------- theory

  lemma {:induction false} ApplyUnknown(b: BookValue, fs: seq<Field>)
    requires forall f | f in fs :: !Known(f)
    ensures ApplyAll(b, fs) == Kept(b.(unknown := b.unknown + fs))
    decreases fs
  {
    if fs == [] {
      assert b.unknown + fs == b.unknown;
    } else {
      assert !Known(fs[0]);
      assert (b.unknown + [fs[0]]) + fs[1..] == b.unknown + fs;
      ApplyUnknown(Apply(b, fs[0]).value, fs[1..]);
    }
  }

  /** Applying the records of `y` to `x` merges `y` into `x`. */
  lemma ApplyFields(x: BookValue, y: BookValue)
    requires WellFormed(y)
    ensures ApplyAll(x, Fields(y)) == Kept(Merge(x, y))
  {
    var x1 := if y.name == [] then x else x.(name := y.name);
    var x2 := if y.pages == 0 then x1 else x1.(pages := y.pages);
    var x3 := if y.price == 0 then x2 else x2.(price := y.price);
    ApplyAllAppend(Apply, x, NameFields(y), PagesFields(y) + (PriceFields(y) + y.unknown));
    ApplyAllAppend(Apply, x1, PagesFields(y), PriceFields(y) + y.unknown);
    ApplyAllAppend(Apply, x2, PriceFields(y), y.unknown);
    assert ApplyAll(x, NameFields(y)) == Kept(x1) by { ApplyOne(Apply, x, Field(1, Len(y.name))); }
    assert ApplyAll(x1, PagesFields(y)) == Kept(x2) by {
      ApplyOne(Apply, x1, Field(2, VarintValue(SignExtend(y.pages))));
      SignExtendRoundTrip(y.pages);
    }
    assert ApplyAll(x2, PriceFields(y)) == Kept(x3) by { ApplyOne(Apply, x2, Field(3, Fixed32(y.price))); }
    ApplyUnknown(x3, y.unknown);
  }

  lemma FieldsWellFormed(b: BookValue)
    requires Sized(b)
    ensures AllWellFormed(Fields(b))
  {
  }

  /** Parsing what was written, into any message, merges: the fold form of `MergeFromString`. */
  lemma ParseSerialized(x: BookValue, y: BookValue)
    requires WellFormed(y)
    ensures Parse(x, Serialize(y)) == Parsed(Merge(x, y))
  {
    FieldsWellFormed(y);
    WireTheory.TokenizeRoundTrip(Fields(y));
    ApplyFields(x, y);
  }

  /** Every well-formed message, unknown records and nested groups included, is read back exactly. */
  lemma RoundTrip(b: BookValue)
    requires WellFormed(b)
    ensures Parse(EMPTY, Serialize(b)) == Parsed(b)
  {
    ParseSerialized(EMPTY, b);
    assert EMPTY.unknown + b.unknown == b.unknown;
  }

  lemma ApplyWellFormed(b: BookValue, f: Field)
    requires WellFormed(b) && Wire.WellFormed(f) && Apply(b, f).Kept?
    ensures WellFormed(Apply(b, f).value)
  {
  }

  /** Whatever the bytes were, a parse that succeeds leaves a message that survives a round trip. */
  lemma ParsedIsWellFormed(s: seq<Byte>)
    requires Parse(EMPTY, s).Parsed?
    ensures WellFormed(Parse(EMPTY, s).value)
    ensures Parse(EMPTY, Serialize(Parse(EMPTY, s).value)) == Parse(EMPTY, s)
  {
    var fs := Tokenize(s).fields;
    WireTheory.TokenizeWellFormed(s);
    forall b: BookValue, f: Field | WellFormed(b) && f in fs && Apply(b, f).Kept?
      ensures WellFormed(Apply(b, f).value)
    {
      ApplyWellFormed(b, f);
    }
    ApplyAllKeeps(Apply, WellFormed, EMPTY, fs);
    RoundTrip(Parse(EMPTY, s).value);
  }

  /** The round trip's conditions are exact: no message outside them is read back as itself. */
  lemma RoundTripIff(b: BookValue)
    ensures Parse(EMPTY, Serialize(b)) == Parsed(b) <==> WellFormed(b)
  {
    if WellFormed(b) {
      RoundTrip(b);
    } else if Parse(EMPTY, Serialize(b)) == Parsed(b) {
      ParsedIsWellFormed(Serialize(b));
    }
  }

  /** Concatenating what was written for two messages is writing their merge. */
  lemma ConcatenationMerges(x: BookValue, y: BookValue)
    requires WellFormed(x) && WellFormed(y)
    ensures Parse(EMPTY, Serialize(x) + Serialize(y)) == Parsed(Merge(x, y))
  {
    RoundTrip(x);
    ParseAppend(Apply, EMPTY, Serialize(x), Serialize(y));
    ParseSerialized(x, y);
  }

  predicate SetsName(fs: seq<Field>) { exists f :: f in fs && IsName(f) }
  predicate SetsPages(fs: seq<Field>) { exists f :: f in fs && IsPages(f) }
  predicate SetsPrice(fs: seq<Field>) { exists f :: f in fs && IsPrice(f) }

  /** Some field of `y` was set to its default by a record of `fs`, while `x` holds another value. */
  predicate ExplicitDefault(x: BookValue, y: BookValue, fs: seq<Field>) {
    || (SetsName(fs) && y.name == [] && x.name != [])
    || (SetsPages(fs) && y.pages == 0 && x.pages != 0)
    || (SetsPrice(fs) && y.price == 0 && x.price != 0)
  }

  /** Does `x'` stand to `x` as `y'` to `y`: fields set in between agree, the others are kept? */
  predicate Follows(x: BookValue, y: BookValue, x': BookValue, y': BookValue, name: bool, pages: bool, price: bool) {
    && (if name then x'.name == y'.name else x'.name == x.name && y'.name == y.name)
    && (if pages then x'.pages == y'.pages else x'.pages == x.pages && y'.pages == y.pages)
    && (if price then x'.price == y'.price else x'.price == x.price && y'.price == y.price)
  }

  lemma ApplyFollows(x: BookValue, y: BookValue, f: Field)
    requires Apply(y, f).Kept?
    ensures Apply(x, f).Kept?
    ensures Follows(x, y, Apply(x, f).value, Apply(y, f).value, IsName(f), IsPages(f), IsPrice(f))
  {
  }

  lemma SetsCons(f: Field, fs: seq<Field>)
    ensures SetsName([f] + fs) == (IsName(f) || SetsName(fs))
    ensures SetsPages([f] + fs) == (IsPages(f) || SetsPages(fs))
    ensures SetsPrice([f] + fs) == (IsPrice(f) || SetsPrice(fs))
  {
    assert forall g :: g in [f] + fs <==> g == f || g in fs;
  }

  /** A field that records set takes its value from them alone; a field they do not set is kept. */
  lemma {:induction false} ApplyAllFollows(x: BookValue, y: BookValue, fs: seq<Field>)
    requires ApplyAll(y, fs).Kept?
    ensures ApplyAll(x, fs).Kept?
    ensures Follows(x, y, ApplyAll(x, fs).value, ApplyAll(y, fs).value, SetsName(fs), SetsPages(fs), SetsPrice(fs))
    decreases fs
  {
    if fs != [] {
      var f, tail := fs[0], fs[1..];
      assert fs == [f] + tail;
      SetsCons(f, tail);
      ApplyFollows(x, y, f);
      ApplyAllFollows(Apply(x, f).value, Apply(y, f).value, tail);
    }
  }

  /** The records that are not known are collected in order, whatever else happens. */
  lemma CollectsUnknown(b: BookValue, fs: seq<Field>)
    requires ApplyAll(b, fs).Kept?
    ensures ApplyAll(b, fs).value.unknown == b.unknown + Unknown(Known, fs)
  {
    var unknownOf := (x: BookValue) => x.unknown;
    forall x: BookValue, f: Field | Apply(x, f).Kept?
      ensures unknownOf(Apply(x, f).value) == unknownOf(x) + if Known(f) then [] else [f]
    {
      assert x.unknown + [] == x.unknown;
    }
    ApplyAllUnknown(Apply, Known, unknownOf, b, fs);
  }

  lemma MergesIff(x: BookValue, fs: seq<Field>)
    requires ApplyAll(EMPTY, fs).Kept?
    ensures var y := ApplyAll(EMPTY, fs).value;
            && ApplyAll(x, fs).Kept?
            && (ApplyAll(x, fs).value == Merge(x, y) <==> !ExplicitDefault(x, y, fs))
  {
    ApplyAllFollows(x, EMPTY, fs);
    CollectsUnknown(x, fs);
    CollectsUnknown(EMPTY, fs);
    assert [] + Unknown(Known, fs) == Unknown(Known, fs);
  }

  /**
   * For arbitrary second bytes, parsing the concatenation is merging exactly when no field is
   * reset by an explicitly encoded default.
   */
  lemma ConcatenationMergesIff(s: seq<Byte>, t: seq<Byte>)
    requires Parse(EMPTY, s).Parsed? && Parse(EMPTY, t).Parsed?
    ensures var x, y := Parse(EMPTY, s).value, Parse(EMPTY, t).value;
            && Parse(EMPTY, s + t).Parsed?
            && (Parse(EMPTY, s + t).value == Merge(x, y) <==> !ExplicitDefault(x, y, Tokenize(t).fields))
  {
    ParseAppend(Apply, EMPTY, s, t);
    MergesIff(Parse(EMPTY, s).value, Tokenize(t).fields);
  }

  lemma MergeIdentity(b: BookValue)
    ensures Merge(EMPTY, b) == b && Merge(b, EMPTY) == b
  {
    assert [] + b.unknown == b.unknown && b.unknown + [] == b.unknown;
  }

  /** A concrete case: a second part that sets the name to the empty string, explicitly. */
  lemma ExplicitDefaultResets()
    ensures var x, t := BookValue([97], 0, 0, []), [10, 0];
            && Parse(EMPTY, t) == Parsed(EMPTY)
            && Parse(EMPTY, Serialize(x) + t) == Parsed(EMPTY)
            && Merge(x, EMPTY) == x != EMPTY
  {
    var x, t: seq<Byte> := BookValue([97], 0, 0, []), [10, 0];
    var f := Field(1, Len([]));
    assert EncodeFields([f]) == EncodeField(f) + [] == t by {
      assert [f][1..] == [];
    }
    WireTheory.TokenizeRoundTrip([f]);
    ApplyOne(Apply, EMPTY, f);
    ApplyOne(Apply, x, f);
    assert Utf8.Valid([97]) by {
      assert [97][1..] == [];
    }
    RoundTrip(x);
    ParseAppend(Apply, EMPTY, Serialize(x), t);
    MergeIdentity(x);
  }

  lemma MergeAssociative(a: BookValue, b: BookValue, c: BookValue)
    ensures Merge(Merge(a, b), c) == Merge(a, Merge(b, c))
  {
    assert (a.unknown + b.unknown) + c.unknown == a.unknown + (b.unknown + c.unknown);
  }
}
