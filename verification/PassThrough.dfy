/** A Book that passes through a program which only knows MsgData, and a MsgData through one of Book. */
module PassThrough {
  import opened Bytes
  import opened Wire
  import opened MessageFold
  import B = BookCodec
  import M = MsgCodec
  import Utf8
  import WireTheory

  predicate ForeignToMsg(b: B.BookValue) {
    forall f | f in b.unknown :: !M.Known(f)
  }

  lemma BookFieldsForeign(b: B.BookValue)
    ensures (forall f | f in B.Fields(b) :: !M.Known(f)) <==> ForeignToMsg(b)
  {
    forall f | f in b.unknown ensures f in B.Fields(b) {
    }
  }

  /**
   * A Book lands whole among the unknown records of a MsgData exactly when none of its own unknown
   * records is one that MsgData knows; a Book without unknown records always does.
   */
  lemma LandsUnknown(b: B.BookValue)
    requires B.Sized(b)
    ensures M.Parse(M.EMPTY, B.Serialize(b)) == Parsed(M.MsgValue(0, [], B.Fields(b))) <==> ForeignToMsg(b)
  {
    BookFieldsForeign(b);
    B.FieldsWellFormed(b);
    WireTheory.TokenizeRoundTrip(B.Fields(b));
    var fs := B.Fields(b);
    if ForeignToMsg(b) {
      M.ApplyOnlyUnknown(M.EMPTY, fs);
      assert [] + fs == fs;
    } else if M.ApplyAll(M.EMPTY, fs).Kept? {
      M.CollectsUnknown(M.EMPTY, fs);
      assert [] + Unknown(M.Known, fs) == Unknown(M.Known, fs);
    }
  }

  /** Then its bytes come back unchanged, and still parse as that Book. */
  lemma LosslessPassThrough(b: B.BookValue)
    requires B.WellFormed(b) && ForeignToMsg(b)
    ensures var r := M.Parse(M.EMPTY, B.Serialize(b));
            && r.Parsed?
            && M.Serialize(r.value) == B.Serialize(b)
            && B.Parse(B.EMPTY, M.Serialize(r.value)) == Parsed(b)
  {
    LandsUnknown(b);
    var m := M.MsgValue(0, [], B.Fields(b));
    assert M.Fields(m) == B.Fields(b);
    B.RoundTrip(b);
  }

  /** Two Books that agree on every declared field. */
  predicate SameFields(x: B.BookValue, y: B.BookValue) {
    x.name == y.name && x.pages == y.pages && x.price == y.price
  }

  /** Applying only the records that MsgData does not know sets the same Book fields. */
  lemma {:induction false} FilterKeepsBook(x: B.BookValue, y: B.BookValue, fs: seq<Field>)
    requires SameFields(x, y) && B.ApplyAll(x, fs).Kept?
    ensures B.ApplyAll(y, Unknown(M.Known, fs)).Kept?
    ensures SameFields(B.ApplyAll(x, fs).value, B.ApplyAll(y, Unknown(M.Known, fs)).value)
    decreases fs
  {
    if fs != [] {
      var x' := B.Apply(x, fs[0]).value;
      if M.Known(fs[0]) {
        FilterKeepsBook(x', y, fs[1..]);
      } else {
        var us := Unknown(M.Known, fs[1..]);
        assert Unknown(M.Known, fs) == [fs[0]] + us && ([fs[0]] + us)[1..] == us;
        FilterKeepsBook(x', B.Apply(y, fs[0]).value, fs[1..]);
      }
    }
  }

  function OwnFields(m: M.MsgValue): seq<Field> {
    M.IdFields(m) + M.TextFields(m)
  }

  lemma OwnFieldsForeign(m: M.MsgValue)
    ensures forall f | f in OwnFields(m) :: !B.Known(f)
  {
  }

  /** The fields of a MsgData are foreign to Book, so its unknown records alone decide what Book sees. */
  lemma ReadAsBook(m: M.MsgValue)
    requires M.WellFormed(m)
    ensures B.ApplyAll(B.EMPTY, OwnFields(m)) == Kept(B.EMPTY.(unknown := OwnFields(m)))
    ensures Tokenize(M.Serialize(m)) == Tokens(M.Fields(m), Clean)
    ensures B.ApplyAll(B.EMPTY, M.Fields(m)) == B.ApplyAll(B.EMPTY.(unknown := OwnFields(m)), m.unknown)
  {
    WireTheory.TokenizeRoundTrip(M.Fields(m));
    Assoc(M.IdFields(m), M.TextFields(m), m.unknown);
    var own := OwnFields(m);
    OwnFieldsForeign(m);
    B.ApplyUnknown(B.EMPTY, own);
    assert [] + own == own;
    ApplyAllAppend(B.Apply, B.EMPTY, own, m.unknown);
  }

  /**
   * Even when records collide, whatever a MsgData program parses from the bytes of a Book and writes
   * again still parses as a Book with the same name, pages and price.
   */
  lemma PassThroughKeepsFields(b: B.BookValue)
    requires B.WellFormed(b) && M.Parse(M.EMPTY, B.Serialize(b)).Parsed?
    ensures var m := M.Parse(M.EMPTY, B.Serialize(b)).value;
            var r := B.Parse(B.EMPTY, M.Serialize(m));
            r.Parsed? && SameFields(r.value, b)
  {
    var fs := B.Fields(b);
    B.FieldsWellFormed(b);
    WireTheory.TokenizeRoundTrip(fs);
    B.RoundTrip(b);
    var m := M.Parse(M.EMPTY, B.Serialize(b)).value;
    assert m.unknown == Unknown(M.Known, fs) by {
      M.CollectsUnknown(M.EMPTY, fs);
      assert [] + Unknown(M.Known, fs) == Unknown(M.Known, fs);
    }
    M.ParsedIsWellFormed(B.Serialize(b));
    ReadAsBook(m);
    FilterKeepsBook(B.EMPTY, B.ApplyAll(B.EMPTY, OwnFields(m)).value, fs);
  }

  // ---------------------------------------------------------------- the other way round

  predicate ForeignToBook(m: M.MsgValue) {
    forall f | f in m.unknown :: !B.Known(f)
  }

  lemma MsgFieldsForeign(m: M.MsgValue)
    ensures (forall f | f in M.Fields(m) :: !B.Known(f)) <==> ForeignToBook(m)
  {
    forall f | f in m.unknown ensures f in M.Fields(m) {
    }
  }

  /** A MsgData lands whole among the unknown records of a Book exactly when Book knows none of its own. */
  lemma LandsUnknownInBook(m: M.MsgValue)
    requires M.Sized(m)
    ensures B.Parse(B.EMPTY, M.Serialize(m)) == Parsed(B.BookValue([], 0, 0, M.Fields(m))) <==> ForeignToBook(m)
  {
    MsgFieldsForeign(m);
    var fs := M.Fields(m);
    WireTheory.TokenizeRoundTrip(fs);
    if ForeignToBook(m) {
      B.ApplyUnknown(B.EMPTY, fs);
      assert [] + fs == fs;
    } else if B.ApplyAll(B.EMPTY, fs).Kept? {
      B.CollectsUnknown(B.EMPTY, fs);
      assert [] + Unknown(B.Known, fs) == Unknown(B.Known, fs);
    }
  }

  /** Then its bytes come back unchanged, and still parse as that MsgData. */
  lemma LosslessThroughBook(m: M.MsgValue)
    requires M.WellFormed(m) && ForeignToBook(m)
    ensures var r := B.Parse(B.EMPTY, M.Serialize(m));
            && r.Parsed?
            && B.Serialize(r.value) == M.Serialize(m)
            && M.Parse(M.EMPTY, B.Serialize(r.value)) == Parsed(m)
  {
    LandsUnknownInBook(m);
    var b := B.BookValue([], 0, 0, M.Fields(m));
    assert B.Fields(b) == M.Fields(m);
    M.RoundTrip(m);
  }

  // ---------------------------------------------------------------- which bytes come back

  predicate WritesId(f: Field) {
    M.IsId(f) && f.value.v != 0 && f.value.v == SignExtend(ToInt32(f.value.v))
  }

  predicate WritesText(f: Field) {
    M.IsText(f) && f.value.data != [] && Utf8.Valid(f.value.data)
  }

  /** Are these records what a MsgData program writes: at most an id, at most a text, then foreign ones? */
  predicate MsgWrites(fs: seq<Field>) {
    var id := if fs != [] && WritesId(fs[0]) then 1 else 0;
    var text := id + if |fs| > id && WritesText(fs[id]) then 1 else 0;
    forall f | f in fs[text..] :: !M.Known(f)
  }

  lemma WritesOwn(m: M.MsgValue)
    requires M.WellFormed(m)
    ensures MsgWrites(M.Fields(m))
  {
    var fs, i, t := M.Fields(m), M.IdFields(m), M.TextFields(m);
    SignExtendRoundTrip(m.id);
    assert fs[|i| + |t|..] == m.unknown;
    assert fs[|i|..] == t + m.unknown;
  }

  lemma WrittenFrom(fs: seq<Field>) returns (m: M.MsgValue)
    requires AllWellFormed(fs) && MsgWrites(fs)
    ensures M.WellFormed(m) && M.Fields(m) == fs
  {
    var i := if fs != [] && WritesId(fs[0]) then 1 else 0;
    var t := i + if |fs| > i && WritesText(fs[i]) then 1 else 0;
    m := M.MsgValue(if i == 0 then 0 else ToInt32(fs[0].value.v), if t == i then [] else fs[i].value.data, fs[t..]);
    assert t > i ==> fs[i] in fs;
    assert forall f | f in fs[t..] :: f in fs;
    assert M.IdFields(m) == fs[..i];
    assert M.TextFields(m) == fs[i..t];
  }

  /** Written records come back from a MsgData program byte for byte exactly when it could have written them. */
  lemma MsgReturnsIff(fs: seq<Field>)
    requires AllWellFormed(fs)
    ensures var r := M.Parse(M.EMPTY, EncodeFields(fs));
            r.Parsed? && M.Serialize(r.value) == EncodeFields(fs) <==> MsgWrites(fs)
  {
    var r := M.Parse(M.EMPTY, EncodeFields(fs));
    if MsgWrites(fs) {
      var m := WrittenFrom(fs);
      M.RoundTrip(m);
    } else if r.Parsed? && M.Serialize(r.value) == EncodeFields(fs) {
      M.ParsedIsWellFormed(EncodeFields(fs));
      WireTheory.EncodeFieldsInjective(M.Fields(r.value), fs);
      WritesOwn(r.value);
    }
  }

  lemma OwnFirst(b: B.BookValue)
    requires !SameFields(b, B.EMPTY)
    ensures B.Fields(b) != [] && !M.Known(B.Fields(b)[0])
  {
  }

  /**
   * So a Book comes back byte for byte from a MsgData program exactly when its records are such; for
   * a Book with a name, pages or a price that is when none of its unknown records is known to MsgData.
   */
  lemma LosslessIff(b: B.BookValue)
    requires B.Sized(b)
    ensures var r := M.Parse(M.EMPTY, B.Serialize(b));
            r.Parsed? && M.Serialize(r.value) == B.Serialize(b) <==> MsgWrites(B.Fields(b))
    ensures ForeignToMsg(b) ==> MsgWrites(B.Fields(b))
    ensures !SameFields(b, B.EMPTY) ==> (MsgWrites(B.Fields(b)) <==> ForeignToMsg(b))
  {
    B.FieldsWellFormed(b);
    BookFieldsForeign(b);
    MsgReturnsIff(B.Fields(b));
    var fs := B.Fields(b);
    if !SameFields(b, B.EMPTY) {
      OwnFirst(b);
      assert fs[0..] == fs;
    } else if ForeignToMsg(b) {
      assert fs[0..] == fs;
    }
  }
}
