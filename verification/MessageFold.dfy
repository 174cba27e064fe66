/**
 * Parsing a message without a loop: split the input into records, then apply them in order to a
 * message value. The message type and the meaning of one record are parameters.
 */
module MessageFold {
  import opened Bytes
  import opened Wire
  import WireTheory

  /** One record applied: kept, or refused, in which case the value is what it leaves behind. */
  datatype Applied<+M> = Kept(value: M) | Refused(value: M)

  function Fold<M>(apply: (M, Field) -> Applied<M>, m: M, fs: seq<Field>): Applied<M>
    decreases fs
  {
    if fs == [] then Kept(m)
    else
      match apply(m, fs[0])
      case Refused(m') => Refused(m')
      case Kept(m') => Fold(apply, m', fs[1..])
  }

  /**
   * How a parse ends, with the value that the records before that point lead to. It is rejected
   * after a refused record. It fails when a record cannot be read; `broken` is the tag of that
   * record, if there is one, and what became of the field it was meant for is not in the value.
   */
  datatype Outcome<+M> =
    | Parsed(value: M)
    | StoppedAt(value: M, tag: UInt32, rest: seq<Byte>)
    | Rejected(value: M)
    | Failed(value: M, broken: Option<UInt32>)

  function ParseWith<M>(apply: (M, Field) -> Applied<M>, m: M, s: seq<Byte>): Outcome<M> {
    var t := Tokenize(s);
    match Fold(apply, m, t.fields)
    case Refused(m') => Rejected(m')
    case Kept(m') =>
      match t.ending
      case Clean => Parsed(m')
      case Stopped(tag, rest) => StoppedAt(m', tag, rest)
      case Malformed(broken) => Failed(m', broken)
  }

  // ---------------------------------------------------------------- applying records

  lemma ApplyOne<M>(apply: (M, Field) -> Applied<M>, m: M, f: Field)
    ensures Fold(apply, m, [f]) == apply(m, f)
  {
    assert [f][1..] == [];
  }

  lemma {:induction false} ApplyAllAppend<M>(apply: (M, Field) -> Applied<M>, m: M, fs: seq<Field>, gs: seq<Field>)
    ensures Fold(apply, m, fs + gs) ==
            match Fold(apply, m, fs)
            case Refused(m') => Refused(m')
            case Kept(m') => Fold(apply, m', gs)
    decreases fs
  {
    if fs == [] {
      assert fs + gs == gs;
    } else {
      assert (fs + gs)[0] == fs[0] && (fs + gs)[1..] == fs[1..] + gs;
      if apply(m, fs[0]).Kept? {
        ApplyAllAppend(apply, apply(m, fs[0]).value, fs[1..], gs);
      }
    }
  }

  /** What every record that is kept preserves holds in the end. */
  lemma {:induction false} ApplyAllKeeps<M(!new)>(apply: (M, Field) -> Applied<M>, inv: M -> bool, m: M, fs: seq<Field>)
    requires inv(m) && Fold(apply, m, fs).Kept?
    requires forall x: M, f: Field | inv(x) && f in fs && apply(x, f).Kept? :: inv(apply(x, f).value)
    ensures inv(Fold(apply, m, fs).value)
    decreases fs
  {
    if fs != [] {
      ApplyAllKeeps(apply, inv, apply(m, fs[0]).value, fs[1..]);
    }
  }

  /** The records that are not known, in order. */
  function Unknown(known: Field -> bool, fs: seq<Field>): (us: seq<Field>)
    ensures forall f | f in us :: f in fs && !known(f)
    ensures |us| <= |fs|
    ensures us == fs <==> forall f | f in fs :: !known(f)
    decreases fs
  {
    if fs == [] then []
    else
      var tail := Unknown(known, fs[1..]);
      assert forall f :: f in fs <==> f == fs[0] || f in fs[1..];
      if known(fs[0]) then tail else assert ([fs[0]] + tail)[1..] == tail; [fs[0]] + tail
  }

  /** A message that stores the records it does not know ends up with exactly those, in order. */
  lemma {:induction false} ApplyAllUnknown<M(!new)>(
    apply: (M, Field) -> Applied<M>, known: Field -> bool, unknownOf: M -> seq<Field>, m: M, fs: seq<Field>)
    requires Fold(apply, m, fs).Kept?
    requires forall x: M, f: Field | apply(x, f).Kept? ::
               unknownOf(apply(x, f).value) == unknownOf(x) + if known(f) then [] else [f]
    ensures unknownOf(Fold(apply, m, fs).value) == unknownOf(m) + Unknown(known, fs)
    decreases fs
  {
    if fs == [] {
      assert unknownOf(m) + [] == unknownOf(m);
    } else {
      var m' := apply(m, fs[0]).value;
      ApplyAllUnknown(apply, known, unknownOf, m', fs[1..]);
      assert unknownOf(m) + [] == unknownOf(m);
      Assoc(unknownOf(m), [fs[0]], Unknown(known, fs[1..]));
    }
  }

  // ---------------------------------------------------------------- parsing

  /** Parsing is a fold: after `s` parses cleanly, parsing goes on with `t` from the value it left. */
  lemma ParseAppend<M>(apply: (M, Field) -> Applied<M>, m: M, s: seq<Byte>, t: seq<Byte>)
    requires ParseWith(apply, m, s).Parsed?
    ensures ParseWith(apply, m, s + t) == ParseWith(apply, ParseWith(apply, m, s).value, t)
  {
    WireTheory.TokenizeAppend(s, t);
    ApplyAllAppend(apply, m, Tokenize(s).fields, Tokenize(t).fields);
  }

  lemma ParseEnd<M>(apply: (M, Field) -> Applied<M>, m: M)
    ensures ParseWith(apply, m, []) == Parsed(m)
  {
  }

  lemma ParseStop<M>(apply: (M, Field) -> Applied<M>, m: M, s: seq<Byte>, tag: UInt32, r: seq<Byte>)
    requires s != [] && ReadTag(s) == Got(tag, r) && IsStop(tag)
    ensures ParseWith(apply, m, s) == StoppedAt(m, tag, r)
  {
  }

  lemma ParseBadTag<M>(apply: (M, Field) -> Applied<M>, m: M, s: seq<Byte>)
    requires s != [] && ReadTag(s).Fail?
    ensures ParseWith(apply, m, s) == Failed(m, None)
  {
  }

  /** One turn of a parse loop behind a tag: read the value, apply the record, go on behind it. */
  lemma ParseRecord<M>(apply: (M, Field) -> Applied<M>, m: M, s: seq<Byte>, tag: UInt32, r: seq<Byte>)
    requires s != [] && ReadTag(s) == Got(tag, r) && !IsStop(tag)
    ensures ParseWith(apply, m, s) ==
            match ReadValue(tag, r)
            case Fail => Failed(m, Some(tag))
            case Got(v, rest) =>
              match apply(m, Field(tag / 8, v))
              case Refused(m') => Rejected(m')
              case Kept(m') => ParseWith(apply, m', rest)
  {
    match ReadValue(tag, r)
    case Fail => assert ReadItem(s) == Bad(Some(tag));
    case Got(v, rest) =>
      var f, t := Field(tag / 8, v), Tokenize(rest);
      assert ReadItem(s) == Record(f, rest);
      assert ([f] + t.fields)[0] == f && ([f] + t.fields)[1..] == t.fields;
  }
}
