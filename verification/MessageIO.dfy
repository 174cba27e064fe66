/** What the generated message classes share. */
module MessageIO {
  import opened Bytes
  import opened Wire
  import opened MessageFold

  /**
   * Where a parse loop left off: at the end of the input, behind a tag that ends the message, or
   * with the null pointer. A pointer into the input is represented by the bytes it points at.
   */
  datatype Pointer = AtEnd | Behind(lastTag: UInt32, rest: seq<Byte>) | Null

  function PointerAfter<M>(o: Outcome<M>): Pointer {
    match o
    case Parsed(_) => AtEnd
    case StoppedAt(_, tag, rest) => Behind(tag, rest)
    case Rejected(_) => Null
    case Failed(_, _) => Null
  }

  lemma EncodeOne(f: Field, tag: Byte)
    requires Tag(f) == tag < 0x80
    ensures EncodeFields([f]) == [tag] + EncodeValue(f.number, f.value)
  {
    assert [f][1..] == [];
    assert EncodeFields([f]) == EncodeField(f) + [];
  }

  /** `now` is `was` with the bytes from `target` on overwritten by `done`. */
  ghost predicate Written(now: seq<Byte>, was: seq<Byte>, target: nat, done: seq<Byte>) {
    && target + |done| <= |was|
    && now == was[..target] + done + was[target + |done|..]
  }

  lemma NothingWritten(was: seq<Byte>, target: nat)
    requires target <= |was|
    ensures Written(was, was, target, [])
  {
    assert was[..target] + [] == was[..target];
  }

  /** If the field is `present`, appends `src` to what was written from `target` on over `was`. */
  method AppendIf(present: bool, src: seq<Byte>, buffer: array<Byte>, at: nat,
                  ghost was: seq<Byte>, ghost target: nat, ghost done: seq<Byte>)
    returns (end: nat)
    requires Written(buffer[..], was, target, done)
    requires at == target + |done| && (present ==> at + |src| <= buffer.Length)
    modifies buffer
    ensures var put := if present then src else [];
            end == at + |put| && Written(buffer[..], was, target, done + put)
  {
    if !present {
      assert done + [] == done;
      return at;
    }
    end := Copy(src, buffer, at);
    assert old(buffer[..at]) == was[..target] + done;
    assert old(buffer[at + |src|..]) == was[end..];
  }
}
