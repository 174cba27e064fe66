/**
 * The callback sessions: `handle_read` is called with each arrival and keeps a partial head or a
 * partial body between calls. Two servers share the loop; one has an id in its frame head, the
 * other, which carries protobuf messages, has only a length.
 */
module PushSession {
  import opened Bytes
  import opened Frames

  const MAX_LENGTH := 2048

  datatype Kind = IdAndLength | LengthOnly

  function HeadLength(kind: Kind): nat {
    match kind case IdAndLength => 4 case LengthOnly => 2
  }

  datatype Head =
    | Drop                          // an id or length over MAX_LENGTH: the session is cleared
    | Fault                         // a negative length; what the program does then is not modelled
    | Body(id: Int16, len: nat)

  /** The head at the front of these bytes: an id, if this kind has one, and then a length. */
  function DecodeHead(kind: Kind, s: seq<Byte>): (r: Head)
    requires |s| >= HeadLength(kind)
    ensures r.Body? ==> r.len <= MAX_LENGTH
  {
    var n := HeadLength(kind);
    var id := if kind.IdAndLength? then FromNetwork([s[0], s[1]]) else 0;
    var len := FromNetwork([s[n - 2], s[n - 1]]);
    if id > MAX_LENGTH || len > MAX_LENGTH then Drop
    else if len < 0 then Fault
    else Body(id, len)
  }

  /** A completed message, and whether its body was complete when its head was. */
  datatype Delivery = Whole(msg: Message) | Split(msg: Message)

  // ---------------------------------------------------------------- reference semantics

  datatype Rx =
    | AtHead(head: seq<Byte>)
    | InBody(id: Int16, len: nat, body: seq<Byte>)
    | Spent(msg: Message)           // a split body is complete but the head-parsed flag is still set
    | Closed(fault: bool)
    | Spinning                      // the handler never returns

  datatype Progress = Progress(rx: Rx, out: seq<Delivery>)

  /** The bytes since the last message boundary that reset the flag. */
  function FromHead(kind: Kind, s: seq<Byte>): Progress
    decreases |s|, 0
  {
    var h := HeadLength(kind);
    if |s| < h then Progress(AtHead(s), []) else AfterHead(kind, DecodeHead(kind, s), s[h..])
  }

  /** The bytes behind a complete head. */
  function AfterHead(kind: Kind, head: Head, behind: seq<Byte>): Progress
    decreases |behind|, 1
  {
    match head
    case Drop => Progress(Closed(false), [])
    case Fault => Progress(Closed(true), [])
    case Body(id, len) =>
      if |behind| < len then Progress(InBody(id, len, behind), [])
      else
        var p := FromHead(kind, behind[len..]);
        Progress(p.rx, [Whole(Message(id, behind[..len]))] + p.out)
  }

  /** One arrival. */
  function Arrive(kind: Kind, rx: Rx, chunk: seq<Byte>): Progress
    requires chunk != []
  {
    match rx
    case AtHead(head) => FromHead(kind, head + chunk)
    case InBody(id, len, body) =>
      var all := body + chunk;
      if |all| < len then Progress(InBody(id, len, all), [])
      else
        var m := Message(id, all[..len]);
        Progress(if |all| == len then Spent(m) else Spinning, [Split(m)])
    case Spent(_) => Progress(Spinning, [])
    case Closed(_) => Progress(rx, [])
    case Spinning => Progress(rx, [])
  }

  predicate NonEmpty(chunks: seq<seq<Byte>>) {
    forall i | 0 <= i < |chunks| :: chunks[i] != []
  }

  function ArriveAll(kind: Kind, rx: Rx, chunks: seq<seq<Byte>>): Progress
    requires NonEmpty(chunks)
    decreases chunks
  {
    if chunks == [] then Progress(rx, [])
    else
      var p := Arrive(kind, rx, chunks[0]);
      var q := ArriveAll(kind, p.rx, chunks[1..]);
      Progress(q.rx, p.out + q.out)
  }

  // ---------------------------------------------------------------- one turn of the loop

  datatype Turned = Turned(body: seq<Byte>, rest: seq<Byte>, out: seq<Delivery>, again: bool)

  /** A turn of the loop with the head-parsed flag set, as written: there is no case for an old body. */
  function BodyTurn(id: Int16, len: nat, body: seq<Byte>, rest: seq<Byte>): (t: Turned)
    requires |body| <= len
    ensures |t.body| <= len
  {
    var remind := len - |body|;
    if |rest| < remind then Turned(body + rest, [], [], false)
    else
      var full := body + rest[..remind];
      Turned(full, rest[remind..], [Split(Message(id, full))], rest[remind..] != [])
  }

  lemma TurnPartialHead(kind: Kind, head: seq<Byte>, rest: seq<Byte>)
    requires rest != [] && |head| + |rest| < HeadLength(kind)
    ensures Arrive(kind, AtHead(head), rest) == Progress(AtHead(head + rest), [])
  {
  }

  lemma TurnBoundary(kind: Kind, rest: seq<Byte>)
    requires rest != []
    ensures Arrive(kind, AtHead([]), rest) == FromHead(kind, rest)
  {
    assert [] + rest == rest;
  }

  /** A body that is whole when its head is: it is delivered, and the bytes behind it begin afresh. */
  lemma TurnWhole(kind: Kind, id: Int16, body: seq<Byte>, rest: seq<Byte>, behind: seq<Byte>, had: seq<Delivery>)
    requires |body| <= |behind| && body == behind[..|body|] && rest == behind[|body|..]
    ensures var p := AfterHead(kind, Body(id, |body|), behind);
            var q := if rest == [] then Progress(AtHead([]), []) else Arrive(kind, AtHead([]), rest);
            p.rx == q.rx && had + p.out == had + [Whole(Message(id, body))] + q.out
  {
    Assoc(had, [Whole(Message(id, body))], FromHead(kind, rest).out);
    assert FromHead(kind, []) == Progress(AtHead([]), []);
    if rest != [] {
      TurnBoundary(kind, rest);
    }
  }

  lemma TurnHead(kind: Kind, was: seq<Byte>, chunk: seq<Byte>, head: seq<Byte>, behind: seq<Byte>)
    requires |head| == HeadLength(kind) && head + behind == was + chunk && chunk != []
    ensures Arrive(kind, AtHead(was), chunk) == AfterHead(kind, DecodeHead(kind, head), behind)
  {
    Halves(head, behind);
  }

  lemma TurnBody(kind: Kind, id: Int16, len: nat, body: seq<Byte>, rest: seq<Byte>)
    requires |body| <= len && rest != []
    ensures var rx := if |body| == len then Spent(Message(id, body)) else InBody(id, len, body);
            var remind := len - |body|;
            Arrive(kind, rx, rest) ==
            if remind == 0 then Progress(Spinning, [])
            else if |rest| < remind then Progress(InBody(id, len, body + rest), [])
            else
              var m := Message(id, body + rest[..remind]);
              Progress(if |rest| == remind then Spent(m) else Spinning, [Split(m)])
  {
    if |rest| >= len - |body| {
      assert (body + rest)[..len] == body + rest[..len - |body|];
    }
  }

  // ---------------------------------------------------------------- the session object

  datatype Status = Reading | Dropped | Faulted | Stuck

  class Session {
    const kind: Kind
    var head: seq<Byte>             // _recv_head_node, the bytes received so far
    var headParsed: bool            // _b_head_parse
    var bodyId: Int16               // _recv_msg_node: id, size and the bytes received so far
    var bodyLen: nat
    var body: seq<Byte>
    var delivered: seq<Delivery>
    var status: Status

    ghost predicate Valid()
      reads this
    {
      && (status.Reading? && !headParsed ==> |head| < HeadLength(kind))
      && (status.Reading? && headParsed ==> |body| <= bodyLen)
    }

    ghost function State(): Rx
      reads this
    {
      match status
      case Dropped => Closed(false)
      case Faulted => Closed(true)
      case Stuck => Spinning
      case Reading =>
        if !headParsed then AtHead(head)
        else if |body| == bodyLen then Spent(Message(bodyId, body))
        else InBody(bodyId, bodyLen, body)
    }

    constructor (kind: Kind)
      ensures this.kind == kind && Valid() && State() == AtHead([]) && delivered == []
    {
      this.kind, head, headParsed := kind, [], false;
      bodyId, bodyLen, body, delivered, status := 0, 0, [], [], Reading;
    }

    /**
     * What a turn of the loop owes when `p` is to come of it and of the turns after it: to have done
     * all that, or to leave fewer than `size` bytes from which the rest of it will come.
     */
    ghost predicate Step(p: Progress, had: seq<Delivery>, size: nat, again: bool, left: seq<Byte>)
      reads this
    {
      && Valid()
      && if again then
           && status.Reading? && 0 < |left| < size
           && p.rx == Arrive(kind, State(), left).rx
           && had + p.out == delivered + Arrive(kind, State(), left).out
         else State() == p.rx && delivered == had + p.out
    }

    /** The head with the bytes it still needed, and the bytes behind it. */
    method CompleteHead(chunk: seq<Byte>) returns (whole: seq<Byte>, behind: seq<Byte>)
      requires |head| < HeadLength(kind) <= |head| + |chunk|
      ensures whole + behind == head + chunk
      ensures |whole| == HeadLength(kind) && |behind| < |chunk|
    {
      var headRemind := HeadLength(kind) - |head|;
      Assoc(head, chunk[..headRemind], chunk[headRemind..]);
      assert chunk[..headRemind] + chunk[headRemind..] == chunk;
      whole, behind := head + chunk[..headRemind], chunk[headRemind..];
    }

    /** The body is there: it is delivered, and the head starts afresh. */
    method Deliver(id: Int16, len: nat, behind: seq<Byte>, ghost size: nat, ghost p: Progress)
      returns (again: bool, rest: seq<Byte>)
      requires status.Reading? && !headParsed && len <= |behind| < size
      requires p == AfterHead(kind, Body(id, len), behind)
      modifies this
      ensures Step(p, old(delivered), size, again, rest)
    {
      body, rest := behind[..len], behind[len..];
      TurnWhole(kind, id, body, rest, behind, delivered);
      delivered := delivered + [Whole(Message(id, body))];
      headParsed, head := false, [];
      again := rest != [];
    }

    /** The rest of that turn, behind a complete head. */
    method TakeBodyBehind(whole: seq<Byte>, decoded: Head, behind: seq<Byte>, ghost size: nat, ghost p: Progress)
      returns (again: bool, rest: seq<Byte>)
      requires status.Reading? && !headParsed && |behind| < size
      requires p == AfterHead(kind, decoded, behind)
      modifies this
      ensures Step(p, old(delivered), size, again, rest)
    {
      head, again, rest := whole, false, behind;
      match decoded {
        case Drop => status := Dropped;
        case Fault => status := Faulted;
        case Body(id, len) =>
          bodyId, bodyLen := id, len;
          if |behind| < len {
            body, headParsed := behind, true;
            return;
          }
          again, rest := Deliver(id, len, behind, size, p);
      }
    }

    /** The turn that looks for a head; it may not even find all of that. */
    method TakeHead(chunk: seq<Byte>, ghost p: Progress) returns (again: bool, rest: seq<Byte>)
      requires Valid() && status.Reading? && !headParsed && chunk != []
      requires p == Arrive(kind, State(), chunk)
      modifies this
      ensures Step(p, old(delivered), |chunk|, again, rest)
    {
      if |chunk| + |head| < HeadLength(kind) {
        TurnPartialHead(kind, head, chunk);
        head := head + chunk;
        return false, [];
      }
      var whole, behind := CompleteHead(chunk);
      TurnHead(kind, head, chunk, whole, behind);
      again, rest := TakeBodyBehind(whole, DecodeHead(kind, whole), behind, |chunk|, p);
    }

    /**
     * The turn that goes on with a body. With the flag still set and the old body complete it
     * delivers that body again and consumes nothing, so the loop never ends (see SpinsForever and
     * SpinningIff); the model stops there, before the repetition, with status Stuck.
     */
    method TakeBody(chunk: seq<Byte>, ghost p: Progress) returns (again: bool, rest: seq<Byte>)
      requires Valid() && status.Reading? && headParsed && chunk != []
      requires p == Arrive(kind, State(), chunk)
      modifies this
      ensures Step(p, old(delivered), |chunk|, again, rest)
      ensures old(|body| < bodyLen) ==>
                var t := BodyTurn(old(bodyId), old(bodyLen), old(body), chunk);
                t.body == body && t.again == again && old(delivered) + t.out == delivered && (again ==> t.rest == rest)
    {
      again, rest := false, chunk;
      var remind := bodyLen - |body|;
      TurnBody(kind, bodyId, bodyLen, body, rest);
      if remind == 0 {
        status := Stuck;
        return;
      }
      if |rest| < remind {
        body := body + rest;
        return;
      }
      body, rest := body + rest[..remind], rest[remind..];
      delivered := delivered + [Split(Message(bodyId, body))];
      again := rest != [];
    }

    /** The read handler: turns over what one arrival brought. */
    method HandleRead(chunk: seq<Byte>)
      requires Valid() && status.Reading? && chunk != []
      modifies this
      ensures Valid()
      ensures State() == Arrive(kind, old(State()), chunk).rx
      ensures delivered == old(delivered) + Arrive(kind, old(State()), chunk).out
    {
      var again, rest := true, chunk;
      ghost var p := Arrive(kind, State(), chunk);
      while again
        invariant Valid()
        invariant again ==> status.Reading? && rest != [] && p.rx == Arrive(kind, State(), rest).rx
        invariant again ==> old(delivered) + p.out == delivered + Arrive(kind, State(), rest).out
        invariant !again ==> State() == p.rx && delivered == old(delivered) + p.out
        decreases again, |rest|
      {
        if !headParsed {
          again, rest := TakeHead(rest, Arrive(kind, State(), rest));
        } else {
          again, rest := TakeBody(rest, Arrive(kind, State(), rest));
        }
      }
    }
  }

  // ---------------------------------------------------------------- the loop that never ends

  /** Up to `n` turns, as long as the loop goes on. */
  function BodyTurns(id: Int16, len: nat, body: seq<Byte>, rest: seq<Byte>, n: nat): Turned
    requires |body| <= len
    decreases n
  {
    var t := BodyTurn(id, len, body, rest);
    if n == 0 then Turned(body, rest, [], true)
    else if !t.again then t
    else
      var u := BodyTurns(id, len, t.body, t.rest, n - 1);
      Turned(u.body, u.rest, t.out + u.out, u.again)
  }

  /** From a complete body with bytes left, any number of turns repeat the message and go on. */
  lemma {:induction false} SpinsForever(id: Int16, body: seq<Byte>, rest: seq<Byte>, n: nat)
    requires rest != []
    ensures BodyTurns(id, |body|, body, rest, n) ==
            Turned(body, rest, seq(n, i => Split(Message(id, body))), true)
  {
    if n > 0 {
      assert body + rest[..0] == body;
      SpinsForever(id, body, rest, n - 1);
    }
  }

  lemma TurnsGoOn(id: Int16, len: nat, body: seq<Byte>, chunk: seq<Byte>, n: nat)
    requires |body| <= len && |body| + |chunk| > len
    ensures BodyTurns(id, len, body, chunk, n).again
  {
    if n > 0 {
      var t := BodyTurn(id, len, body, chunk);
      SpinsForever(id, t.body, t.rest, n - 1);
    }
  }

  /** The reference semantics says that the session hangs exactly when the loop as written never ends. */
  lemma SpinningIff(kind: Kind, id: Int16, len: nat, body: seq<Byte>, chunk: seq<Byte>)
    requires |body| <= len && chunk != []
    ensures var rx := if |body| == len then Spent(Message(id, body)) else InBody(id, len, body);
            Arrive(kind, rx, chunk).rx == Spinning <==> forall n: nat :: BodyTurns(id, len, body, chunk, n).again
  {
    if |body| + |chunk| > len {
      forall n: nat ensures BodyTurns(id, len, body, chunk, n).again {
        TurnsGoOn(id, len, body, chunk, n);
      }
    } else {
      assert !BodyTurns(id, len, body, chunk, 1).again;
    }
  }
}
