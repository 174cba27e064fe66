/** The protobuf chat from end to end: client request, server session, server reply, client display. */
module Chat {
  import opened Bytes
  import opened Frames
  import opened MsgCodec
  import opened MsgMessage
  import opened PushSession
  import opened PushTheory
  import opened Readers
  import Wire
  import MessageFold
  import Utf8
  import Varint

  const CLIENT_BUFFER := 2048
  const HEAD := 2

  // ---------------------------------------------------------------- the reply text

  /** The bytes of a literal, all of whose characters are ASCII. */
  function Ascii(s: string): (b: seq<Byte>)
    ensures |b| == |s| && forall i | 0 <= i < |b| :: b[i] < 0x80
    ensures forall i | 0 <= i < |b| && s[i] as int < 0x80 :: b[i] == s[i] as int
  {
    seq(|s|, i requires 0 <= i < |s| => s[i] as int % 0x80)
  }

  lemma {:induction false} AsciiIsUtf8(b: seq<Byte>)
    requires forall i | 0 <= i < |b| :: b[i] < 0x80
    ensures Utf8.Valid(b)
    decreases b
  {
    if b != [] {
      AsciiIsUtf8(b[1..]);
    }
  }

  const REPLY_TEXT := "server has received msg, msg data is "

  function ReplyText(text: seq<Byte>): seq<Byte> {
    Ascii(REPLY_TEXT) + text
  }

  // ---------------------------------------------------------------- the client

  function Request(id: Int32, text: seq<Byte>): MsgValue {
    MsgValue(id, text, [])
  }

  lemma TextFits(m: MsgValue)
    ensures |m.text| <= |Serialize(m)|
  {
    SerializeParts(m);
  }

  /** The client fills its send buffer with a length head and the serialized message. */
  method SendRequest(id: Int32, text: seq<Byte>) returns (sendData: array<Byte>, length: nat)
    requires HEAD + |Serialize(Request(id, text))| <= CLIENT_BUFFER
    ensures sendData.Length == CLIENT_BUFFER && length <= CLIENT_BUFFER
    ensures sendData[..length] == Frame(LengthOnly, Message(0, Serialize(Request(id, text))))
  {
    var msg := new MsgData();
    msg.id, msg.text := id, text;
    TextFits(Request(id, text));
    var serialized := msg.SerializeToString();
    var request := serialized.value;
    var requestLength := ToInt16(request.Length);
    sendData := new Byte[CLIENT_BUFFER](_ => 0);
    var end := Copy(ToNetwork(requestLength), sendData, 0);
    end := Copy(request[..requestLength], sendData, HEAD);
    length := requestLength + HEAD;
  }

  /** How the client's main ends. */
  datatype Shown =
    | Displayed(msg: MsgValue)        // the fields that parsing left, whether it succeeded or not
    | Lost                            // the connection ended before the read did
    | Overread(claimed: nat)          // the parser is told to read past the end of the array
    | NegativeLength                  // the parser is given a negative length

  /** What may come of the bytes that come back; the read itself is clipped to the array. */
  ghost predicate Shows(s: seq<Byte>, shown: Shown) {
    if |s| < HEAD then shown == Lost
    else
      var len := FromNetwork(s[..HEAD]);
      if |s| - HEAD < Clipped(len, CLIENT_BUFFER) then shown == Lost
      else if len < 0 then shown == NegativeLength
      else if len > CLIENT_BUFFER then shown == Overread(len)
      else shown.Displayed? && Leaves(Parse(EMPTY, s[HEAD..HEAD + len]), shown.msg)
  }

  /** Which of these happens: the read wants at most 2048 bytes behind the head, whatever the length says. */
  lemma ShowsMeans(s: seq<Byte>, shown: Shown)
    requires |s| >= 2 && Shows(s, shown)
    ensures var len := FromNetwork(s[..2]);
            var wanted := if 0 <= len <= 2048 then len else 2048;
            && (shown == Lost <==> |s| < 2 + wanted)
            && (shown == NegativeLength <==> len < 0 && |s| >= 2 + 2048)
            && (shown.Overread? <==> len > 2048 && |s| >= 2 + 2048)
  {
  }

  method ReceiveReply(socket: Socket) returns (shown: Shown)
    modifies socket
    ensures Shows(old(socket.Pending()), shown)
    ensures !shown.Lost? ==>
              var s := old(socket.Pending());
              var len := FromNetwork(s[..2]);
              socket.Pending() == s[2 + if 0 <= len <= 2048 then len else 2048..]
  {
    ghost var s := socket.Pending();
    var head := socket.ReadExactly(HEAD);
    if head.None? {
      return Lost;
    }
    var len := FromNetwork(head.value);
    var body := socket.ReadExactly(Clipped(len, CLIENT_BUFFER));
    if body.None? {
      return Lost;
    }
    if len < 0 {
      return NegativeLength;
    }
    if len > CLIENT_BUFFER {
      return Overread(len);
    }
    assert body.value == s[HEAD..HEAD + len];
    var msg := new MsgData();
    var _ := msg.ParseFromString(body.value);
    shown := Displayed(msg.Value());
  }

  // ---------------------------------------------------------------- the server

  /**
   * The answer to a delivery: a message that came split is sent back as it is; one that came whole
   * is parsed, and whatever id and text that left are sent, whether or not it succeeded.
   */
  ghost predicate Answers(d: Delivery, answer: seq<Byte>) {
    match d
    case Split(m) => answer == m.payload
    case Whole(m) =>
      exists v: MsgValue ::
        Leaves(Parse(EMPTY, m.payload), v) && answer == Serialize(Request(v.id, ReplyText(v.text)))
  }

  /** The bytes that the id takes. */
  function IdSize(id: Int32): nat {
    if id == 0 then 0 else 1 + Varint.Size(SignExtend(id))
  }

  /** The text, the id, the server's words, and three bytes for the tag and the length of the answer. */
  predicate AnswerFits(id: Int32, text: seq<Byte>) {
    |text| + IdSize(id) + |REPLY_TEXT| + 3 <= CLIENT_BUFFER
  }

  /**
   * The answer to a request that fits the client's send buffer fits its receive buffer exactly when
   * text and id together leave room for the server's words; its length is a positive `short`.
   */
  lemma AnswerSize(id: Int32, text: seq<Byte>)
    requires |text| <= CLIENT_BUFFER + Wire.SLOP_BYTES
    ensures var size := |Serialize(Request(id, ReplyText(text)))|;
            size <= 0x7FFF && (size <= CLIENT_BUFFER <==> AnswerFits(id, text))
  {
    var m := Request(id, ReplyText(text));
    SerializeParts(m);
    Varint.SizeIsLength(SignExtend(id));
    Varint.SizeIsLength(|m.text|);
  }

  /** A message whose text is not valid UTF-8 is refused by the parse, and answered all the same. */
  lemma RejectedAnswered(m: Frames.Message, v: MsgValue, answer: seq<Byte>)
    requires Parse(EMPTY, m.payload) == MessageFold.Rejected(v)
    ensures Answers(Whole(m), answer) <==> answer == Serialize(Request(v.id, ReplyText(v.text)))
  {
  }

  method AnswerDelivery(d: Delivery) returns (answer: seq<Byte>, frame: seq<Byte>)
    requires |d.msg.payload| <= PushSession.MAX_LENGTH
    ensures Answers(d, answer)
    ensures frame == Frame(LengthOnly, Message(0, answer))
  {
    answer := d.msg.payload;
    if d.Whole? {
      var msgdata := new MsgData();
      var _ := msgdata.ParseFromString(answer);
      ghost var v := msgdata.Value();
      assert Leaves(Parse(EMPTY, d.msg.payload), v);
      var msgreturn := new MsgData();
      msgreturn.id, msgreturn.text := msgdata.id, Ascii(REPLY_TEXT) + msgdata.text;
      assert msgreturn.Value() == Request(v.id, ReplyText(v.text));
      AnswerSize(v.id, v.text);
      var out := msgreturn.SerializeToString();
      answer := out.value[..];
    }
    frame := ToNetwork(ToInt16(|answer|)) + answer;
  }

  // ---------------------------------------------------------------- one message on its way

  lemma Unframe(bytes: seq<Byte>)
    requires |bytes| <= 0x7FFF
    ensures var s := Frame(LengthOnly, Message(0, bytes));
            |s| == HEAD + |bytes| && FromNetwork(s[..HEAD]) == |bytes| && s[HEAD..] == bytes
  {
    NetworkRoundTrip(ToInt16(|bytes|), bytes);
  }

  /** What comes of a message that the parse refuses for its text: the client shows it all the same. */
  lemma RejectedShown(payload: seq<Byte>, v: MsgValue, shown: Shown)
    requires Parse(EMPTY, payload) == MessageFold.Rejected(v) && |payload| <= 2048
    ensures Shows(Frame(LengthOnly, Message(0, payload)), shown) <==> shown == Displayed(v)
  {
    var s := Frame(LengthOnly, Message(0, payload));
    Unframe(payload);
    assert s[HEAD..HEAD + |payload|] == s[HEAD..];
  }

  lemma ReplyWellFormed(id: Int32, text: seq<Byte>)
    requires Utf8.Valid(text) && |text| <= CLIENT_BUFFER
    ensures WellFormed(Request(id, ReplyText(text)))
  {
    AsciiIsUtf8(Ascii(REPLY_TEXT));
    Utf8.ValidAppend(Ascii(REPLY_TEXT), text);
  }

  /** A framed message is displayed exactly when it fits the client's receive buffer. */
  lemma ShowFrame(m: MsgValue, shown: Shown)
    requires WellFormed(m) && |Serialize(m)| <= 0x7FFF
    requires Shows(Frame(LengthOnly, Message(0, Serialize(m))), shown)
    ensures shown == if |Serialize(m)| <= CLIENT_BUFFER then Displayed(m) else Overread(|Serialize(m)|)
  {
    var bytes := Serialize(m);
    var s := Frame(LengthOnly, Message(0, bytes));
    Unframe(bytes);
    assert s[HEAD..HEAD + |bytes|] == s[HEAD..];
    RoundTrip(m);
  }

  /**
   * Request direction: for every id and every valid text whose request fits the client's buffer,
   * unframing and parsing what the client sends gives back the same id and text.
   */
  lemma RequestArrives(id: Int32, text: seq<Byte>)
    requires Utf8.Valid(text) && HEAD + |Serialize(Request(id, text))| <= CLIENT_BUFFER
    ensures var s := Frame(LengthOnly, Message(0, Serialize(Request(id, text))));
            var len := FromNetwork(s[..HEAD]);
            && len == |s| - HEAD
            && Parse(EMPTY, s[HEAD..]) == MessageFold.Parsed(Request(id, text))
  {
    TextFits(Request(id, text));
    RoundTrip(Request(id, text));
    Unframe(Serialize(Request(id, text)));
  }

  // ---------------------------------------------------------------- the exchange

  /** No arrival, the first one beginning at offset `at`, ends between the head and the last byte. */
  predicate Uncut(total: nat, at: nat, arrivals: seq<seq<Byte>>)
    decreases arrivals
  {
    arrivals == [] ||
    (var next := at + |arrivals[0]|; !(HEAD <= next < total) && Uncut(total, next, arrivals[1..]))
  }

  /** The first arrival brings all of a single message. */
  lemma SingleWhole(m: Frames.Message, head: seq<Byte>, arrivals: seq<seq<Byte>>)
    requires Acceptable(LengthOnly, m) && NonEmpty(arrivals) && arrivals != []
    requires head + Flatten(arrivals) == Frame(LengthOnly, m)
    requires |head + arrivals[0]| >= |Frame(LengthOnly, m)|
    ensures arrivals[1..] == [] && |head| + |arrivals[0]| == |Frame(LengthOnly, m)|
    ensures ArriveAll(LengthOnly, AtHead(head), arrivals).out == [Whole(m)]
  {
    var s, later, frame := head + arrivals[0], arrivals[1..], Frame(LengthOnly, m);
    Assoc(head, arrivals[0], Flatten(later));
    Align(s, Flatten(later), frame, []);
    NothingPending(later);
    WholeFirst(LengthOnly, m, []);
    assert s == frame + [] == frame;
    assert FromHead(LengthOnly, []) == Progress(AtHead([]), []);
  }

  /** The first arrival ends inside the body of a single message. */
  lemma SingleCut(m: Frames.Message, head: seq<Byte>, arrivals: seq<seq<Byte>>)
    requires Acceptable(LengthOnly, m) && NonEmpty(arrivals) && arrivals != []
    requires head + Flatten(arrivals) == Frame(LengthOnly, m)
    requires HEAD <= |head + arrivals[0]| < |Frame(LengthOnly, m)|
    ensures ArriveAll(LengthOnly, AtHead(head), arrivals).out == [Split(m)]
  {
    Assoc(head, arrivals[0], Flatten(arrivals[1..]));
    assert Frame(LengthOnly, m) + [] == Frame(LengthOnly, m);
    var rx := RestOfFirst(LengthOnly, m, [], head + arrivals[0], arrivals[1..]);
    SilentFirst(LengthOnly, head, arrivals, rx);
  }

  /** A single message is delivered once however it arrives: whole exactly when its body is not cut. */
  lemma {:induction false} SingleDelivery(m: Frames.Message, head: seq<Byte>, arrivals: seq<seq<Byte>>)
    requires Acceptable(LengthOnly, m) && NonEmpty(arrivals) && |head| < HEAD
    requires head + Flatten(arrivals) == Frame(LengthOnly, m)
    ensures ArriveAll(LengthOnly, AtHead(head), arrivals).out ==
            if Uncut(|Frame(LengthOnly, m)|, |head|, arrivals) then [Whole(m)] else [Split(m)]
    decreases arrivals
  {
    var s, later, frame := head + arrivals[0], arrivals[1..], Frame(LengthOnly, m);
    Assoc(head, arrivals[0], Flatten(later));
    if |s| < HEAD {
      ShortHead(LengthOnly, [m], head, arrivals);
      SingleDelivery(m, s, later);
    } else if |s| < |frame| {
      SingleCut(m, head, arrivals);
    } else {
      SingleWhole(m, head, arrivals);
    }
  }

  /** What the server answers to a request. */
  function Answer(id: Int32, text: seq<Byte>, whole: bool): MsgValue {
    Request(id, if whole then ReplyText(text) else text)
  }

  /** Does the client display that answer? */
  predicate Fits(id: Int32, text: seq<Byte>, whole: bool) {
    whole ==> AnswerFits(id, text)
  }

  lemma AnswerShown(id: Int32, text: seq<Byte>, whole: bool, shown: Shown)
    requires Utf8.Valid(text) && HEAD + |Serialize(Request(id, text))| <= CLIENT_BUFFER
    requires Shows(Frame(LengthOnly, Message(0, Serialize(Answer(id, text, whole)))), shown)
    ensures shown == if Fits(id, text, whole) then Displayed(Answer(id, text, whole))
                     else Overread(|Serialize(Answer(id, text, whole))|)
  {
    TextFits(Request(id, text));
    if whole {
      ReplyWellFormed(id, text);
      AnswerSize(id, text);
    }
    ShowFrame(Answer(id, text, whole), shown);
  }

  /**
   * For every id and every valid text whose request fits the client's buffer, however the request
   * is cut on its way: it is delivered once, and any answer to that delivery has the same id, and
   * the text behind the server's words if the body came in one piece, else the text alone. The
   * client displays exactly that answer, unless it came whole and is too long for its array.
   */
  lemma Exchange(id: Int32, text: seq<Byte>, arrivals: seq<seq<Byte>>, answer: seq<Byte>, shown: Shown)
    requires Utf8.Valid(text) && HEAD + |Serialize(Request(id, text))| <= CLIENT_BUFFER
    requires NonEmpty(arrivals)
    requires Flatten(arrivals) == Frame(LengthOnly, Message(0, Serialize(Request(id, text))))
    ensures var p := ArriveAll(LengthOnly, AtHead([]), arrivals);
            var whole := Uncut(|Flatten(arrivals)|, 0, arrivals);
            && (p.rx == AtHead([]) || p.rx.Spent?)
            && |p.out| == 1 && p.out[0].msg.payload == Serialize(Request(id, text))
            && (Answers(p.out[0], answer) ==> answer == Serialize(Answer(id, text, whole)))
            && (Answers(p.out[0], answer) && Shows(Frame(LengthOnly, Message(0, answer)), shown) ==>
                  shown == if Fits(id, text, whole) then Displayed(Answer(id, text, whole)) else Overread(|answer|))
  {
    var m := Message(0, Serialize(Request(id, text)));
    var whole := Uncut(|Flatten(arrivals)|, 0, arrivals);
    TextFits(Request(id, text));
    RoundTrip(Request(id, text));
    assert [] + Flatten(arrivals) == Flatten(arrivals);
    SingleDelivery(m, [], arrivals);
    assert FrameAll(LengthOnly, [m]) == Frame(LengthOnly, m) + [] == Frame(LengthOnly, m);
    assert FrameAll(LengthOnly, [m]) + [] == FrameAll(LengthOnly, [m]);
    FromBoundary(LengthOnly, [m], [], [], arrivals);
    CleanLast(LengthOnly, m, 0, arrivals);
    if Answers(if whole then Whole(m) else Split(m), answer) {
      assert answer == Serialize(Answer(id, text, whole));
      if Shows(Frame(LengthOnly, Message(0, answer)), shown) {
        AnswerShown(id, text, whole, shown);
      }
    }
  }

  /** A concrete family: with id 1001, an ASCII text of 2006 to 2040 bytes that arrives in one piece. */
  lemma OverlongAnswer(text: seq<Byte>, answer: seq<Byte>, shown: Shown)
    requires 2006 <= |text| <= 2040 && forall i | 0 <= i < |text| :: text[i] < 0x80
    ensures HEAD + |Serialize(Request(1001, text))| <= CLIENT_BUFFER
    ensures var frame := Frame(LengthOnly, Message(0, Serialize(Request(1001, text))));
            var p := ArriveAll(LengthOnly, AtHead([]), [frame]);
            && |p.out| == 1
            && (Answers(p.out[0], answer) && Shows(Frame(LengthOnly, Message(0, answer)), shown) ==>
                  |answer| > CLIENT_BUFFER && shown == Overread(|answer|))
  {
    var r := Request(1001, text);
    SerializeParts(r);
    Varint.SizeIsLength(SignExtend(1001));
    Varint.SizeIsLength(|text|);
    AsciiIsUtf8(text);
    AnswerSize(1001, text);
    var frame := Frame(LengthOnly, Message(0, Serialize(r)));
    var arrivals := [frame];
    assert arrivals[1..] == [];
    assert Flatten(arrivals) == frame + [] == frame;
    assert Uncut(|frame|, 0, arrivals);
    Exchange(1001, text, arrivals, answer, shown);
  }

  // ---------------------------------------------------------------- running it

  /** Cuts bytes into non-empty pieces, by the wanted sizes as far as they go. */
  function Cut(s: seq<Byte>, sizes: seq<nat>): (chunks: seq<seq<Byte>>)
    ensures NonEmpty(chunks) && Flatten(chunks) == s
    decreases |s|
  {
    if s == [] then []
    else if sizes == [] || sizes[0] == 0 || sizes[0] >= |s| then
      var whole := [s];
      assert whole[1..] == [] && s + [] == s;
      whole
    else
      var chunks := Cut(s[sizes[0]..], sizes[1..]);
      assert ([s[..sizes[0]]] + chunks)[1..] == chunks;
      assert s[..sizes[0]] + s[sizes[0]..] == s;
      [s[..sizes[0]]] + chunks
  }

  /** Every way to cut bytes into non-empty pieces is one of those. */
  lemma {:induction false} CutReaches(chunks: seq<seq<Byte>>) returns (sizes: seq<nat>)
    requires NonEmpty(chunks)
    ensures Cut(Flatten(chunks), sizes) == chunks
    decreases chunks
  {
    if chunks == [] {
      sizes := [];
    } else {
      var first, rest := chunks[0], Flatten(chunks[1..]);
      var more := CutReaches(chunks[1..]);
      sizes := [|first|] + more;
      assert sizes[1..] == more;
      NothingPending(chunks[1..]);
      Halves(first, rest);
      assert first + [] == first && chunks == [first] + chunks[1..];
    }
  }

  lemma {:induction false} DeadStays(kind: Kind, rx: Rx, chunks: seq<seq<Byte>>)
    requires NonEmpty(chunks) && (rx.Closed? || rx.Spinning?)
    ensures ArriveAll(kind, rx, chunks).rx == rx
    decreases chunks
  {
    if chunks != [] {
      DeadStays(kind, rx, chunks[1..]);
    }
  }

  lemma Alive(kind: Kind, rx: Rx, chunks: seq<seq<Byte>>)
    requires NonEmpty(chunks)
    requires var last := ArriveAll(kind, rx, chunks).rx; !last.Closed? && !last.Spinning?
    ensures !rx.Closed? && !rx.Spinning?
  {
    if rx.Closed? || rx.Spinning? {
      DeadStays(kind, rx, chunks);
    }
  }

  /** What is still to come of `todo`, behind what was had of it, makes up `p`. */
  ghost predicate Ahead(kind: Kind, rx: Rx, todo: seq<seq<Byte>>, had: seq<Delivery>, p: Progress) {
    && NonEmpty(todo)
    && ArriveAll(kind, rx, todo).rx == p.rx
    && had + ArriveAll(kind, rx, todo).out == p.out
  }

  lemma AheadStep(kind: Kind, rx: Rx, todo: seq<seq<Byte>>, had: seq<Delivery>, p: Progress)
    requires Ahead(kind, rx, todo, had, p) && todo != [] && !p.rx.Closed? && !p.rx.Spinning?
    ensures !rx.Closed? && !rx.Spinning?
    ensures var q := Arrive(kind, rx, todo[0]); Ahead(kind, q.rx, todo[1..], had + q.out, p)
  {
    var q := Arrive(kind, rx, todo[0]);
    Assoc(had, q.out, ArriveAll(kind, q.rx, todo[1..]).out);
    Alive(kind, rx, todo);
  }

  lemma AheadEnds(kind: Kind, rx: Rx, had: seq<Delivery>, p: Progress)
    ensures Ahead(kind, rx, [], had, p) ==> had == p.out
    ensures p.out == [] + p.out
  {
    assert had + [] == had;
  }

  /** Calls the read handler with the next arrival. */
  method Feed(session: Session, todo: seq<seq<Byte>>, ghost p: Progress)
    requires session.Valid() && todo != [] && !p.rx.Closed? && !p.rx.Spinning?
    requires Ahead(session.kind, session.State(), todo, session.delivered, p)
    modifies session
    ensures session.Valid() && Ahead(session.kind, session.State(), todo[1..], session.delivered, p)
  {
    AheadStep(session.kind, session.State(), todo, session.delivered, p);
    session.HandleRead(todo[0]);
  }

  /** Calls the read handler of a new session with one arrival after the other. */
  method RunSession(kind: Kind, arrivals: seq<seq<Byte>>) returns (delivered: seq<Delivery>)
    requires NonEmpty(arrivals)
    requires var rx := ArriveAll(kind, AtHead([]), arrivals).rx; !rx.Closed? && !rx.Spinning?
    ensures delivered == ArriveAll(kind, AtHead([]), arrivals).out
  {
    ghost var p := ArriveAll(kind, AtHead([]), arrivals);
    var session := new Session(kind);
    var todo := arrivals;
    AheadEnds(kind, session.State(), [], p);
    while todo != []
      invariant session.Valid() && fresh(session) && session.kind == kind
      invariant Ahead(kind, session.State(), todo, session.delivered, p)
      decreases |todo|
    {
      Feed(session, todo, p);
      todo := todo[1..];
    }
    AheadEnds(kind, session.State(), session.delivered, p);
    delivered := session.delivered;
  }

  /** Client, network, server and network back, with both directions cut as the caller likes. */
  method Converse(id: Int32, text: seq<Byte>, requestCuts: seq<nat>, replyCuts: seq<nat>) returns (shown: Shown)
    requires Utf8.Valid(text) && HEAD + |Serialize(Request(id, text))| <= CLIENT_BUFFER
    ensures var request := Frame(LengthOnly, Message(0, Serialize(Request(id, text))));
            var whole := Uncut(|request|, 0, Cut(request, requestCuts));
            shown == if Fits(id, text, whole) then Displayed(Answer(id, text, whole))
                     else Overread(|Serialize(Answer(id, text, whole))|)
  {
    var sendData, length := SendRequest(id, text);
    var arrivals := Cut(sendData[..length], requestCuts);
    Exchange(id, text, arrivals, [], Lost);
    var delivered := RunSession(LengthOnly, arrivals);
    var answer, frame := AnswerDelivery(delivered[0]);
    var socket := new Socket(Cut(frame, replyCuts));
    shown := ReceiveReply(socket);
    Exchange(id, text, arrivals, answer, shown);
  }
}
