/** The client that frames its request with an id and a length, and reads one reply the same way. */
module JsonClient {
  import opened Bytes
  import opened Frames
  import opened Readers

  const BUFFER := 2048

  datatype Reply =
    | Arrived(msg: Message)
    | Lost                      // the connection ended before the read did
    | Overread(claimed: nat)    // the string is built from more bytes than the array has
    | LengthError               // a negative length: building the string throws

  /** What the client makes of the bytes that come back; the read itself is clipped to the array. */
  function FirstReply(s: seq<Byte>): Reply {
    if |s| < HEAD_TOTAL_LEN then Lost
    else
      var id, len := FromNetwork(s[..2]), FromNetwork(s[2..4]);
      if |s| - HEAD_TOTAL_LEN < Clipped(len, BUFFER) then Lost
      else if len < 0 then LengthError
      else if len > BUFFER then Overread(len)
      else Arrived(Message(id, s[4..4 + len]))
  }

  /** Which of these happens: the read wants at most 2048 bytes behind the head, whatever the length says. */
  lemma FirstReplyMeans(s: seq<Byte>)
    requires |s| >= 4
    ensures var len := FromNetwork(s[2..4]);
            var wanted := if 0 <= len <= 2048 then len else 2048;
            && (FirstReply(s) == Lost <==> |s| < 4 + wanted)
            && (FirstReply(s) == LengthError <==> len < 0 && |s| >= 4 + 2048)
            && (FirstReply(s).Overread? <==> len > 2048 && |s| >= 4 + 2048)
  {
  }

  /** Fills the send buffer with the frame; the rest of the buffer stays zero. */
  method SendFrame(msgId: Int16, request: seq<Byte>) returns (sendData: array<Byte>, length: nat)
    requires HEAD_TOTAL_LEN + |request| <= BUFFER
    ensures sendData.Length == BUFFER && length == HEAD_TOTAL_LEN + |request|
    ensures sendData[..length] == EncodeFrame(Message(msgId, request))
    ensures forall i | length <= i < BUFFER :: sendData[i] == 0
  {
    sendData := new Byte[BUFFER](_ => 0);
    WriteFrame(msgId, request, sendData);
    length := HEAD_TOTAL_LEN + |request|;
  }

  /** Reads the head, then the body; the outcome depends on the bytes only, not on how they arrive. */
  method ReceiveFrame(socket: Socket) returns (reply: Reply)
    modifies socket
    ensures reply == FirstReply(old(socket.Pending()))
    ensures !reply.Lost? ==>
              var s := old(socket.Pending());
              var len := FromNetwork(s[2..4]);
              socket.Pending() == s[4 + if 0 <= len <= 2048 then len else 2048..]
  {
    ghost var s := socket.Pending();
    var head := socket.ReadExactly(HEAD_TOTAL_LEN);
    if head.None? {
      return Lost;
    }
    assert head.value[..2] == s[..2] && head.value[2..] == s[2..4];
    var msgId := FromNetwork(head.value[..2]);
    var msgLen := FromNetwork(head.value[2..]);
    var body := socket.ReadExactly(Clipped(msgLen, BUFFER));
    if body.None? {
      return Lost;
    }
    if msgLen < 0 {
      return LengthError;
    }
    if msgLen > BUFFER {
      return Overread(msgLen);
    }
    assert body.value == s[4..4 + msgLen];
    reply := Arrived(Message(msgId, body.value));
  }

  /** A framed message is received exactly when its payload fits the array; else the string overreads it. */
  lemma ReplyRoundTrip(m: Message, rest: seq<Byte>)
    requires |m.payload| <= MAX_PAYLOAD
    ensures FirstReply(EncodeFrame(m) + rest) == if |m.payload| <= BUFFER then Arrived(m) else Overread(|m.payload|)
  {
    var s, len := EncodeFrame(m) + rest, |m.payload|;
    HeadOfFrame(m, rest);
    assert s[4..4 + len] == s[4..][..len];
  }
}
