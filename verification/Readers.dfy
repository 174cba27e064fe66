/** Reading frames from a socket: reads of an exact size over bytes that arrive in arbitrary pieces. */
module Readers {
  import opened Bytes
  import opened Frames

  /** The receiving side of a connection; each chunk is what one arrival brought. */
  class Socket {
    var chunks: seq<seq<Byte>>

    constructor (chunks: seq<seq<Byte>>)
      ensures this.chunks == chunks
    {
      this.chunks := chunks;
    }

    /** The bytes still to come, however they are cut. */
    ghost function Pending(): seq<Byte>
      reads this
    {
      Flatten(chunks)
    }

    /** `asio::read` into a buffer of `n` bytes; end of file before that is the error case. */
    method ReadExactly(n: nat) returns (r: Option<seq<Byte>>)
      modifies this
      ensures n <= |old(Pending())| ==> r == Some(old(Pending())[..n]) && Pending() == old(Pending())[n..]
      ensures n > |old(Pending())| ==> r == None && Pending() == []
    {
      var got := [];
      while |got| < n
        invariant |got| <= n
        invariant got + Pending() == old(Pending())
        decreases |chunks|
      {
        if chunks == [] {
          return None;
        }
        var head, tail := chunks[0], chunks[1..];
        var missing := n - |got|;
        if |head| <= missing {
          chunks := tail;
          Assoc(got, head, Flatten(tail));
          got := got + head;
        } else {
          chunks := [head[missing..]] + tail;
          assert chunks[1..] == tail;
          assert got + (head + Flatten(tail)) == (got + head[..missing]) + (head[missing..] + Flatten(tail));
          got := got + head[..missing];
          assert |got| == n;
          break;
        }
      }
      r := Some(got);
    }
  }

  /** Has everything been read? Empty arrivals at the front are dropped. */
  method AtEnd(socket: Socket) returns (end: bool)
    modifies socket
    ensures end <==> socket.Pending() == []
    ensures socket.Pending() == old(socket.Pending())
  {
    while socket.chunks != [] && socket.chunks[0] == []
      invariant socket.Pending() == old(socket.Pending())
      decreases |socket.chunks|
    {
      assert [] + Flatten(socket.chunks[1..]) == Flatten(socket.chunks[1..]);
      socket.chunks := socket.chunks[1..];
    }
    end := socket.chunks == [];
  }

  /** "Read four bytes, then read as many as they say", once. */
  method ReadFrame(socket: Socket) returns (r: Option<Message>)
    modifies socket
    ensures match DecodeFrame(old(socket.Pending()))
            case Fail => r == None
            case Got(m, rest) => r == Some(m) && socket.Pending() == rest
  {
    ghost var s := socket.Pending();
    var head := socket.ReadExactly(HEAD_TOTAL_LEN);
    if head.None? {
      return None;
    }
    assert head.value[..2] == s[..2] && head.value[2..] == s[2..4];
    var id := FromNetwork(head.value[..2]);
    var len := FromNetwork(head.value[2..]);
    if len < 0 {
      return None;
    }
    var body := socket.ReadExactly(len);
    if body.None? {
      return None;
    }
    assert body.value == s[4..4 + len] && socket.Pending() == s[4 + len..];
    r := Some(Message(id, body.value));
  }

  /** Reads frames until the stream ends; a stream that ends inside a frame is an error. */
  method ReadFrames(socket: Socket) returns (r: Option<seq<Message>>)
    modifies socket
    ensures r == DecodeFrames(old(socket.Pending()))
  {
    var ms := [];
    ghost var all := DecodeFrames(socket.Pending());
    assert all.Some? ==> ms + all.value == all.value;
    var end := AtEnd(socket);
    while !end
      invariant end <==> socket.Pending() == []
      invariant all == match DecodeFrames(socket.Pending()) case None => None case Some(more) => Some(ms + more)
      decreases |socket.Pending()|
    {
      var m := ReadFrame(socket);
      if m.None? {
        return None;
      }
      ghost var more := DecodeFrames(socket.Pending());
      if more.Some? {
        Assoc(ms, [m.value], more.value);
      }
      ms := ms + [m.value];
      end := AtEnd(socket);
    }
    assert ms + [] == ms;
    r := Some(ms);
  }

  /** Any messages, encoded one after the other and cut anywhere, are read as exactly those messages. */
  method ReadCutFrames(arrivals: seq<seq<Byte>>, ghost ms: seq<Message>) returns (r: Option<seq<Message>>)
    requires forall m | m in ms :: |m.payload| <= MAX_PAYLOAD
    requires Flatten(arrivals) == EncodeFrames(ms)
    ensures r == Some(ms)
  {
    StreamRoundTrip(ms);
    var socket := new Socket(arrivals);
    r := ReadFrames(socket);
  }

  /** The size of a read through `asio::buffer(array, len)`: at most the array, whatever the length. */
  function Clipped(len: Int16, capacity: nat): nat {
    if 0 <= len <= capacity then len else capacity
  }

  // ---------------------------------------------------------------- the coroutine session

  const MAX_LENGTH := 2048

  datatype Reason =
    | EndOfFile       // a read threw
    | TooLong         // the length is over MAX_LENGTH
    | NotAllocatable  // a negative length: no receive buffer
    | NothingRead     // the body read returned 0 bytes

  datatype Received = Received(messages: seq<Message>, reason: Reason)

  /** What the receive loop makes of a byte stream. */
  function Receive(s: seq<Byte>): Received
    decreases |s|
  {
    if |s| < HEAD_TOTAL_LEN then Received([], EndOfFile)
    else
      var id, len := FromNetwork(s[..2]), FromNetwork(s[2..4]);
      var behind := s[4..];
      if len > MAX_LENGTH then Received([], TooLong)
      else if len < 0 then Received([], NotAllocatable)
      else if |behind| < len then Received([], EndOfFile)
      else if len == 0 then Received([], NothingRead)
      else
        var r := Receive(behind[len..]);
        Received([Message(id, behind[..len])] + r.messages, r.reason)
  }

  class CSession {
    const socket: Socket
    var bClose: bool
    var registered: bool            // still in the server's session map
    var posted: seq<Message>        // what was handed to the logic system

    constructor (socket: Socket)
      ensures this.socket == socket && !bClose && registered && posted == []
    {
      this.socket, bClose, registered, posted := socket, false, true, [];
    }

    method Close()
      modifies this`bClose
      ensures bClose
    {
      bClose := true;
    }

    /** The receive loop: the outcome depends on the bytes only, not on how they were cut. */
    method Start() returns (reason: Reason)
      requires !bClose && registered && posted == []
      modifies this, socket
      ensures Received(posted, reason) == Receive(old(socket.Pending()))
      ensures !registered
      ensures bClose <==> reason != TooLong
    {
      while true
        invariant !bClose && registered
        invariant Receive(old(socket.Pending())) ==
                  Received(posted + Receive(socket.Pending()).messages, Receive(socket.Pending()).reason)
        decreases |socket.Pending()|
      {
        ghost var s := socket.Pending();
        assert posted + [] == posted;
        var head := socket.ReadExactly(HEAD_TOTAL_LEN);
        if head.None? {
          Close();
          registered := false;
          return EndOfFile;
        }
        var id := FromNetwork(head.value[..2]);
        var len := FromNetwork(head.value[2..]);
        assert head.value[..2] == s[..2] && head.value[2..] == s[2..4];
        if len > MAX_LENGTH {
          registered := false;
          return TooLong;
        }
        if len < 0 {
          Close();
          registered := false;
          return NotAllocatable;
        }
        var body := socket.ReadExactly(len);
        if body.None? {
          Close();
          registered := false;
          return EndOfFile;
        }
        if |body.value| == 0 {
          registered := false;
          Close();
          return NothingRead;
        }
        Assoc(posted, [Message(id, body.value)], Receive(socket.Pending()).messages);
        posted := posted + [Message(id, body.value)];
      }
    }
  }

  // ---------------------------------------------------------------- what it makes of encoded messages

  /** The length in a frame head, unsigned. */
  function LengthAt(s: seq<Byte>): nat
    requires |s| >= 4
  {
    var high: int, low: int := s[2], s[3];
    high * 0x100 + low
  }

  /** How the loop ends on bytes that do not begin with a message it posts. */
  lemma ReceiveEnd(s: seq<Byte>)
    ensures |s| < 4 ==> Receive(s) == Received([], EndOfFile)
    ensures |s| >= 4 && LengthAt(s) >= 0x8000 ==> Receive(s) == Received([], NotAllocatable)
    ensures |s| >= 4 && 2048 < LengthAt(s) < 0x8000 ==> Receive(s) == Received([], TooLong)
    ensures |s| >= 4 && LengthAt(s) == 0 ==> Receive(s) == Received([], NothingRead)
    ensures |s| >= 4 && 0 < LengthAt(s) <= 2048 && |s| - 4 < LengthAt(s) ==> Receive(s) == Received([], EndOfFile)
  {
    if |s| >= 4 {
      assert s[2..4] == [s[2], s[3]];
    }
  }

  /** The messages whose payload the loop accepts. */
  predicate Deliverable(m: Message) {
    1 <= |m.payload| <= 2048
  }

  lemma ReceiveFirst(m: Message, rest: seq<Byte>)
    requires Deliverable(m)
    ensures Receive(EncodeFrame(m) + rest) == Received([m] + Receive(rest).messages, Receive(rest).reason)
  {
    HeadOfFrame(m, rest);
    Halves(m.payload, rest);
  }

  /** Behind messages that it posts, the loop goes on with the bytes that follow them. */
  lemma {:induction false} ReceiveAppend(ms: seq<Message>, tail: seq<Byte>)
    requires forall m | m in ms :: Deliverable(m)
    ensures Receive(EncodeFrames(ms) + tail) == Received(ms + Receive(tail).messages, Receive(tail).reason)
    decreases ms
  {
    if ms == [] {
      assert [] + tail == tail;
      assert [] + Receive(tail).messages == Receive(tail).messages;
    } else {
      var m, rest := ms[0], EncodeFrames(ms[1..]) + tail;
      Assoc(EncodeFrame(m), EncodeFrames(ms[1..]), tail);
      assert m in ms;
      ReceiveFirst(m, rest);
      ReceiveAppend(ms[1..], tail);
      assert [m] + ms[1..] == ms;
      Assoc([m], ms[1..], Receive(tail).messages);
    }
  }

  /** The messages in front of the first one that is not deliverable. */
  function DeliverablePrefix(ms: seq<Message>): seq<Message> {
    if ms == [] || !Deliverable(ms[0]) then [] else [ms[0]] + DeliverablePrefix(ms[1..])
  }

  lemma {:induction false} PrefixIsAll(ms: seq<Message>)
    ensures DeliverablePrefix(ms) == ms <==> forall m | m in ms :: Deliverable(m)
  {
    if ms != [] {
      assert ms == [ms[0]] + ms[1..];
      PrefixIsAll(ms[1..]);
    }
  }

  /** Why the loop ends: the stream does, or an empty or an over-long message comes first. */
  function EndReason(ms: seq<Message>): Reason {
    if ms == [] then EndOfFile
    else if ms[0].payload == [] then NothingRead
    else if |ms[0].payload| > 2048 then TooLong
    else EndReason(ms[1..])
  }

  /**
   * A session fed with encoded messages posts those in front of the first empty or over-long one,
   * which is also why it ends, if there is one; so it posts all of them exactly when every payload
   * has between 1 and 2048 bytes.
   */
  lemma {:induction false} SessionDelivers(ms: seq<Message>)
    requires forall m | m in ms :: |m.payload| <= MAX_PAYLOAD
    ensures Receive(EncodeFrames(ms)) == Received(DeliverablePrefix(ms), EndReason(ms))
    ensures Receive(EncodeFrames(ms)).messages == ms <==> forall m | m in ms :: Deliverable(m)
  {
    PrefixIsAll(ms);
    if ms != [] {
      var rest := EncodeFrames(ms[1..]);
      HeadOfFrame(ms[0], rest);
      if Deliverable(ms[0]) {
        ReceiveFirst(ms[0], rest);
        SessionDelivers(ms[1..]);
      }
    }
  }

  /** A concrete case: a single empty message is read as the end of the connection. */
  lemma EmptyMessageCloses(id: Int16)
    ensures Receive(EncodeFrames([Message(id, [])])) == Received([], NothingRead)
  {
    var ms := [Message(id, [])];
    assert ms[1..] == [];
    HeadOfFrame(ms[0], []);
  }
}
