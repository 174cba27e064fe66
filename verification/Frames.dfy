/** Length-prefixed frames: a big-endian 16-bit id, a big-endian 16-bit length, and the payload. */
module Frames {
  import opened Bytes

  const HEAD_ID_LENGTH := 2
  const HEAD_DATA_LEN := 2
  const HEAD_TOTAL_LEN := 4

  /** The largest payload whose frame length is still representable as a positive `short`. */
  const MAX_PAYLOAD := 0x7FFF - HEAD_TOTAL_LEN

  /** `host_to_network_short` followed by `memcpy`: the bytes of a `short`, most significant first. */
  function ToNetwork(n: Int16): (s: seq<Byte>)
    ensures |s| == 2
  {
    [n % 0x1_0000 / 0x100, n % 0x100]
  }

  /** `memcpy` into a `short` followed by `network_to_host_short`. */
  function FromNetwork(s: seq<Byte>): Int16
    requires |s| == 2
  {
    var high: int, low: int := s[0], s[1];
    var n := high * 0x100 + low;
    if n < 0x8000 then n else n - 0x1_0000
  }

  /** Network order is most significant byte first. */
  lemma NetworkOrder(n: Int16)
    ensures var s := ToNetwork(n); s[0] as int * 0x100 + s[1] as int == n as int % 0x1_0000
  {
    var u, carry := n as int % 0x1_0000, if n < 0 then 0x100 else 0;
    assert u == n as int + 0x100 * carry;
    assert u / 0x100 == n as int / 0x100 + carry;
  }

  lemma ShortRoundTrip(n: Int16)
    ensures FromNetwork(ToNetwork(n)) == n
  {
    NetworkOrder(n);
  }

  lemma NetworkRoundTrip(n: Int16, t: seq<Byte>)
    ensures FromNetwork((ToNetwork(n) + t)[..2]) == n
    ensures (ToNetwork(n) + t)[2..] == t
  {
    ShortRoundTrip(n);
    Halves(ToNetwork(n), t);
  }

  datatype Message = Message(id: Int16, payload: seq<Byte>)

  function EncodeFrame(m: Message): seq<Byte> {
    ToNetwork(m.id) + ToNetwork(ToInt16(|m.payload|)) + m.payload
  }

  function EncodeFrames(ms: seq<Message>): seq<Byte> {
    if ms == [] then [] else EncodeFrame(ms[0]) + EncodeFrames(ms[1..])
  }

  /** "Read four bytes, then read as many as they say." */
  function DecodeFrame(s: seq<Byte>): (r: Read<Message>)
    ensures r.Got? ==> |r.rest| < |s|
  {
    if |s| < HEAD_TOTAL_LEN then Fail
    else
      var id, len := FromNetwork(s[..2]), FromNetwork(s[2..4]);
      if len < 0 || |s| - HEAD_TOTAL_LEN < len then Fail
      else Got(Message(id, s[4..4 + len]), s[4 + len..])
  }

  function DecodeFrames(s: seq<Byte>): Option<seq<Message>>
    decreases |s|
  {
    if s == [] then Some([])
    else
      match DecodeFrame(s)
      case Fail => None
      case Got(m, rest) =>
        match DecodeFrames(rest)
        case None => None
        case Some(ms) => Some([m] + ms)
  }

  lemma HeadOfFrame(m: Message, rest: seq<Byte>)
    requires |m.payload| <= 0x7FFF
    ensures var s := EncodeFrame(m) + rest;
            && |s| >= HEAD_TOTAL_LEN
            && FromNetwork(s[..2]) == m.id
            && FromNetwork(s[2..4]) == |m.payload|
            && s[4..] == m.payload + rest
  {
    var s, len := EncodeFrame(m) + rest, ToNetwork(ToInt16(|m.payload|));
    assert s == ToNetwork(m.id) + (len + (m.payload + rest));
    NetworkRoundTrip(m.id, len + (m.payload + rest));
    NetworkRoundTrip(ToInt16(|m.payload|), m.payload + rest);
    assert s[2..4] == s[2..][..2];
    assert s[4..] == s[2..][2..];
  }

  lemma FrameRoundTrip(m: Message, rest: seq<Byte>)
    requires |m.payload| <= 0x7FFF
    ensures DecodeFrame(EncodeFrame(m) + rest) == Got(m, rest)
  {
    var s, len := EncodeFrame(m) + rest, |m.payload|;
    HeadOfFrame(m, rest);
    assert s[4..4 + len] == s[4..][..len] && s[4 + len..] == s[4..][len..];
  }

  /** Any list of messages, written one after the other, decodes to exactly that list. */
  lemma {:induction false} StreamRoundTrip(ms: seq<Message>)
    requires forall m | m in ms :: |m.payload| <= 0x7FFF
    ensures DecodeFrames(EncodeFrames(ms)) == Some(ms)
  {
    if ms != [] {
      FrameRoundTrip(ms[0], EncodeFrames(ms[1..]));
      StreamRoundTrip(ms[1..]);
      assert [ms[0]] + ms[1..] == ms;
    }
  }

  lemma NetworkBack(s: seq<Byte>)
    requires |s| == 2
    ensures ToNetwork(FromNetwork(s)) == s
  {
    var high: int, low: int := s[0], s[1];
    NetworkOrder(FromNetwork(s));
    assert FromNetwork(s) as int % 0x1_0000 == high * 0x100 + low;
  }

  lemma FrameBack(s: seq<Byte>)
    requires DecodeFrame(s).Got?
    ensures var r := DecodeFrame(s); s == EncodeFrame(r.value) + r.rest && |r.value.payload| <= 0x7FFF
  {
    var len := FromNetwork(s[2..4]);
    NetworkBack(s[..2]);
    NetworkBack(s[2..4]);
    ToInt16Unique(len, len);
    assert s == s[..2] + s[2..4] + s[4..4 + len] + s[4 + len..];
  }

  /** A message is read from the front exactly when the bytes begin with its frame; all else fails. */
  lemma FrameIff(s: seq<Byte>, m: Message, rest: seq<Byte>)
    ensures DecodeFrame(s) == Got(m, rest) <==> s == EncodeFrame(m) + rest && |m.payload| <= 0x7FFF
  {
    if DecodeFrame(s).Got? {
      FrameBack(s);
    }
    if s == EncodeFrame(m) + rest && |m.payload| <= 0x7FFF {
      FrameRoundTrip(m, rest);
    }
  }

  lemma {:induction false} StreamBack(s: seq<Byte>)
    requires DecodeFrames(s).Some?
    ensures var ms := DecodeFrames(s).value; s == EncodeFrames(ms) && forall m | m in ms :: |m.payload| <= 0x7FFF
    decreases |s|
  {
    if s != [] {
      var r := DecodeFrame(s);
      var more := DecodeFrames(r.rest).value;
      FrameBack(s);
      StreamBack(r.rest);
      assert ([r.value] + more)[1..] == more;
    }
  }

  /** A list of messages is read exactly when the bytes are their frames, one after the other. */
  lemma StreamIff(s: seq<Byte>, ms: seq<Message>)
    ensures DecodeFrames(s) == Some(ms) <==>
            s == EncodeFrames(ms) && forall m | m in ms :: |m.payload| <= 0x7FFF
  {
    if DecodeFrames(s).Some? {
      StreamBack(s);
    }
    if s == EncodeFrames(ms) && forall m | m in ms :: |m.payload| <= 0x7FFF {
      StreamRoundTrip(ms);
    }
  }

  /** No frame is a proper prefix of another. */
  lemma FramesPrefixFree(m: Message, n: Message, tail: seq<Byte>)
    requires |m.payload| <= 0x7FFF && |n.payload| <= 0x7FFF
    requires EncodeFrame(n) == EncodeFrame(m) + tail
    ensures m == n && tail == []
  {
    FrameRoundTrip(m, tail);
    FrameRoundTrip(n, []);
    assert EncodeFrame(n) + [] == EncodeFrame(n);
  }

  /**
   * The frame length computed in `short` arithmetic is the real one exactly up to MAX_PAYLOAD: a
   * longer payload would not get the buffer it is copied into.
   */
  lemma FrameLengthFitsShort(len: nat)
    ensures ToInt16(len + HEAD_TOTAL_LEN) == len + HEAD_TOTAL_LEN <==> len <= MAX_PAYLOAD
  {
  }

  /** A heap buffer with room for `totalLen` bytes and a terminator behind them. */
  class MsgNode {
    var curLen: int
    const totalLen: Int16
    const data: array<Byte>

    constructor (maxLen: Int16)
      requires maxLen >= 0
      ensures totalLen == maxLen && curLen == 0
      ensures fresh(data) && data.Length == maxLen + 1 && data[maxLen] == 0
    {
      totalLen, curLen := maxLen, 0;
      data := new Byte[maxLen + 1];
      new;
      data[maxLen] := 0;
    }

    /** Zeroes the buffer, but not the terminator behind it. */
    method Clear()
      requires 0 <= totalLen < data.Length
      modifies this`curLen, data
      ensures curLen == 0
      ensures data[..] == seq(totalLen as int, i => 0) + old(data[totalLen..])
    {
      var zeros := seq(totalLen as int, i => 0);
      var end := Copy(zeros, data, 0);
      curLen := 0;
    }
  }

  /** The three copies that put a frame at the start of a buffer; what is behind it stays. */
  method WriteFrame(msgId: Int16, payload: seq<Byte>, buffer: array<Byte>)
    requires HEAD_TOTAL_LEN + |payload| <= buffer.Length
    modifies buffer
    ensures buffer[..] == EncodeFrame(Message(msgId, payload)) + old(buffer[HEAD_TOTAL_LEN + |payload|..])
  {
    ghost var was := buffer[..];
    var id, len := ToNetwork(msgId), ToNetwork(ToInt16(|payload|));
    var end := Copy(id, buffer, 0);
    assert buffer[..] == id + was[HEAD_ID_LENGTH..];
    end := Copy(len, buffer, HEAD_ID_LENGTH);
    assert buffer[..] == id + len + was[HEAD_TOTAL_LEN..];
    end := Copy(payload, buffer, HEAD_TOTAL_LEN);
  }

  /** Does allocating the buffer for a payload of `len` bytes throw? Its size has become negative. */
  predicate AllocationThrows(len: nat) {
    ToInt16(len + HEAD_TOTAL_LEN) < -1
  }

  /** Exactly the payloads whose length modulo 2^16 is between 32764 and 65530. */
  lemma AllocationThrowsIff(len: nat)
    ensures AllocationThrows(len) <==> 0x7FFC <= len % 0x1_0000 <= 0xFFFA
  {
    var q, r := len / 0x1_0000, len % 0x1_0000;
    var n := r + HEAD_TOTAL_LEN;
    ToInt16Unique(len + HEAD_TOTAL_LEN, if n < 0x8000 then n else if n < 0x1_8000 then n - 0x1_0000 else n - 0x2_0000);
  }

  /** A node with the frame, no node, or copies that go beyond the bytes that were allocated. */
  datatype Making = Made(node: SendNode) | Throws | Overwrites(room: nat)

  class SendNode {
    const node: MsgNode
    const msgId: Int16

    /** Fills the buffer with the frame and leaves the terminator behind it alone. */
    constructor (payload: seq<Byte>, msgId: Int16)
      requires |payload| <= MAX_PAYLOAD
      ensures this.msgId == msgId && fresh(node) && fresh(node.data)
      ensures node.totalLen == |EncodeFrame(Message(msgId, payload))|
      ensures node.data[..] == EncodeFrame(Message(msgId, payload)) + [0]
    {
      this.msgId := msgId;
      FrameLengthFitsShort(|payload|);
      node := new MsgNode(ToInt16(|payload| + HEAD_TOTAL_LEN));
      new;
      WriteFrame(msgId, payload, node.data);
    }

    /** Constructing a node as the program does, for payloads of any length. */
    static method Make(payload: seq<Byte>, msgId: Int16) returns (r: Making)
      ensures r.Throws? <==> AllocationThrows(|payload|)
      ensures r.Made? <==> |payload| <= MAX_PAYLOAD
      ensures r.Made? ==>
                && fresh(r.node) && r.node.msgId == msgId && fresh(r.node.node.data)
                && r.node.node.data[..] == EncodeFrame(Message(msgId, payload)) + [0]
      ensures r.Overwrites? ==> r.room == (|payload| + 5) % 0x1_0000 < HEAD_TOTAL_LEN + |payload|
    {
      FrameLengthFitsShort(|payload|);
      if AllocationThrows(|payload|) {
        return Throws;
      }
      if |payload| > MAX_PAYLOAD {
        return Overwrites(ToInt16(|payload| + HEAD_TOTAL_LEN) + 1);
      }
      var node := new SendNode(payload, msgId);
      r := Made(node);
    }
  }
}
