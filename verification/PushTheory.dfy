/** When a callback session delivers an encoded stream, and when it hangs. */
module PushTheory {
  import opened Bytes
  import opened Frames
  import opened PushSession

  /** The frame head in front of a message's payload. */
  function FrameHead(kind: Kind, m: Message): (h: seq<Byte>)
    ensures |h| == HeadLength(kind)
  {
    var len := ToNetwork(ToInt16(|m.payload|));
    match kind case IdAndLength => ToNetwork(m.id) + len case LengthOnly => len
  }

  function Frame(kind: Kind, m: Message): seq<Byte> {
    FrameHead(kind, m) + m.payload
  }

  function FrameAll(kind: Kind, ms: seq<Message>): seq<Byte> {
    if ms == [] then [] else Frame(kind, ms[0]) + FrameAll(kind, ms[1..])
  }

  /** Messages that the head check lets through; a head without an id stands for id 0. */
  predicate Acceptable(kind: Kind, m: Message) {
    && |m.payload| <= MAX_LENGTH
    && if kind.IdAndLength? then m.id <= MAX_LENGTH else m.id == 0
  }

  predicate AllAcceptable(kind: Kind, ms: seq<Message>) {
    forall i | 0 <= i < |ms| :: Acceptable(kind, ms[i])
  }

  function Messages(ds: seq<Delivery>): seq<Message> {
    if ds == [] then [] else [ds[0].msg] + Messages(ds[1..])
  }

  /** The offset `at` lies behind the head and before the end of a message that another one follows. */
  predicate InsideBody(kind: Kind, ms: seq<Message>, at: nat) {
    ms != [] &&
    if at < |Frame(kind, ms[0])| then HeadLength(kind) <= at && |ms| >= 2
    else InsideBody(kind, ms[1..], at - |Frame(kind, ms[0])|)
  }

  /** No arrival, the first one beginning at offset `at`, ends inside such a body. */
  predicate Clean(kind: Kind, ms: seq<Message>, at: nat, chunks: seq<seq<Byte>>)
    decreases chunks
  {
    chunks == [] ||
    (!InsideBody(kind, ms, at + |chunks[0]|) && Clean(kind, ms, at + |chunks[0]|, chunks[1..]))
  }

  // ---------------------------------------------------------------- facts about frames and cuts

  /** With an id in the head, these are the frames that SendNode encodes. */
  lemma FrameIsEncoded(m: Message)
    ensures Frame(IdAndLength, m) == EncodeFrame(m)
  {
  }

  lemma HeadDecodes(kind: Kind, m: Message)
    requires Acceptable(kind, m)
    ensures DecodeHead(kind, FrameHead(kind, m)) == Body(m.id, |m.payload|)
  {
    var len := ToNetwork(ToInt16(|m.payload|));
    NetworkRoundTrip(ToInt16(|m.payload|), []);
    assert len + [] == len && len[..2] == len;
    if kind.IdAndLength? {
      NetworkRoundTrip(m.id, len);
    }
  }

  lemma CompleteHead(kind: Kind, head: seq<Byte>, behind: seq<Byte>)
    requires |head| == HeadLength(kind)
    ensures FromHead(kind, head + behind) == AfterHead(kind, DecodeHead(kind, head), behind)
  {
    Halves(head, behind);
  }

  /** A first arrival that covers the first message delivers it and leaves the rest for the next ones. */
  lemma WholeFirst(kind: Kind, m: Message, r: seq<Byte>)
    requires Acceptable(kind, m)
    ensures FromHead(kind, Frame(kind, m) + r) ==
            Progress(FromHead(kind, r).rx, [Whole(m)] + FromHead(kind, r).out)
  {
    Assoc(FrameHead(kind, m), m.payload, r);
    HeadDecodes(kind, m);
    CompleteHead(kind, FrameHead(kind, m), m.payload + r);
    Halves(m.payload, r);
  }

  lemma {:induction false} CleanShift(kind: Kind, ms: seq<Message>, at: nat, chunks: seq<seq<Byte>>)
    requires ms != [] && at >= |Frame(kind, ms[0])|
    ensures Clean(kind, ms, at, chunks) == Clean(kind, ms[1..], at - |Frame(kind, ms[0])|, chunks)
    decreases chunks
  {
    if chunks != [] {
      CleanShift(kind, ms, at + |chunks[0]|, chunks[1..]);
    }
  }

  /** In front of the last message every cut is harmless. */
  lemma {:induction false} CleanLast(kind: Kind, m: Message, at: nat, chunks: seq<seq<Byte>>)
    ensures Clean(kind, [m], at, chunks)
    decreases chunks
  {
    if chunks != [] {
      CleanLast(kind, m, at + |chunks[0]|, chunks[1..]);
    }
  }

  lemma {:induction false} SpinningStays(kind: Kind, chunks: seq<seq<Byte>>)
    requires NonEmpty(chunks)
    ensures ArriveAll(kind, Spinning, chunks).rx == Spinning
    decreases chunks
  {
    if chunks != [] {
      SpinningStays(kind, chunks[1..]);
    }
  }

  lemma NothingPending(chunks: seq<seq<Byte>>)
    requires NonEmpty(chunks)
    ensures Flatten(chunks) == [] <==> chunks == []
  {
  }

  // ---------------------------------------------------------------- the two kinds of state

  /** After a cut inside a body: if nothing follows it is still delivered, otherwise the session hangs. */
  lemma {:induction false} AfterCut(kind: Kind, m: Message, behind: seq<Byte>, body: seq<Byte>, chunks: seq<seq<Byte>>)
    requires NonEmpty(chunks) && |body| < |m.payload|
    requires body + Flatten(chunks) == m.payload + behind
    ensures var p := ArriveAll(kind, InBody(m.id, |m.payload|, body), chunks);
            if behind == [] then p == Progress(Spent(m), [Split(m)]) else p.rx == Spinning
    decreases chunks
  {
    var len, whole := |m.payload|, m.payload + behind;
    assert chunks != [];
    var all, rest := body + chunks[0], Flatten(chunks[1..]);
    Assoc(body, chunks[0], rest);
    assert all + rest == whole;
    if |all| < len {
      AfterCut(kind, m, behind, all, chunks[1..]);
    } else {
      assert all[..len] == whole[..len] == m.payload;
      NothingPending(chunks[1..]);
      if |all| > len || chunks[1..] != [] {
        assert |whole| > len;
        if |all| > len {
          SpinningStays(kind, chunks[1..]);
        } else {
          SpinningStays(kind, chunks[2..]);
        }
      }
    }
  }

  lemma FrameAllEmpty(kind: Kind, ms: seq<Message>)
    ensures ms == [] || |FrameAll(kind, ms)| >= HeadLength(kind)
  {
  }

  // ---------------------------------------------------------------- heads that are refused

  /** The unsigned 16-bit number at `at`, most significant byte first. */
  function Number(s: seq<Byte>, at: nat): nat
    requires at + 2 <= |s|
  {
    var high: int, low: int := s[at], s[at + 1];
    high * 0x100 + low
  }

  /** Is this number, as a `short`, over the limit? */
  predicate TooLarge(n: nat) {
    2048 < n < 0x8000
  }

  /** The head in front has an id or a length over the limit. */
  predicate TooLargeHead(kind: Kind, s: seq<Byte>)
    requires |s| >= HeadLength(kind)
  {
    match kind
    case IdAndLength => TooLarge(Number(s, 0)) || TooLarge(Number(s, 2))
    case LengthOnly => TooLarge(Number(s, 0))
  }

  /** The head in front has neither, but its length is negative. */
  predicate NegativeHead(kind: Kind, s: seq<Byte>)
    requires |s| >= HeadLength(kind)
  {
    !TooLargeHead(kind, s) && Number(s, HeadLength(kind) - 2) >= 0x8000
  }

  /** What may follow the acceptable messages: nothing, or a head that is refused and whatever is behind it. */
  predicate Tail(kind: Kind, tail: seq<Byte>) {
    tail == [] || (|tail| >= HeadLength(kind) && (TooLargeHead(kind, tail) || NegativeHead(kind, tail)))
  }

  lemma ShortMeans(s: seq<Byte>)
    requires |s| == 2
    ensures FromNetwork(s) == if Number(s, 0) < 0x8000 then Number(s, 0) else Number(s, 0) - 0x1_0000
  {
  }

  lemma RefusedHead(kind: Kind, tail: seq<Byte>, s: seq<Byte>)
    requires tail != [] && Tail(kind, tail) && HeadLength(kind) <= |s| && s <= tail
    ensures FromHead(kind, s) == Progress(Closed(NegativeHead(kind, tail)), [])
  {
    var n := HeadLength(kind);
    var h := s[..n];
    assert h == tail[..n];
    ShortMeans(h[..2]);
    ShortMeans(h[n - 2..]);
  }

  lemma {:induction false} ClosedStays(kind: Kind, fault: bool, chunks: seq<seq<Byte>>)
    requires NonEmpty(chunks)
    ensures ArriveAll(kind, Closed(fault), chunks) == Progress(Closed(fault), [])
    decreases chunks
  {
    if chunks != [] {
      ClosedStays(kind, fault, chunks[1..]);
    }
  }

  // ---------------------------------------------------------------- a run of arrivals

  const NOTHING := Message(0, [])

  /** The messages, and a stand-in for the tail if there is one. */
  function Marked(ms: seq<Message>, tail: seq<Byte>): seq<Message> {
    if tail == [] then ms else ms + [NOTHING]
  }

  lemma MarkedCons(ms: seq<Message>, tail: seq<Byte>)
    requires ms != []
    ensures var all := Marked(ms, tail); all != [] && all[0] == ms[0] && all[1..] == Marked(ms[1..], tail)
  {
  }

  /** What a run of arrivals amounts to. */
  ghost predicate Outcome(kind: Kind, p: Progress, clean: bool, ms: seq<Message>, tail: seq<Byte>)
    requires Tail(kind, tail)
  {
    && (p.rx.Spinning? <==> !clean)
    && (clean ==> Messages(p.out) == ms)
    && (clean ==> if tail == [] then p.rx == AtHead([]) || p.rx.Spent? else p.rx == Closed(NegativeHead(kind, tail)))
  }

  lemma OutcomeCons(kind: Kind, p: Progress, clean: bool, ms: seq<Message>, tail: seq<Byte>)
    requires Tail(kind, tail) && ms != [] && Outcome(kind, p, clean, ms[1..], tail)
    ensures Outcome(kind, Progress(p.rx, [Whole(ms[0])] + p.out), clean, ms, tail)
  {
    assert ([Whole(ms[0])] + p.out)[1..] == p.out;
    assert [ms[0]] + ms[1..] == ms;
  }

  /** The first arrival does not even complete the head. */
  lemma ShortHead(kind: Kind, all: seq<Message>, head: seq<Byte>, chunks: seq<seq<Byte>>)
    requires NonEmpty(chunks) && chunks != [] && all != []
    requires |head + chunks[0]| < HeadLength(kind)
    ensures ArriveAll(kind, AtHead(head), chunks) == ArriveAll(kind, AtHead(head + chunks[0]), chunks[1..])
    ensures Clean(kind, all, |head|, chunks) == Clean(kind, all, |head + chunks[0]|, chunks[1..])
  {
    var q := ArriveAll(kind, AtHead(head + chunks[0]), chunks[1..]);
    assert [] + q.out == q.out;
  }

  lemma CleanUnfold(kind: Kind, ms: seq<Message>, at: nat, chunks: seq<seq<Byte>>)
    requires chunks != []
    ensures var next := at + |chunks[0]|;
            Clean(kind, ms, at, chunks) == (!InsideBody(kind, ms, next) && Clean(kind, ms, next, chunks[1..]))
  {
  }

  lemma CleanCut(kind: Kind, all: seq<Message>, at: nat, chunks: seq<seq<Byte>>)
    requires chunks != [] && all != []
    requires HeadLength(kind) <= at + |chunks[0]| < |Frame(kind, all[0])|
    ensures Clean(kind, all, at, chunks) <==> all[1..] == []
  {
    CleanUnfold(kind, all, at, chunks);
    if all[1..] == [] {
      assert all == [all[0]];
      CleanLast(kind, all[0], at, chunks);
    }
  }

  lemma PartOfFirst(kind: Kind, m: Message, behind: seq<Byte>, s: seq<Byte>, t: seq<Byte>) returns (body: seq<Byte>)
    requires Acceptable(kind, m) && s + t == Frame(kind, m) + behind
    requires HeadLength(kind) <= |s| < |Frame(kind, m)|
    ensures FromHead(kind, s) == Progress(InBody(m.id, |m.payload|, body), [])
    ensures |body| < |m.payload| && body + t == m.payload + behind
  {
    var head := FrameHead(kind, m);
    Assoc(head, m.payload, behind);
    Align(s, t, head, m.payload + behind);
    body := s[|head|..];
    HeadDecodes(kind, m);
    CompleteHead(kind, head, body);
  }

  lemma RestOfFirst(kind: Kind, m: Message, behind: seq<Byte>, s: seq<Byte>, later: seq<seq<Byte>>) returns (rx: Rx)
    requires Acceptable(kind, m) && NonEmpty(later)
    requires s + Flatten(later) == Frame(kind, m) + behind
    requires HeadLength(kind) <= |s| < |Frame(kind, m)|
    ensures FromHead(kind, s) == Progress(rx, [])
    ensures var p := ArriveAll(kind, rx, later);
            if behind == [] then p == Progress(Spent(m), [Split(m)]) else p.rx == Spinning
  {
    var body := PartOfFirst(kind, m, behind, s, Flatten(later));
    rx := InBody(m.id, |m.payload|, body);
    AfterCut(kind, m, behind, body, later);
  }

  lemma Silent(q: Progress)
    ensures Progress(q.rx, [] + q.out) == q
  {
    assert [] + q.out == q.out;
  }

  /** The bytes of an arrival behind those kept so far, and of the arrivals after it. */
  lemma Regroup(head: seq<Byte>, chunks: seq<seq<Byte>>, all: seq<Byte>)
    requires chunks != [] && head + Flatten(chunks) == all
    ensures (head + chunks[0]) + Flatten(chunks[1..]) == all
  {
    Assoc(head, chunks[0], Flatten(chunks[1..]));
  }

  /** A first arrival that completes nothing only changes the state. */
  lemma SilentFirst(kind: Kind, head: seq<Byte>, chunks: seq<seq<Byte>>, rx: Rx)
    requires NonEmpty(chunks) && chunks != [] && FromHead(kind, head + chunks[0]) == Progress(rx, [])
    ensures ArriveAll(kind, AtHead(head), chunks) == ArriveAll(kind, rx, chunks[1..])
  {
    Silent(ArriveAll(kind, rx, chunks[1..]));
  }

  /** The bytes of messages and tail: those of the first message, and the rest. */
  lemma StreamCons(kind: Kind, ms: seq<Message>, tail: seq<Byte>)
    requires ms != []
    ensures FrameAll(kind, ms) + tail == Frame(kind, ms[0]) + (FrameAll(kind, ms[1..]) + tail)
    ensures FrameAll(kind, ms[1..]) + tail == [] <==> ms[1..] == [] && tail == []
  {
    FrameAllEmpty(kind, ms[1..]);
    Assoc(Frame(kind, ms[0]), FrameAll(kind, ms[1..]), tail);
  }

  /** The first arrival ends inside the body of the first message. */
  lemma CutRun(kind: Kind, m: Message, behind: seq<Byte>, head: seq<Byte>, chunks: seq<seq<Byte>>)
    requires Acceptable(kind, m) && NonEmpty(chunks) && chunks != []
    requires head + Flatten(chunks) == Frame(kind, m) + behind
    requires HeadLength(kind) <= |head + chunks[0]| < |Frame(kind, m)|
    ensures var p := ArriveAll(kind, AtHead(head), chunks);
            if behind == [] then p == Progress(Spent(m), [Split(m)]) else p.rx == Spinning
  {
    Regroup(head, chunks, Frame(kind, m) + behind);
    var rx := RestOfFirst(kind, m, behind, head + chunks[0], chunks[1..]);
    SilentFirst(kind, head, chunks, rx);
  }

  lemma CutOutcome(kind: Kind, p: Progress, clean: bool, ms: seq<Message>, tail: seq<Byte>)
    requires Tail(kind, tail) && ms != []
    requires clean <==> ms[1..] == [] && tail == []
    requires if clean then p == Progress(Spent(ms[0]), [Split(ms[0])]) else p.rx == Spinning
    ensures Outcome(kind, p, clean, ms, tail)
  {
    if clean {
      assert ms == [ms[0]] && [Split(ms[0])][1..] == [];
    }
  }

  lemma CutFirst(kind: Kind, ms: seq<Message>, tail: seq<Byte>, head: seq<Byte>, chunks: seq<seq<Byte>>)
    requires AllAcceptable(kind, ms) && Tail(kind, tail) && NonEmpty(chunks) && chunks != [] && ms != []
    requires head + Flatten(chunks) == FrameAll(kind, ms) + tail
    requires HeadLength(kind) <= |head + chunks[0]| < |Frame(kind, ms[0])|
    ensures var clean := Clean(kind, Marked(ms, tail), |head|, chunks);
            Outcome(kind, ArriveAll(kind, AtHead(head), chunks), clean, ms, tail)
  {
    StreamCons(kind, ms, tail);
    CutRun(kind, ms[0], FrameAll(kind, ms[1..]) + tail, head, chunks);
    MarkedCons(ms, tail);
    CleanCut(kind, Marked(ms, tail), |head|, chunks);
    CutOutcome(kind, ArriveAll(kind, AtHead(head), chunks), Clean(kind, Marked(ms, tail), |head|, chunks), ms, tail);
  }

  /** The arrivals that are left when the first one ends with `r` behind the first message. */
  function Rest(chunks: seq<seq<Byte>>, r: seq<Byte>): seq<seq<Byte>>
    requires chunks != []
  {
    if r == [] then chunks[1..] else [r] + chunks[1..]
  }

  /** What the first arrival brought behind the first message. */
  lemma Remainder(kind: Kind, m: Message, behind: seq<Byte>, head: seq<Byte>, chunks: seq<seq<Byte>>)
    returns (r: seq<Byte>)
    requires NonEmpty(chunks) && chunks != []
    requires head + Flatten(chunks) == Frame(kind, m) + behind
    requires |head + chunks[0]| >= |Frame(kind, m)|
    ensures head + chunks[0] == Frame(kind, m) + r
    ensures NonEmpty(Rest(chunks, r)) && [] + Flatten(Rest(chunks, r)) == behind
  {
    var s, later, frame := head + chunks[0], chunks[1..], Frame(kind, m);
    Assoc(head, chunks[0], Flatten(later));
    r := s[|frame|..];
    Align(s, Flatten(later), frame, behind);
    if r != [] {
      assert ([r] + later)[1..] == later;
    }
  }

  lemma NotInHead(kind: Kind, ms: seq<Message>)
    ensures !InsideBody(kind, ms, 0)
  {
  }

  /** Dropping the first message, with the arrival ending exactly behind it or further on. */
  lemma CleanDrop(kind: Kind, ms: seq<Message>, at: nat, chunks: seq<seq<Byte>>)
    requires chunks != [] && ms != []
    requires at + |chunks[0]| == |Frame(kind, ms[0])|
    ensures Clean(kind, ms, at, chunks) == Clean(kind, ms[1..], 0, chunks[1..])
  {
    NotInHead(kind, ms[1..]);
    CleanShift(kind, ms, at + |chunks[0]|, chunks[1..]);
  }

  lemma CleanDropMore(kind: Kind, ms: seq<Message>, at: nat, chunks: seq<seq<Byte>>, r: seq<Byte>)
    requires chunks != [] && ms != []
    requires at + |chunks[0]| == |Frame(kind, ms[0])| + |r|
    ensures Clean(kind, ms, at, chunks) == Clean(kind, ms[1..], 0, [r] + chunks[1..])
  {
    var rest := [r] + chunks[1..];
    assert rest[0] == r && rest[1..] == chunks[1..];
    CleanShift(kind, ms, at + |chunks[0]|, chunks[1..]);
    CleanUnfold(kind, ms, at, chunks);
    CleanUnfold(kind, ms[1..], 0, rest);
  }

  /** At a boundary the first arrival stands for itself. */
  lemma FirstChunk(kind: Kind, r: seq<Byte>, later: seq<seq<Byte>>)
    requires r != [] && NonEmpty(later)
    ensures var p := FromHead(kind, r);
            var z := ArriveAll(kind, p.rx, later);
            NonEmpty([r] + later) && ArriveAll(kind, AtHead([]), [r] + later) == Progress(z.rx, p.out + z.out)
  {
    assert ([r] + later)[1..] == later;
    TurnBoundary(kind, r);
  }

  /** Delivering a message out of an arrival is delivering it in front of the rest of that arrival. */
  lemma FirstArrival(kind: Kind, m: Message, r: seq<Byte>, later: seq<seq<Byte>>)
    requires Acceptable(kind, m) && NonEmpty(later)
    ensures var rest := if r == [] then later else [r] + later;
            var q := ArriveAll(kind, AtHead([]), rest);
            var p := FromHead(kind, Frame(kind, m) + r);
            var z := ArriveAll(kind, p.rx, later);
            NonEmpty(rest) && Progress(z.rx, p.out + z.out) == Progress(q.rx, [Whole(m)] + q.out)
  {
    WholeFirst(kind, m, r);
    var p := FromHead(kind, r);
    if r == [] {
      assert p == Progress(AtHead([]), []);
      assert [Whole(m)] + [] == [Whole(m)];
    } else {
      FirstChunk(kind, r, later);
      Assoc([Whole(m)], p.out, ArriveAll(kind, p.rx, later).out);
    }
  }

  lemma CleanWhole(kind: Kind, all: seq<Message>, head: seq<Byte>, chunks: seq<seq<Byte>>, r: seq<Byte>)
    requires chunks != [] && all != [] && head + chunks[0] == Frame(kind, all[0]) + r
    ensures Clean(kind, all, |head|, chunks) == Clean(kind, all[1..], 0, Rest(chunks, r))
  {
    var at := |head|;
    assert at + |chunks[0]| == |head + chunks[0]| == |Frame(kind, all[0])| + |r|;
    if r == [] {
      CleanDrop(kind, all, at, chunks);
    } else {
      CleanDropMore(kind, all, at, chunks, r);
    }
  }

  lemma WholeRun(kind: Kind, m: Message, r: seq<Byte>, head: seq<Byte>, chunks: seq<seq<Byte>>) returns (q: Progress)
    requires Acceptable(kind, m) && NonEmpty(chunks) && chunks != [] && head + chunks[0] == Frame(kind, m) + r
    ensures NonEmpty(Rest(chunks, r)) && q == ArriveAll(kind, AtHead([]), Rest(chunks, r))
    ensures ArriveAll(kind, AtHead(head), chunks) == Progress(q.rx, [Whole(m)] + q.out)
  {
    FirstArrival(kind, m, r, chunks[1..]);
    q := ArriveAll(kind, AtHead([]), Rest(chunks, r));
  }

  /** The first arrival covers the first message. */
  lemma WholeThenRest(
    kind: Kind, ms: seq<Message>, tail: seq<Byte>, head: seq<Byte>, chunks: seq<seq<Byte>>, r: seq<Byte>)
    requires Tail(kind, tail) && NonEmpty(chunks) && chunks != [] && ms != [] && Acceptable(kind, ms[0])
    requires head + chunks[0] == Frame(kind, ms[0]) + r && NonEmpty(Rest(chunks, r))
    requires var clean := Clean(kind, Marked(ms[1..], tail), 0, Rest(chunks, r));
             Outcome(kind, ArriveAll(kind, AtHead([]), Rest(chunks, r)), clean, ms[1..], tail)
    ensures var clean := Clean(kind, Marked(ms, tail), |head|, chunks);
            Outcome(kind, ArriveAll(kind, AtHead(head), chunks), clean, ms, tail)
  {
    MarkedCons(ms, tail);
    CleanWhole(kind, Marked(ms, tail), head, chunks, r);
    var q := WholeRun(kind, ms[0], r, head, chunks);
    OutcomeCons(kind, q, Clean(kind, Marked(ms, tail), |head|, chunks), ms, tail);
  }

  /** Nothing but the tail is left, and its head is there. */
  lemma RefusedRun(kind: Kind, tail: seq<Byte>, head: seq<Byte>, chunks: seq<seq<Byte>>)
    requires tail != [] && Tail(kind, tail) && NonEmpty(chunks) && chunks != []
    requires head + Flatten(chunks) == tail && |head + chunks[0]| >= HeadLength(kind)
    ensures ArriveAll(kind, AtHead(head), chunks) == Progress(Closed(NegativeHead(kind, tail)), [])
  {
    var s := head + chunks[0];
    Assoc(head, chunks[0], Flatten(chunks[1..]));
    assert s <= tail;
    RefusedHead(kind, tail, s);
    ClosedStays(kind, NegativeHead(kind, tail), chunks[1..]);
  }

  lemma {:induction false} FromBoundary(
    kind: Kind, ms: seq<Message>, tail: seq<Byte>, head: seq<Byte>, chunks: seq<seq<Byte>>)
    requires AllAcceptable(kind, ms) && Tail(kind, tail) && NonEmpty(chunks) && |head| < HeadLength(kind)
    requires head + Flatten(chunks) == FrameAll(kind, ms) + tail
    ensures var clean := Clean(kind, Marked(ms, tail), |head|, chunks);
            Outcome(kind, ArriveAll(kind, AtHead(head), chunks), clean, ms, tail)
    decreases |ms|, |chunks|
  {
    FrameAllEmpty(kind, ms);
    if chunks == [] {
      assert head == [] && ms == [] && tail == [];
    } else {
      NothingPending(chunks);
      var s, later, all := head + chunks[0], chunks[1..], Marked(ms, tail);
      assert all != [];
      if |s| < HeadLength(kind) {
        Assoc(head, chunks[0], Flatten(later));
        FromBoundary(kind, ms, tail, s, later);
        ShortHead(kind, all, head, chunks);
      } else if ms == [] {
        assert FrameAll(kind, ms) + tail == tail && all == [NOTHING];
        RefusedRun(kind, tail, head, chunks);
        CleanLast(kind, NOTHING, |head|, chunks);
      } else if |s| < |Frame(kind, ms[0])| {
        CutFirst(kind, ms, tail, head, chunks);
      } else {
        StreamCons(kind, ms, tail);
        var r := Remainder(kind, ms[0], FrameAll(kind, ms[1..]) + tail, head, chunks);
        FromBoundary(kind, ms[1..], tail, [], Rest(chunks, r));
        WholeThenRest(kind, ms, tail, head, chunks, r);
      }
    }
  }

  /**
   * For any acceptable messages and any cutting of their bytes into arrivals: the session hangs
   * exactly when some arrival ends inside the body of a message that another one follows, and
   * otherwise it delivers exactly those messages, in order.
   */
  lemma DeliversIffClean(kind: Kind, ms: seq<Message>, chunks: seq<seq<Byte>>)
    requires AllAcceptable(kind, ms) && NonEmpty(chunks) && Flatten(chunks) == FrameAll(kind, ms)
    ensures var p := ArriveAll(kind, AtHead([]), chunks);
            && (p.rx == Spinning <==> !Clean(kind, ms, 0, chunks))
            && (p.rx != Spinning ==> Messages(p.out) == ms)
  {
    assert [] + Flatten(chunks) == Flatten(chunks) == FrameAll(kind, ms) + [];
    FromBoundary(kind, ms, [], [], chunks);
  }

  /**
   * The same with a refused head and any bytes behind those messages: unless it hangs before that,
   * the session delivers exactly the messages in front and is closed, without a fault if an id or
   * length is too large and with one if it is a negative length.
   */
  lemma RefusesIffClean(kind: Kind, ms: seq<Message>, tail: seq<Byte>, chunks: seq<seq<Byte>>)
    requires AllAcceptable(kind, ms) && NonEmpty(chunks) && Flatten(chunks) == FrameAll(kind, ms) + tail
    requires |tail| >= HeadLength(kind) && (TooLargeHead(kind, tail) || NegativeHead(kind, tail))
    ensures var p := ArriveAll(kind, AtHead([]), chunks);
            && (p.rx == Spinning <==> !Clean(kind, ms + [NOTHING], 0, chunks))
            && (p.rx != Spinning ==> Messages(p.out) == ms && p.rx == Closed(!TooLargeHead(kind, tail)))
  {
    assert [] + Flatten(chunks) == Flatten(chunks);
    FromBoundary(kind, ms, tail, [], chunks);
  }

  /** Which message is last does not matter for where a cut is harmful. */
  lemma {:induction false} InsideBodyLast(kind: Kind, ms: seq<Message>, m: Message, n: Message, at: nat)
    ensures InsideBody(kind, ms + [m], at) == InsideBody(kind, ms + [n], at)
    decreases ms
  {
    var x, y := ms + [m], ms + [n];
    if ms == [] {
      assert x[1..] == [] && y[1..] == [];
    } else {
      assert x[1..] == ms[1..] + [m] && y[1..] == ms[1..] + [n];
      if at >= |Frame(kind, ms[0])| {
        InsideBodyLast(kind, ms[1..], m, n, at - |Frame(kind, ms[0])|);
      }
    }
  }

  lemma {:induction false} CleanLastAny(
    kind: Kind, ms: seq<Message>, m: Message, n: Message, at: nat, chunks: seq<seq<Byte>>)
    ensures Clean(kind, ms + [m], at, chunks) == Clean(kind, ms + [n], at, chunks)
    decreases chunks
  {
    if chunks != [] {
      InsideBodyLast(kind, ms, m, n, at + |chunks[0]|);
      CleanLastAny(kind, ms, m, n, at + |chunks[0]|, chunks[1..]);
    }
  }

  lemma {:induction false} FrameAllAppend(kind: Kind, ms: seq<Message>, ns: seq<Message>)
    ensures FrameAll(kind, ms + ns) == FrameAll(kind, ms) + FrameAll(kind, ns)
    decreases ms
  {
    if ms == [] {
      assert ms + ns == ns;
    } else {
      assert (ms + ns)[1..] == ms[1..] + ns;
      FrameAllAppend(kind, ms[1..], ns);
      Assoc(Frame(kind, ms[0]), FrameAll(kind, ms[1..]), FrameAll(kind, ns));
    }
  }

  /** The head of a message that can be framed, and is over a limit. */
  lemma TooLargeMessage(kind: Kind, m: Message, rest: seq<Byte>)
    requires !Acceptable(kind, m) && |m.payload| <= 0x7FFF && (kind.LengthOnly? ==> m.id == 0)
    ensures TooLargeHead(kind, Frame(kind, m) + rest)
  {
    var len := ToInt16(|m.payload|);
    NetworkOrder(len);
    NetworkOrder(m.id);
    var s, h := Frame(kind, m) + rest, FrameHead(kind, m);
    assert forall i | 0 <= i < |h| :: s[i] == h[i];
  }

  /**
   * For any messages that can be framed, the first unacceptable one of which is `m`, and any cutting:
   * the session hangs exactly when an arrival ends inside a body in front of `m`, and otherwise it
   * delivers exactly the messages in front of `m` and is closed.
   */
  lemma RefusesMessage(kind: Kind, ms: seq<Message>, m: Message, more: seq<Message>, chunks: seq<seq<Byte>>)
    requires AllAcceptable(kind, ms) && !Acceptable(kind, m)
    requires |m.payload| <= 0x7FFF && (kind.LengthOnly? ==> m.id == 0)
    requires NonEmpty(chunks) && Flatten(chunks) == FrameAll(kind, ms + [m] + more)
    ensures var p := ArriveAll(kind, AtHead([]), chunks);
            && (p.rx == Spinning <==> !Clean(kind, ms + [m], 0, chunks))
            && (p.rx != Spinning ==> Messages(p.out) == ms && p.rx == Closed(false))
  {
    var tail := FrameAll(kind, [m] + more);
    assert ms + [m] + more == ms + ([m] + more);
    FrameAllAppend(kind, ms, [m] + more);
    assert ([m] + more)[1..] == more;
    TooLargeMessage(kind, m, FrameAll(kind, more));
    RefusesIffClean(kind, ms, tail, chunks);
    CleanLastAny(kind, ms, m, NOTHING, 0, chunks);
  }

  /** A concrete stream on which the server hangs: two messages, the first one cut after its head. */
  lemma HangsOnSplitBody()
    ensures var a, b := Message(0, [7]), Message(0, [8]);
            var chunks := [Frame(LengthOnly, a)[..2], Frame(LengthOnly, a)[2..] + Frame(LengthOnly, b)];
            && NonEmpty(chunks) && Flatten(chunks) == FrameAll(LengthOnly, [a, b])
            && ArriveAll(LengthOnly, AtHead([]), chunks).rx == Spinning
  {
    var a, b := Message(0, [7]), Message(0, [8]);
    var ms := [a, b];
    var chunks := [Frame(LengthOnly, a)[..2], Frame(LengthOnly, a)[2..] + Frame(LengthOnly, b)];
    assert ms[1..] == [b] && [b][1..] == [];
    assert FrameAll(LengthOnly, [b]) == Frame(LengthOnly, b) + [];
    var last := [chunks[1]];
    assert chunks[1..] == last && last[1..] == [];
    assert Flatten(last) == chunks[1] + [];
    assert Flatten(chunks) == FrameAll(LengthOnly, ms);
    assert InsideBody(LengthOnly, ms, 2);
    DeliversIffClean(LengthOnly, ms, chunks);
  }
}
