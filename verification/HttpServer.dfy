/**
 * The HTTP server: connections whose read, write and deadline handlers race, the accept loop that
 * starts them, and the request counter they share. Handlers run one at a time on one thread, so an
 * interleaving is a sequence of handler runs and of completions arriving from outside.
 */
module HttpServer {

  datatype Verb = GetVerb | PostVerb | OtherVerb

  datatype Request = Request(verb: Verb, target: string)

  datatype Status = Ok | BadRequest | NotFound

  datatype Body =
    | Count(n: nat)         // "There have been n requests so far"
    | Time
    | FileNotFound
    | InvalidMethod
    | Email                 // the JSON reply of POST /email

  datatype Response = Response(status: Status, contentType: string, serverField: bool, body: Body)

  /** Does the request show the counter? */
  predicate AsksCount(r: Request) {
    r.verb.GetVerb? && r.target == "/count"
  }

  /** The response to a request when the counter stands at `count`. */
  function Respond(r: Request, count: nat): Response {
    match r.verb
    case GetVerb =>
      if r.target == "/count" then Response(Ok, "text/html", true, Count(count + 1))
      else if r.target == "/time" then Response(Ok, "text/html", true, Time)
      else Response(NotFound, "text/plain", true, FileNotFound)
    case PostVerb =>
      if r.target == "/email" then Response(Ok, "text/json", true, Email)
      else Response(NotFound, "text/plain", true, FileNotFound)
    case OtherVerb => Response(BadRequest, "text/plain", false, InvalidMethod)
  }

  /** The numbers a response shows. */
  function NumbersIn(r: Response): seq<nat> {
    if r.body.Count? then [r.body.n] else []
  }

  /** What is answered to each request; exactly GET /count shows a number, and it is the next one. */
  lemma RespondMeans(r: Request, count: nat)
    ensures NumbersIn(Respond(r, count)) == if r == Request(GetVerb, "/count") then [count + 1] else []
    ensures AsksCount(r) <==> r == Request(GetVerb, "/count")
    ensures Respond(r, count).body ==
            if r == Request(GetVerb, "/count") then Count(count + 1)
            else if r == Request(GetVerb, "/time") then Time
            else if r == Request(PostVerb, "/email") then Email
            else if r.verb.OtherVerb? then InvalidMethod
            else FileNotFound
    ensures Respond(r, count).serverField <==> !r.verb.OtherVerb?
    ensures Respond(r, count).contentType in ["text/html", "text/json", "text/plain"]
    ensures Respond(r, count).status == BadRequest <==> r.verb.OtherVerb?
    ensures Respond(r, count).status == Ok <==>
            (r.verb.GetVerb? && r.target in ["/count", "/time"]) || (r.verb.PostVerb? && r.target == "/email")
    ensures Respond(r, count).contentType == "text/html" <==>
            Respond(r, count).body.Count? || Respond(r, count).body.Time?
    ensures Respond(r, count).contentType == "text/json" <==> Respond(r, count).body.Email?
  {
  }

  // ---------------------------------------------------------------- one connection

  /** An asynchronous operation: not started, running, finished with its handler queued, handled. */
  datatype Op = NotStarted | Outstanding | Queued(ok: bool) | Handled(ok: bool)

  predicate Active(op: Op) { op.Outstanding? || op.Queued? }

  datatype Conn = Conn(
    read: Op,
    write: Op,
    deadline: Op,
    open: bool,                   // the socket is not closed
    sendShutdown: bool,           // the send side was shut down
    responses: seq<Response>)     // responses handed to async_write

  datatype ConnEvent =
    | ReadCompletes(ok: bool)
    | WriteCompletes(ok: bool)
    | DeadlineExpires
    | OnRead(request: Request)    // the read handler; the request counts only when the read was fine
    | OnWrite
    | OnDeadline

  /** After start(): the read and the deadline timer are both running. */
  const STARTED := Conn(Outstanding, NotStarted, Outstanding, true, false, [])

  predicate Enabled(c: Conn, e: ConnEvent) {
    match e
    case ReadCompletes(ok) => c.read.Outstanding? && (ok ==> c.open)
    case WriteCompletes(ok) => c.write.Outstanding? && (ok ==> c.open)
    case DeadlineExpires => c.deadline.Outstanding?
    case OnRead(_) => c.read.Queued?
    case OnWrite => c.write.Queued?
    case OnDeadline => c.deadline.Queued?
  }

  /** Closing a socket aborts the operations that run on it. */
  function Abort(op: Op): Op {
    if op.Outstanding? then Queued(false) else op
  }

  function Step(c: Conn, e: ConnEvent, count: nat): Conn
    requires Enabled(c, e)
  {
    match e
    case ReadCompletes(ok) => c.(read := Queued(ok))
    case WriteCompletes(ok) => c.(write := Queued(ok))
    case DeadlineExpires => c.(deadline := Queued(true))
    case OnRead(request) =>
      var d := c.(read := Handled(c.read.ok));
      if c.read.ok then d.(write := Outstanding, responses := d.responses + [Respond(request, count)]) else d
    case OnWrite =>
      c.(write := Handled(c.write.ok), sendShutdown := true, deadline := Abort(c.deadline))
    case OnDeadline =>
      var d := c.(deadline := Handled(c.deadline.ok));
      if c.deadline.ok then d.(open := false, read := Abort(d.read), write := Abort(d.write)) else d
  }

  /** What holds of a connection in every interleaving. */
  predicate ConnInv(c: Conn) {
    && !c.read.NotStarted? && !c.deadline.NotStarted?
    && (!c.write.NotStarted? <==> c.read == Handled(true))
    && |c.responses| == (if c.write.NotStarted? then 0 else 1)
    && (c.sendShutdown <==> c.write.Handled?)
    && (c.deadline == Queued(false) || c.deadline == Handled(false) ==> c.write.Handled?)
    && (c.deadline.Outstanding? ==> !c.write.Handled?)
    && (c.open <==> c.deadline != Handled(true))
    && (!c.open ==> !c.read.Outstanding?)
  }

  lemma StepKeepsConn(c: Conn, e: ConnEvent, count: nat)
    requires ConnInv(c) && Enabled(c, e)
    ensures ConnInv(Step(c, e, count))
  {
  }

  /** At most one of read and write is running or waiting for its handler; at most one response. */
  lemma OneAtATime(c: Conn)
    requires ConnInv(c)
    ensures !(Active(c.read) && Active(c.write))
    ensures |c.responses| <= 1
  {
  }

  function OpWork(op: Op): nat {
    match op case NotStarted => 3 case Outstanding => 2 case Queued(_) => 1 case Handled(_) => 0
  }

  /** How many more events the connection can see. */
  function Work(c: Conn): nat {
    OpWork(c.read) + OpWork(c.write) + OpWork(c.deadline)
  }

  lemma WorkDecreases(c: Conn, e: ConnEvent, count: nat)
    requires ConnInv(c) && Enabled(c, e)
    ensures Work(Step(c, e, count)) < Work(c)
  {
  }

  predicate Quiet(c: Conn) {
    !Active(c.read) && !Active(c.write) && !Active(c.deadline)
  }

  /**
   * When nothing is pending any more, the deadline has closed the socket or the write handler has
   * shut down the send side; a response was attempted exactly when the read succeeded.
   */
  lemma QuietIsClosed(c: Conn)
    requires ConnInv(c) && Quiet(c)
    ensures !c.open || c.sendShutdown
    ensures |c.responses| == 1 <==> c.read == Handled(true)
    ensures !c.sendShutdown ==> c.read == Handled(false)
  {
  }

  /** A connection that is not quiet can always make progress. */
  lemma NotQuietMoves(c: Conn) returns (e: ConnEvent)
    requires ConnInv(c) && !Quiet(c)
    ensures Enabled(c, e)
  {
    e := match c.read
         case Outstanding => ReadCompletes(false)
         case Queued(_) => OnRead(Request(OtherVerb, ""))
         case _ =>
           match c.write
           case Outstanding => WriteCompletes(false)
           case Queued(_) => OnWrite
           case _ => if c.deadline.Outstanding? then DeadlineExpires else OnDeadline;
  }

  /** `d` is reached from `c` by the events `es`, the counter taking the values `counts` meanwhile. */
  ghost predicate ConnReaches(c: Conn, es: seq<ConnEvent>, counts: seq<nat>, d: Conn)
    requires |es| == |counts|
    decreases es
  {
    if es == [] then c == d
    else Enabled(c, es[0]) && ConnReaches(Step(c, es[0], counts[0]), es[1..], counts[1..], d)
  }

  lemma {:induction false} ConnBudget(c: Conn, es: seq<ConnEvent>, counts: seq<nat>, d: Conn)
    requires |es| == |counts| && ConnInv(c) && ConnReaches(c, es, counts, d)
    ensures ConnInv(d) && |es| + Work(d) <= Work(c)
    decreases es
  {
    if es != [] {
      StepKeepsConn(c, es[0], counts[0]);
      WorkDecreases(c, es[0], counts[0]);
      ConnBudget(Step(c, es[0], counts[0]), es[1..], counts[1..], d);
    }
  }

  // ---------------------------------------------------------------- what the events alone decide

  /** The responses to these requests: those read after a read that succeeded. */
  function Replies(ready: bool, es: seq<ConnEvent>, counts: seq<nat>): seq<Response>
    requires |es| == |counts|
    decreases es
  {
    if es == [] then []
    else
      match es[0]
      case ReadCompletes(ok) => Replies(ok, es[1..], counts[1..])
      case OnRead(request) =>
        (if ready then [Respond(request, counts[0])] else []) + Replies(ready, es[1..], counts[1..])
      case _ => Replies(ready, es[1..], counts[1..])
  }

  predicate Succeeded(op: Op) {
    op == Queued(true) || op == Handled(true)
  }

  lemma {:induction false} ConnReplies(c: Conn, es: seq<ConnEvent>, counts: seq<nat>, d: Conn)
    requires |es| == |counts| && ConnInv(c) && ConnReaches(c, es, counts, d)
    ensures d.responses == c.responses + Replies(Succeeded(c.read), es, counts)
    decreases es
  {
    if es == [] {
      assert c.responses + [] == c.responses;
    } else {
      var more := Replies(Succeeded(c.read), es[1..], counts[1..]);
      StepKeepsConn(c, es[0], counts[0]);
      ConnReplies(Step(c, es[0], counts[0]), es[1..], counts[1..], d);
      assert [] + more == more;
      if es[0].OnRead? && c.read.ok {
        var first := [Respond(es[0].request, counts[0])];
        assert (c.responses + first) + more == c.responses + (first + more);
      }
    }
  }

  lemma {:induction false} ConnEnds(c: Conn, es: seq<ConnEvent>, counts: seq<nat>, d: Conn)
    requires |es| == |counts| && ConnInv(c) && ConnReaches(c, es, counts, d)
    ensures Succeeded(d.read) <==> Succeeded(c.read) || ReadCompletes(true) in es
    ensures Succeeded(d.write) <==> Succeeded(c.write) || WriteCompletes(true) in es
    ensures d.sendShutdown <==> c.sendShutdown || OnWrite in es
    ensures d.open <==> c.open && !((c.deadline == Queued(true) || DeadlineExpires in es) && OnDeadline in es)
    decreases es
  {
    if es != [] {
      StepKeepsConn(c, es[0], counts[0]);
      ConnEnds(Step(c, es[0], counts[0]), es[1..], counts[1..], d);
      assert es == [es[0]] + es[1..];
    }
  }

  /**
   * A connection sees at most seven events, in whatever order. Its responses, whether it was shut
   * down for sending and whether it was closed follow from those events alone.
   */
  lemma ConnRun(es: seq<ConnEvent>, counts: seq<nat>, d: Conn)
    requires |es| == |counts| && ConnReaches(STARTED, es, counts, d)
    ensures ConnInv(d) && |es| <= 7
    ensures d.responses == Replies(false, es, counts)
    ensures Succeeded(d.read) <==> ReadCompletes(true) in es
    ensures Succeeded(d.write) <==> WriteCompletes(true) in es
    ensures d.sendShutdown <==> OnWrite in es
    ensures d.open <==> !(DeadlineExpires in es && OnDeadline in es)
  {
    ConnBudget(STARTED, es, counts, d);
    ConnReplies(STARTED, es, counts, d);
    ConnEnds(STARTED, es, counts, d);
    assert [] + Replies(false, es, counts) == Replies(false, es, counts);
  }

  lemma ConnFirst(c: Conn, e: ConnEvent, count: nat, es: seq<ConnEvent>, counts: seq<nat>, d: Conn)
    requires |es| == |counts| && Enabled(c, e) && ConnReaches(Step(c, e, count), es, counts, d)
    ensures ConnReaches(c, [e] + es, [count] + counts, d)
  {
    assert ([e] + es)[1..] == es && ([count] + counts)[1..] == counts;
  }

  /** Any request can be served on an open connection that is still being read. */
  lemma CanServe(c: Conn, request: Request, count: nat) returns (es: seq<ConnEvent>, counts: seq<nat>, d: Conn)
    requires ConnInv(c) && c.open && c.read.Outstanding?
    ensures |es| == |counts| && ConnReaches(c, es, counts, d)
    ensures d.responses == [Respond(request, count)] && d.sendShutdown && d.open
  {
    var e1, e2, e3 := ReadCompletes(true), OnRead(request), WriteCompletes(true);
    var c1 := Step(c, e1, count);
    var c2 := Step(c1, e2, count);
    var c3 := Step(c2, e3, count);
    d := Step(c3, OnWrite, count);
    assert ConnReaches(d, [], [], d);
    ConnFirst(c3, OnWrite, count, [], [], d);
    ConnFirst(c2, e3, count, [OnWrite] + [], [count] + [], d);
    ConnFirst(c1, e2, count, [e3] + ([OnWrite] + []), [count] + ([count] + []), d);
    es := [e1] + ([e2] + ([e3] + ([OnWrite] + [])));
    counts := [count] + ([count] + ([count] + ([count] + [])));
    ConnFirst(c, e1, count, [e2] + ([e3] + ([OnWrite] + [])), [count] + ([count] + ([count] + [])), d);
  }

  /** A connection whose timer runs can be closed by it, which ends the operations that run on it. */
  lemma CanTimeOut(c: Conn, count: nat) returns (d: Conn)
    requires ConnInv(c) && c.deadline.Outstanding?
    ensures ConnReaches(c, [DeadlineExpires, OnDeadline], [count, count], d)
    ensures !d.open && !d.read.Outstanding? && !d.write.Outstanding?
  {
    var c1 := Step(c, DeadlineExpires, count);
    d := Step(c1, OnDeadline, count);
    assert ConnReaches(d, [], [], d);
    ConnFirst(c1, OnDeadline, count, [], [], d);
    assert [OnDeadline] + [] == [OnDeadline] && [count] + [] == [count];
    ConnFirst(c, DeadlineExpires, count, [OnDeadline], [count], d);
    assert [DeadlineExpires] + [OnDeadline] == [DeadlineExpires, OnDeadline] && [count] + [count] == [count, count];
  }

  // ---------------------------------------------------------------- the whole server

  datatype Server = Server(
    accepts: nat,                 // accept operations pending
    accepted: nat,                // successful accepts so far
    conns: seq<Conn>,             // connections started
    count: nat,                   // the static request counter
    shown: seq<nat>)              // the numbers in GET /count responses, in processing order

  datatype ServerEvent =
    | OnAccept(ok: bool)
    | OnConn(i: nat, event: ConnEvent)

  /** http_server(): one accept is started before the loop runs. */
  const LISTENING := Server(1, 0, [], 0, [])

  predicate CanHandle(s: Server, e: ServerEvent) {
    match e
    case OnAccept(_) => s.accepts > 0
    case OnConn(i, ce) => i < |s.conns| && Enabled(s.conns[i], ce)
  }

  function Handle(s: Server, e: ServerEvent): Server
    requires CanHandle(s, e)
  {
    match e
    case OnAccept(ok) =>
      var t := s.(accepts := s.accepts - 1);
      var u := if ok then t.(accepted := t.accepted + 1, conns := t.conns + [STARTED]) else t;
      u.(accepts := u.accepts + 1)
    case OnConn(i, ce) =>
      var c := s.conns[i];
      var t := s.(conns := s.conns[i := Step(c, ce, s.count)]);
      if ce.OnRead? && c.read.ok then
        t.(count := s.count + (if AsksCount(ce.request) then 1 else 0),
           shown := s.shown + NumbersIn(Respond(ce.request, s.count)))
      else t
  }

  /** The numbers 1, 2, ..., k. */
  function OneTo(k: nat): seq<nat> {
    seq(k, i => i + 1)
  }

  /** How often the number `n` is shown by these responses. */
  function InResponses(rs: seq<Response>, n: nat): nat {
    if rs == [] then 0 else (if rs[0].body == Count(n) then 1 else 0) + InResponses(rs[1..], n)
  }

  /** How often the number `n` is shown by the responses of these connections. */
  function InConns(cs: seq<Conn>, n: nat): nat {
    if cs == [] then 0 else InResponses(cs[0].responses, n) + InConns(cs[1..], n)
  }

  /** Each of the numbers 1, 2, ..., k is in exactly one response, and no other number in any. */
  ghost predicate ShownOnce(cs: seq<Conn>, k: nat) {
    forall n: nat :: InConns(cs, n) == if 1 <= n <= k then 1 else 0
  }

  lemma {:induction false} InResponsesAppend(rs: seq<Response>, r: Response, n: nat)
    ensures InResponses(rs + [r], n) == InResponses(rs, n) + if r.body == Count(n) then 1 else 0
    decreases rs
  {
    var ss := rs + [r];
    if rs == [] {
      assert ss[1..] == [];
    } else {
      assert ss[0] == rs[0] && ss[1..] == rs[1..] + [r];
      InResponsesAppend(rs[1..], r, n);
    }
  }

  lemma {:induction false} InConnsAppend(cs: seq<Conn>, c: Conn, n: nat)
    ensures InConns(cs + [c], n) == InConns(cs, n) + InResponses(c.responses, n)
    decreases cs
  {
    var ds := cs + [c];
    if cs == [] {
      assert ds[1..] == [];
    } else {
      assert ds[0] == cs[0] && ds[1..] == cs[1..] + [c];
      InConnsAppend(cs[1..], c, n);
    }
  }

  lemma {:induction false} InConnsUpdate(cs: seq<Conn>, i: nat, d: Conn, n: nat)
    requires i < |cs|
    ensures InConns(cs[i := d], n) + InResponses(cs[i].responses, n) == InConns(cs, n) + InResponses(d.responses, n)
    decreases cs
  {
    var ds := cs[i := d];
    if i == 0 {
      assert ds[1..] == cs[1..];
    } else {
      assert ds[0] == cs[0] && ds[1..] == cs[1..][i - 1 := d];
      InConnsUpdate(cs[1..], i - 1, d, n);
    }
  }

  lemma HandleShowsOnce(s: Server, e: ServerEvent)
    requires CanHandle(s, e) && ShownOnce(s.conns, s.count)
    ensures ShownOnce(Handle(s, e).conns, Handle(s, e).count)
  {
    var t := Handle(s, e);
    forall n: nat ensures InConns(t.conns, n) == if 1 <= n <= t.count then 1 else 0 {
      match e
      case OnAccept(_) => InConnsAppend(s.conns, STARTED, n);
      case OnConn(i, ce) =>
        var c := s.conns[i];
        InConnsUpdate(s.conns, i, Step(c, ce, s.count), n);
        if ce.OnRead? && c.read.ok {
          InResponsesAppend(c.responses, Respond(ce.request, s.count), n);
          RespondMeans(ce.request, s.count);
        }
    }
  }

  ghost predicate ServerInv(s: Server) {
    && s.accepts == 1
    && |s.conns| == s.accepted
    && s.shown == OneTo(s.count)
    && ShownOnce(s.conns, s.count)
    && forall i | 0 <= i < |s.conns| :: ConnInv(s.conns[i])
  }

  lemma HandleKeeps(s: Server, e: ServerEvent)
    requires ServerInv(s) && CanHandle(s, e)
    ensures ServerInv(Handle(s, e))
  {
    HandleShowsOnce(s, e);
    assert ConnInv(STARTED);
    assert OneTo(s.count) + [s.count + 1] == OneTo(s.count + 1);
    match e
    case OnAccept(_) =>
    case OnConn(i, ce) =>
      StepKeepsConn(s.conns[i], ce, s.count);
      assert s.shown + [] == s.shown;
  }

  ghost predicate Reaches(s: Server, es: seq<ServerEvent>, t: Server)
    decreases es
  {
    if es == [] then s == t else CanHandle(s, es[0]) && Reaches(Handle(s, es[0]), es[1..], t)
  }

  lemma {:induction false} ReachesKeeps(s: Server, es: seq<ServerEvent>, t: Server)
    requires ServerInv(s) && Reaches(s, es, t)
    ensures ServerInv(t)
    decreases es
  {
    if es != [] {
      HandleKeeps(s, es[0]);
      ReachesKeeps(Handle(s, es[0]), es[1..], t);
    }
  }

  // ---------------------------------------------------------------- what the run's events decide

  /** The events of a run that belong to connection `i`. */
  function EventsAt(es: seq<ServerEvent>, i: nat): seq<ConnEvent> {
    if es == [] then []
    else (if es[0].OnConn? && es[0].i == i then [es[0].event] else []) + EventsAt(es[1..], i)
  }

  /** The connection's responses are the replies to its events, with some values of the counter. */
  ghost predicate Replied(c: Conn, es: seq<ConnEvent>) {
    exists counts :: |counts| == |es| && c.responses == Replies(false, es, counts)
  }

  /** What a run of the server is for one of its connections. */
  lemma {:induction false} Projects(s: Server, es: seq<ServerEvent>, t: Server, i: nat) returns (counts: seq<nat>)
    requires Reaches(s, es, t) && i < |t.conns|
    ensures |counts| == |EventsAt(es, i)|
    ensures ConnReaches(if i < |s.conns| then s.conns[i] else STARTED, EventsAt(es, i), counts, t.conns[i])
    decreases es
  {
    if es == [] {
      counts := [];
    } else {
      counts := Projects(Handle(s, es[0]), es[1..], t, i);
      if es[0].OnConn? && es[0].i == i {
        ConnFirst(s.conns[i], es[0].event, s.count, EventsAt(es[1..], i), counts, t.conns[i]);
        counts := [s.count] + counts;
      } else {
        assert [] + EventsAt(es[1..], i) == EventsAt(es[1..], i);
      }
    }
  }

  /** How many accepts succeeded. */
  function Accepts(es: seq<ServerEvent>): nat {
    if es == [] then 0 else (if es[0] == OnAccept(true) then 1 else 0) + Accepts(es[1..])
  }

  /** How often GET /count was read, on connections whose read succeeded; `ready` are those so far. */
  function Counted(ready: set<nat>, es: seq<ServerEvent>): nat
    decreases es
  {
    if es == [] then 0
    else
      match es[0]
      case OnConn(i, ReadCompletes(ok)) => Counted(if ok then ready + {i} else ready, es[1..])
      case OnConn(i, OnRead(request)) =>
        (if i in ready && request == Request(GetVerb, "/count") then 1 else 0) + Counted(ready, es[1..])
      case _ => Counted(ready, es[1..])
  }

  ghost predicate Ready(s: Server, ready: set<nat>) {
    forall i: nat :: i in ready <==> i < |s.conns| && Succeeded(s.conns[i].read)
  }

  lemma HandleReady(s: Server, e: ServerEvent, ready: set<nat>)
    requires ServerInv(s) && CanHandle(s, e) && Ready(s, ready)
    ensures var more := if e.OnConn? && e.event == ReadCompletes(true) then ready + {e.i} else ready;
            Ready(Handle(s, e), more)
    ensures |Handle(s, e).conns| == |s.conns| + if e == OnAccept(true) then 1 else 0
    ensures Handle(s, e).count == s.count +
            if e.OnConn? && e.i in ready && e.event == OnRead(Request(GetVerb, "/count")) then 1 else 0
  {
    if e.OnConn? {
      assert ConnInv(s.conns[e.i]);
    }
  }

  lemma {:induction false} Counts(s: Server, es: seq<ServerEvent>, t: Server, ready: set<nat>)
    requires ServerInv(s) && Reaches(s, es, t) && Ready(s, ready)
    ensures t.count == s.count + Counted(ready, es)
    ensures |t.conns| == |s.conns| + Accepts(es)
    decreases es
  {
    if es != [] {
      var e := es[0];
      HandleKeeps(s, e);
      HandleReady(s, e, ready);
      Counts(Handle(s, e), es[1..], t, if e.OnConn? && e.event == ReadCompletes(true) then ready + {e.i} else ready);
    }
  }

  /** A run from the start of the server, which ends in `t`. */
  ghost predicate IsRun(es: seq<ServerEvent>, t: Server) {
    Reaches(LISTENING, es, t)
  }

  /**
   * In every run, with any number of connections: between handlers exactly one accept is pending, a
   * connection was started for each accept that succeeded, and GET /count was answered, in processing
   * order, with 1, 2, ..., K, where K is how often it was read, each number in the response of exactly
   * one connection. No connection sees more than seven events, and what became of it follows from
   * those; its responses do up to the numbers.
   */
  lemma EveryRun(es: seq<ServerEvent>, t: Server)
    requires IsRun(es, t)
    ensures t.accepts == 1 && forall ok :: CanHandle(t, OnAccept(ok))
    ensures |t.conns| == t.accepted == Accepts(es)
    ensures t.shown == OneTo(Counted({}, es))
    ensures ShownOnce(t.conns, Counted({}, es))
    ensures forall i: nat | i < |t.conns| ::
              && ConnInv(t.conns[i])
              && |EventsAt(es, i)| <= 7
              && Replied(t.conns[i], EventsAt(es, i))
              && (t.conns[i].sendShutdown <==> OnWrite in EventsAt(es, i))
              && (t.conns[i].open <==> !(DeadlineExpires in EventsAt(es, i) && OnDeadline in EventsAt(es, i)))
              && (Quiet(t.conns[i]) ==> !t.conns[i].open || t.conns[i].sendShutdown)
  {
    ReachesKeeps(LISTENING, es, t);
    Counts(LISTENING, es, t, {});
    forall i: nat | i < |t.conns|
      ensures |EventsAt(es, i)| <= 7 && Replied(t.conns[i], EventsAt(es, i))
      ensures t.conns[i].sendShutdown <==> OnWrite in EventsAt(es, i)
      ensures t.conns[i].open <==> !(DeadlineExpires in EventsAt(es, i) && OnDeadline in EventsAt(es, i))
    {
      var counts := Projects(LISTENING, es, t, i);
      ConnRun(EventsAt(es, i), counts, t.conns[i]);
    }
  }

  // ---------------------------------------------------------------- the objects

  class ProgramState {
    var count: nat

    constructor ()
      ensures count == 0
    {
      count := 0;
    }

    method RequestCount() returns (n: nat)
      modifies this
      ensures count == old(count) + 1 && n == count
    {
      count := count + 1;
      n := count;
    }
  }

  /** The connection object; the asynchronous operations it starts are recorded as its fields. */
  class HttpConnect {
    var read: Op
    var write: Op
    var deadline: Op
    var open: bool
    var sendShutdown: bool
    var response: Response
    var written: seq<Response>
    const program: ProgramState

    function Value(): Conn
      reads this
    {
      Conn(read, write, deadline, open, sendShutdown, written)
    }

    /** The constructor followed by start(). */
    constructor (program: ProgramState)
      ensures Value() == STARTED && this.program == program
    {
      this.program := program;
      read, write, deadline, open, sendShutdown := Outstanding, NotStarted, Outstanding, true, false;
      response, written := Response(Ok, "", false, FileNotFound), [];
    }

    method CreateResponse(request: Request)
      requires request.verb.GetVerb? && response.status == Ok && response.serverField
      modifies this`response, program
      ensures response == Respond(request, old(program.count))
      ensures program.count == old(program.count) + if AsksCount(request) then 1 else 0
    {
      if request.target == "/count" {
        var n := program.RequestCount();
        response := response.(contentType := "text/html", body := Count(n));
      } else if request.target == "/time" {
        response := response.(contentType := "text/html", body := Time);
      } else {
        response := response.(status := NotFound, contentType := "text/plain", body := FileNotFound);
      }
    }

    method CreatePostResponse(request: Request)
      requires request.verb.PostVerb? && response.status == Ok && response.serverField
      modifies this`response
      ensures response == Respond(request, program.count)
    {
      if request.target == "/email" {
        response := response.(contentType := "text/json", body := Email);
      } else {
        response := response.(status := NotFound, contentType := "text/plain", body := FileNotFound);
      }
    }

    method ProcessRequest(request: Request)
      modifies this, program
      ensures Value() == old(Value()).(write := Outstanding,
                                       responses := old(written) + [Respond(request, old(program.count))])
      ensures program.count == old(program.count) + if AsksCount(request) then 1 else 0
    {
      match request.verb {
        case GetVerb =>
          response := response.(status := Ok, serverField := true);
          CreateResponse(request);
        case PostVerb =>
          response := response.(status := Ok, serverField := true);
          CreatePostResponse(request);
        case OtherVerb =>
          response := Response(BadRequest, "text/plain", false, InvalidMethod);
      }
      written, write := written + [response], Outstanding;
    }

    method ReadHandler(request: Request)
      requires Enabled(Value(), OnRead(request))
      modifies this, program
      ensures Value() == Step(old(Value()), OnRead(request), old(program.count))
      ensures program.count == old(program.count) + if old(read.ok) && AsksCount(request) then 1 else 0
    {
      var ok := read.ok;
      read := Handled(ok);
      if ok {
        ProcessRequest(request);
      }
    }

    method WriteHandler()
      requires Enabled(Value(), OnWrite)
      modifies this
      ensures Value() == Step(old(Value()), OnWrite, program.count)
    {
      write := Handled(write.ok);
      sendShutdown := true;
      deadline := Abort(deadline);
    }

    method DeadlineHandler()
      requires Enabled(Value(), OnDeadline)
      modifies this
      ensures Value() == Step(old(Value()), OnDeadline, program.count)
    {
      var ok := deadline.ok;
      deadline := Handled(ok);
      if ok {
        open, read, write := false, Abort(read), Abort(write);
      }
    }
  }
}
