/**
 * The pool with one context shared by several worker threads, as interleaved steps. Its `stop` sets
 * the context's stopped flag first, so queued handlers are abandoned.
 */
module ThreadPool {

  type Handler = nat

  datatype Worker = NotStarted | Idle | Busy(handler: Handler) | Exited

  datatype Main = Starting(i: nat) | Up | Stopping | Joining(i: nat) | Stopped

  /** `posted`, `taken` and `finished` record handlers in the order of those events. */
  datatype Pool = Pool(
    main: Main,
    workers: seq<Worker>,
    guard: bool,
    stopFlag: bool,
    queue: seq<Handler>,
    posted: seq<Handler>,
    taken: seq<Handler>,
    finished: seq<Handler>)

  datatype Event =
    | MainStep
    | CallStop                                  // io_context.stop()
    | Post(handler: Handler)                    // by anybody, running handlers included
    | Take(w: nat)
    | Finish(w: nat)                            // the handler returns
    | Exit(w: nat)

  /** The work guard is a member initialised before the constructor body starts any thread. */
  function Init(n: nat): Pool {
    Pool(Starting(0), seq(n, i => NotStarted), true, false, [], [], [], [])
  }

  predicate Enabled(s: Pool, e: Event) {
    match e
    case MainStep =>
      !s.main.Up? && !s.main.Stopped? && (s.main.Joining? && s.main.i < |s.workers| ==> s.workers[s.main.i].Exited?)
    case CallStop => s.main.Up?
    case Post(_) => true
    case Take(w) => w < |s.workers| && s.workers[w].Idle? && !s.stopFlag && s.queue != []
    case Finish(w) => w < |s.workers| && s.workers[w].Busy?
    case Exit(w) =>
      && w < |s.workers| && s.workers[w].Idle?
      && (s.stopFlag || (!s.guard && s.queue == [] && forall v | 0 <= v < |s.workers| :: !s.workers[v].Busy?))
  }

  function Apply(s: Pool, e: Event): (t: Pool)
    requires Enabled(s, e)
    ensures |t.workers| == |s.workers|
  {
    var n := |s.workers|;
    match e
    case MainStep => (
      match s.main
      case Starting(i) =>
        if i < n then s.(main := Starting(i + 1), workers := s.workers[i := Idle]) else s.(main := Up)
      case Stopping => s.(main := Joining(0), guard := false)
      case Joining(i) => if i < n then s.(main := Joining(i + 1)) else s.(main := Stopped))
    case CallStop => s.(main := Stopping, stopFlag := true)
    case Post(h) => s.(queue := s.queue + [h], posted := s.posted + [h])
    case Take(w) =>
      s.(workers := s.workers[w := Busy(s.queue[0])], queue := s.queue[1..], taken := s.taken + [s.queue[0]])
    case Finish(w) =>
      s.(workers := s.workers[w := Idle], finished := s.finished + [s.workers[w].handler])
    case Exit(w) => s.(workers := s.workers[w := Exited])
  }

  /** `t` is reached from `s` by the interleaving `es`. */
  ghost predicate Reaches(s: Pool, es: seq<Event>, t: Pool)
    decreases es
  {
    if es == [] then s == t else Enabled(s, es[0]) && Reaches(Apply(s, es[0]), es[1..], t)
  }

  function One(w: Worker, h: Handler): nat {
    if w == Busy(h) then 1 else 0
  }

  /** How many workers are running handler `h`. */
  function InHand(ws: seq<Worker>, h: Handler): nat {
    if ws == [] then 0 else One(ws[0], h) + InHand(ws[1..], h)
  }

  lemma {:induction false} InHandUpdate(ws: seq<Worker>, i: nat, w: Worker, h: Handler)
    requires i < |ws|
    ensures InHand(ws[i := w], h) + One(ws[i], h) == InHand(ws, h) + One(w, h)
    decreases ws
  {
    var xs := ws[i := w];
    if i == 0 {
      assert xs[1..] == ws[1..];
    } else {
      assert xs[0] == ws[0] && xs[1..] == ws[1..][i - 1 := w];
      InHandUpdate(ws[1..], i - 1, w, h);
    }
  }

  lemma {:induction false} NobodyBusy(ws: seq<Worker>, h: Handler)
    requires forall w | w in ws :: !w.Busy?
    ensures InHand(ws, h) == 0
    decreases ws
  {
    if ws != [] {
      NobodyBusy(ws[1..], h);
    }
  }

  predicate WorkerInv(main: Main, j: nat, w: Worker) {
    match main
    case Starting(i) => !w.Exited? && (w.NotStarted? <==> j >= i)
    case Up => !w.Exited? && !w.NotStarted?
    case Stopping => !w.NotStarted?
    case Joining(i) => !w.NotStarted? && (j < i ==> w.Exited?)
    case Stopped => w.Exited?
  }

  predicate ConservedFor(taken: seq<Handler>, finished: seq<Handler>, ws: seq<Worker>, h: Handler) {
    multiset(taken)[h] == multiset(finished)[h] + InHand(ws, h)
  }

  /** Every handler posted is queued, in a worker's hands, or finished, and is so once. */
  ghost predicate Conserved(s: Pool) {
    && s.posted == s.taken + s.queue
    && forall h :: ConservedFor(s.taken, s.finished, s.workers, h)
  }

  ghost predicate Inv(s: Pool) {
    && Conserved(s)
    && (s.stopFlag <==> !s.main.Starting? && !s.main.Up?)
    && (s.guard <==> s.main.Starting? || s.main.Up? || s.main.Stopping?)
    && (s.main.Starting? || s.main.Joining? ==> s.main.i <= |s.workers|)
    && forall j | 0 <= j < |s.workers| :: WorkerInv(s.main, j, s.workers[j])
  }

  lemma {:induction false} InitInv(n: nat)
    ensures Inv(Init(n))
  {
    forall h ensures ConservedFor([], [], Init(n).workers, h) {
      NobodyBusy(Init(n).workers, h);
    }
  }

  lemma TakeConserves(s: Pool, w: nat)
    requires Conserved(s) && Enabled(s, Take(w))
    ensures Conserved(Apply(s, Take(w)))
  {
    var x, t := s.queue[0], Apply(s, Take(w));
    assert s.taken + s.queue == (s.taken + [x]) + s.queue[1..];
    forall h ensures ConservedFor(t.taken, t.finished, t.workers, h) {
      assert ConservedFor(s.taken, s.finished, s.workers, h);
      InHandUpdate(s.workers, w, Busy(x), h);
    }
  }

  lemma FinishConserves(s: Pool, w: nat)
    requires Conserved(s) && Enabled(s, Finish(w))
    ensures Conserved(Apply(s, Finish(w)))
  {
    var t := Apply(s, Finish(w));
    forall h ensures ConservedFor(t.taken, t.finished, t.workers, h) {
      assert ConservedFor(s.taken, s.finished, s.workers, h);
      InHandUpdate(s.workers, w, Idle, h);
    }
  }

  /** A step that only moves a worker which holds no handler. */
  lemma MoveConserves(s: Pool, w: nat, to: Worker)
    requires Conserved(s) && w < |s.workers| && !s.workers[w].Busy? && !to.Busy?
    ensures Conserved(s.(workers := s.workers[w := to]))
  {
    var ws := s.workers[w := to];
    forall h ensures ConservedFor(s.taken, s.finished, ws, h) {
      assert ConservedFor(s.taken, s.finished, s.workers, h);
      InHandUpdate(s.workers, w, to, h);
    }
  }

  lemma StepConserves(s: Pool, e: Event)
    requires Conserved(s) && Enabled(s, e)
    requires e.MainStep? && s.main.Starting? && s.main.i < |s.workers| ==> s.workers[s.main.i].NotStarted?
    ensures Conserved(Apply(s, e))
  {
    match e
    case MainStep =>
      if s.main.Starting? && s.main.i < |s.workers| {
        MoveConserves(s, s.main.i, Idle);
      }
    case CallStop =>
    case Post(h) => assert (s.taken + s.queue) + [h] == s.taken + (s.queue + [h]);
    case Take(w) => TakeConserves(s, w);
    case Finish(w) => FinishConserves(s, w);
    case Exit(w) => MoveConserves(s, w, Exited);
  }

  /** Every step of every thread keeps the invariant. */
  lemma StepInv(s: Pool, e: Event)
    requires Inv(s) && Enabled(s, e)
    ensures Inv(Apply(s, e))
  {
    StepConserves(s, e);
    match e
    case MainStep =>
    case CallStop =>
    case Post(_) =>
    case Take(w) => assert WorkerInv(s.main, w, s.workers[w]);
    case Finish(w) => assert WorkerInv(s.main, w, s.workers[w]);
    case Exit(w) => assert WorkerInv(s.main, w, s.workers[w]);
  }

  lemma {:induction false} ReachableInv(s: Pool, es: seq<Event>, t: Pool)
    requires Inv(s) && Reaches(s, es, t)
    ensures Inv(t)
    decreases es
  {
    if es != [] {
      StepInv(s, es[0]);
      ReachableInv(Apply(s, es[0]), es[1..], t);
    }
  }

  lemma {:induction false} SameWorkers(s: Pool, es: seq<Event>, t: Pool)
    requires Reaches(s, es, t)
    ensures |t.workers| == |s.workers|
    decreases es
  {
    if es != [] {
      SameWorkers(Apply(s, es[0]), es[1..], t);
    }
  }

  function PostedBy(e: Event): seq<Handler> {
    if e.Post? then [e.handler] else []
  }

  lemma StepHistory(s: Pool, e: Event)
    requires Enabled(s, e)
    ensures var t := Apply(s, e);
            && t.posted == s.posted + PostedBy(e)
            && |t.taken| == |s.taken| + (if e.Take? then 1 else 0)
            && |t.finished| == |s.finished| + (if e.Finish? then 1 else 0)
  {
    assert s.posted + [] == s.posted;
  }

  /** The handlers that are posted by these events, in order. */
  function PostedIn(es: seq<Event>): seq<Handler> {
    if es == [] then [] else PostedBy(es[0]) + PostedIn(es[1..])
  }

  /** How many of these events take a handler, or finish one. */
  function TakesIn(es: seq<Event>): nat {
    if es == [] then 0 else (if es[0].Take? then 1 else 0) + TakesIn(es[1..])
  }

  function FinishesIn(es: seq<Event>): nat {
    if es == [] then 0 else (if es[0].Finish? then 1 else 0) + FinishesIn(es[1..])
  }

  /** What the histories record are the events: every post, once and in order, and every take and return. */
  lemma {:induction false} History(s: Pool, es: seq<Event>, t: Pool)
    requires Reaches(s, es, t)
    ensures t.posted == s.posted + PostedIn(es)
    decreases es
  {
    if es == [] {
      assert s.posted + [] == s.posted;
    } else {
      StepHistory(s, es[0]);
      History(Apply(s, es[0]), es[1..], t);
      assert (s.posted + PostedBy(es[0])) + PostedIn(es[1..]) == s.posted + (PostedBy(es[0]) + PostedIn(es[1..]));
    }
  }

  lemma {:induction false} HistoryCounts(s: Pool, es: seq<Event>, t: Pool)
    requires Reaches(s, es, t)
    ensures |t.taken| == |s.taken| + TakesIn(es)
    ensures |t.finished| == |s.finished| + FinishesIn(es)
    decreases es
  {
    if es != [] {
      StepHistory(s, es[0]);
      HistoryCounts(Apply(s, es[0]), es[1..], t);
    }
  }

  /** No interleaving lets a worker leave run() before stop is called. */
  lemma NoExitBeforeStop(n: nat, es: seq<Event>, t: Pool)
    requires Reaches(Init(n), es, t)
    requires t.main.Starting? || t.main.Up?
    ensures |t.workers| == n && forall w | w in t.workers :: !w.Exited?
  {
    SameWorkers(Init(n), es, t);
    InitInv(n);
    ReachableInv(Init(n), es, t);
    forall j | 0 <= j < |t.workers| ensures !t.workers[j].Exited? {
      assert WorkerInv(t.main, j, t.workers[j]);
    }
  }

  /** Once the stopped flag is set no handler is taken any more: what was queued then never runs. */
  lemma {:induction false} StopAbandons(s: Pool, es: seq<Event>, t: Pool)
    requires Inv(s) && s.stopFlag && Reaches(s, es, t)
    ensures t.stopFlag && t.taken == s.taken
    ensures s.queue <= t.queue
    decreases es
  {
    if es != [] {
      StepInv(s, es[0]);
      StopAbandons(Apply(s, es[0]), es[1..], t);
    }
  }

  /**
   * When stop has returned all workers are gone, and the handlers that were taken are exactly the
   * ones that have finished; from then on nothing is taken or finished, whatever is posted.
   */
  lemma {:induction false} AfterStop(s: Pool, es: seq<Event>, t: Pool)
    requires Inv(s) && s.main.Stopped? && Reaches(s, es, t)
    ensures forall w | w in t.workers :: w.Exited?
    ensures multiset(t.taken) == multiset(t.finished)
    ensures t.main.Stopped? && t.taken == s.taken && t.finished == s.finished && s.queue <= t.queue
    decreases es
  {
    forall w | w in s.workers ensures w.Exited? {
      var j :| 0 <= j < |s.workers| && s.workers[j] == w;
      assert WorkerInv(s.main, j, s.workers[j]);
    }
    forall h: Handler ensures multiset(s.taken)[h] == multiset(s.finished)[h] {
      assert ConservedFor(s.taken, s.finished, s.workers, h);
      NobodyBusy(s.workers, h);
    }
    if es != [] {
      StepInv(s, es[0]);
      AfterStop(Apply(s, es[0]), es[1..], t);
    }
  }

  /** Some interleaving from `s` takes the handler that was posted `k`-th, counting from 0. */
  ghost predicate MayTake(s: Pool, k: nat) {
    exists es, t :: Reaches(s, es, t) && |t.taken| > k
  }

  lemma {:induction false} NobodyTakes(s: Pool, es: seq<Event>, t: Pool)
    requires s.workers == [] && Reaches(s, es, t)
    ensures t.taken == s.taken
    decreases es
  {
    if es != [] {
      NobodyTakes(Apply(s, es[0]), es[1..], t);
    }
  }

  /** An idle worker of a pool that is not stopped can run the queue empty. */
  lemma {:induction false} TakeUpTo(s: Pool, w: nat) returns (es: seq<Event>, t: Pool)
    requires w < |s.workers| && s.workers[w].Idle? && !s.stopFlag
    requires s.posted == s.taken + s.queue
    ensures Reaches(s, es, t) && t.taken == s.posted
    decreases |s.queue|
  {
    if s.queue == [] {
      es, t := [], s;
    } else {
      var a := Apply(s, Take(w));
      var b := Apply(a, Finish(w));
      assert b.posted == b.taken + b.queue;
      var more;
      more, t := TakeUpTo(b, w);
      es := [Take(w), Finish(w)] + more;
      assert es[1..] == [Finish(w)] + more && es[1..][1..] == more;
    }
  }

  lemma CatchUp(s: Pool) returns (es: seq<Event>, t: Pool)
    requires s.workers != [] && !s.stopFlag && s.posted == s.taken + s.queue
    requires s.workers[0].Idle? || s.workers[0].Busy? || s.main == Starting(0)
    ensures Reaches(s, es, t) && |t.taken| >= |s.posted|
  {
    if s.workers[0].Idle? {
      es, t := TakeUpTo(s, 0);
    } else {
      var e := if s.workers[0].Busy? then Finish(0) else MainStep;
      assert s.queue + [] == s.queue && s.posted + [] == s.posted;
      var more;
      more, t := TakeUpTo(Apply(s, e), 0);
      es := [e] + more;
      assert es[1..] == more;
    }
  }

  /**
   * A handler posted in state `s` can never run exactly when the flag is set by then, or when there
   * are no workers at all: otherwise some interleaving still takes it, also from the constructor.
   */
  lemma AbandonedIff(s: Pool, h: Handler)
    requires Inv(s)
    ensures s.stopFlag || s.workers == [] <==> !MayTake(Apply(s, Post(h)), |s.posted|)
  {
    var u := Apply(s, Post(h));
    StepInv(s, Post(h));
    if s.stopFlag || s.workers == [] {
      forall es, t | Reaches(u, es, t) ensures |t.taken| <= |s.posted| {
        if s.stopFlag {
          StopAbandons(u, es, t);
        } else {
          NobodyTakes(u, es, t);
        }
      }
      assert !MayTake(u, |s.posted|);
    } else {
      assert WorkerInv(u.main, 0, u.workers[0]);
      var es, t := CatchUp(u);
      assert Reaches(u, es, t) && |t.taken| > |s.posted|;
    }
  }

  /** The shutdown never deadlocks: until stop has returned, the main thread or a worker can move. */
  lemma SomeoneCanMove(s: Pool) returns (e: Event)
    requires Inv(s) && s.stopFlag && !s.main.Stopped?
    ensures Enabled(s, e) && !e.Post? && !e.CallStop? && !e.Take?
  {
    e := MainStep;
    if s.main.Joining? && s.main.i < |s.workers| {
      var w := s.main.i;
      assert WorkerInv(s.main, w, s.workers[w]);
      match s.workers[w]
      case Idle => e := Exit(w);
      case Busy(_) => e := Finish(w);
      case Exited =>
    }
  }

  // ---------------------------------------------------------------- stop terminates

  function MainLeft(main: Main, n: nat): nat {
    match main
    case Starting(i) => if i <= n then (n - i) + 1 + n + 3 else 0
    case Up => n + 3
    case Stopping => n + 2
    case Joining(i) => if i <= n then (n - i) + 1 else 0
    case Stopped => 0
  }

  function WorkerLeft(w: Worker): nat {
    match w case Busy(_) => 2 case Idle => 1 case NotStarted => 1 case Exited => 0
  }

  function WorkersLeft(ws: seq<Worker>): (n: nat)
    ensures n <= 2 * |ws|
  {
    if ws == [] then 0 else WorkerLeft(ws[0]) + WorkersLeft(ws[1..])
  }

  function Left(s: Pool): nat {
    MainLeft(s.main, |s.workers|) + WorkersLeft(s.workers)
  }

  /** How many of these events post from outside; all others are steps of the pool's own threads. */
  function Posts(es: seq<Event>): nat {
    if es == [] then 0 else (if es[0].Post? then 1 else 0) + Posts(es[1..])
  }

  lemma {:induction false} WorkersUpdate(ws: seq<Worker>, i: nat, w: Worker)
    requires i < |ws|
    ensures WorkersLeft(ws[i := w]) + WorkerLeft(ws[i]) == WorkersLeft(ws) + WorkerLeft(w)
    decreases ws
  {
    var xs := ws[i := w];
    if i == 0 {
      assert xs[1..] == ws[1..];
    } else {
      assert xs[0] == ws[0] && xs[1..] == ws[1..][i - 1 := w];
      WorkersUpdate(ws[1..], i - 1, w);
    }
  }

  /** Every step but a post, and taking a handler before stop, is one of those left. */
  lemma StepLeft(s: Pool, e: Event)
    requires Inv(s) && Enabled(s, e) && !e.Take?
    ensures Left(Apply(s, e)) + (if e.Post? then 0 else 1) <= Left(s)
  {
    match e
    case MainStep =>
      if s.main.Starting? && s.main.i < |s.workers| {
        assert WorkerInv(s.main, s.main.i, s.workers[s.main.i]);
        WorkersUpdate(s.workers, s.main.i, Idle);
      }
    case Finish(w) => WorkersUpdate(s.workers, w, Idle);
    case Exit(w) => WorkersUpdate(s.workers, w, Exited);
    case _ =>
  }

  lemma {:induction false} MovesLeft(s: Pool, es: seq<Event>, t: Pool)
    requires Inv(s) && s.stopFlag && Reaches(s, es, t)
    ensures |es| - Posts(es) + Left(t) <= Left(s)
    decreases es
  {
    if es != [] {
      StepLeft(s, es[0]);
      StepInv(s, es[0]);
      MovesLeft(Apply(s, es[0]), es[1..], t);
    }
  }

  /**
   * From the stopped flag on, main thread and workers take at most three steps a worker and two
   * more, whatever is posted. With SomeoneCanMove: stop returns once handlers in hand have.
   */
  lemma StopTerminates(s: Pool, es: seq<Event>, t: Pool)
    requires Inv(s) && s.main == Stopping && Reaches(s, es, t)
    ensures |es| - Posts(es) <= 3 * |s.workers| + 2
  {
    MovesLeft(s, es, t);
  }

  /** From any state stop can be called and return, by steps of the main thread and the workers alone. */
  lemma {:induction false} StopReturns(s: Pool) returns (es: seq<Event>, t: Pool)
    requires Inv(s)
    ensures Reaches(s, es, t) && t.main.Stopped? && PostedIn(es) == []
    decreases Left(s)
  {
    if s.main.Stopped? {
      es, t := [], s;
    } else {
      var e := MainStep;
      if s.main.Up? {
        e := CallStop;
      } else if s.stopFlag {
        e := SomeoneCanMove(s);
      }
      StepInv(s, e);
      StepLeft(s, e);
      var more;
      more, t := StopReturns(Apply(s, e));
      es := [e] + more;
      assert es[1..] == more && [] + PostedIn(more) == PostedIn(more);
    }
  }
}
