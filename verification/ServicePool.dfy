/**
 * The pool with one context and one worker thread per slot, as interleaved steps: the main thread
 * goes through the constructor and `stop`, workers run handlers, and anybody, running handlers
 * included, may post at any time. A context counts its outstanding work: the guard, what is queued
 * and the handler in hand. The step that takes the last of it away stops the context for good: from
 * then on `run()` takes no handler any more, although its thread may leave it only later.
 */
module ServicePool {

  type Handler = nat

  datatype Worker = NotStarted | Idle | Busy(handler: Handler) | Exited

  /** One slot; `posted` and `ran` record what was ever posted to it and run by it, in order. */
  datatype Slot = Slot(
    guard: bool,
    stopped: bool,
    worker: Worker,
    queue: seq<Handler>,
    posted: seq<Handler>,
    ran: seq<Handler>)

  datatype Main =
    | Guarding(i: nat)      // constructor, first loop
    | Starting(i: nat)      // constructor, second loop
    | Up
    | Releasing(i: nat)     // stop, first loop
    | Joining(i: nat)       // stop, second loop
    | Stopped

  datatype Pool = Pool(main: Main, slots: seq<Slot>)

  datatype Event =
    | MainStep
    | CallStop
    | Post(slot: nat, handler: Handler)
    | Take(slot: nat)       // the worker takes the handler in front
    | Finish(slot: nat)     // that handler returns
    | Exit(slot: nat)       // run() returns

  const BLANK := Slot(false, false, NotStarted, [], [], [])

  function Init(n: nat): Pool {
    Pool(Guarding(0), seq(n, i => BLANK))
  }

  predicate Enabled(s: Pool, e: Event) {
    match e
    case MainStep =>
      !s.main.Up? && !s.main.Stopped? && (s.main.Joining? && s.main.i < |s.slots| ==> s.slots[s.main.i].worker.Exited?)
    case CallStop => s.main.Up?
    case Post(c, _) => c < |s.slots|
    case Take(c) => c < |s.slots| && s.slots[c].worker.Idle? && !s.slots[c].stopped && s.slots[c].queue != []
    case Finish(c) => c < |s.slots| && s.slots[c].worker.Busy?
    case Exit(c) => c < |s.slots| && s.slots[c].worker.Idle? && s.slots[c].stopped
  }

  /** Is the outstanding work of the context zero? */
  predicate OutOfWork(x: Slot) {
    !x.guard && x.queue == [] && !x.worker.Busy?
  }

  /** What taking work away amounts to: the context stops if that was the last of it. */
  function Settle(x: Slot): Slot {
    if OutOfWork(x) then x.(stopped := true) else x
  }

  /** What a step makes of the slot that it concerns. */
  function Touch(x: Slot, e: Event): Slot
    requires e.Take? ==> x.queue != []
    requires e.Finish? ==> x.worker.Busy?
  {
    match e
    case Post(_, h) => x.(queue := x.queue + [h], posted := x.posted + [h])
    case Take(_) => x.(worker := Busy(x.queue[0]), queue := x.queue[1..])
    case Finish(_) => Settle(x.(worker := Idle, ran := x.ran + [x.worker.handler]))
    case Exit(_) => x.(worker := Exited)
    case _ => x
  }

  function MainNext(s: Pool): (t: Pool)
    requires Enabled(s, MainStep)
    ensures |t.slots| == |s.slots|
  {
    var n := |s.slots|;
    match s.main
    case Guarding(i) =>
      if i < n then Pool(Guarding(i + 1), s.slots[i := s.slots[i].(guard := true)]) else s.(main := Starting(0))
    case Starting(i) =>
      if i < n then Pool(Starting(i + 1), s.slots[i := s.slots[i].(worker := Idle)]) else s.(main := Up)
    case Releasing(i) =>
      if i < n then Pool(Releasing(i + 1), s.slots[i := Settle(s.slots[i].(guard := false))])
      else s.(main := Joining(0))
    case Joining(i) => if i < n then s.(main := Joining(i + 1)) else s.(main := Stopped)
  }

  function Apply(s: Pool, e: Event): (t: Pool)
    requires Enabled(s, e)
    ensures |t.slots| == |s.slots|
  {
    match e
    case MainStep => MainNext(s)
    case CallStop => s.(main := Releasing(0))
    case _ => s.(slots := s.slots[e.slot := Touch(s.slots[e.slot], e)])
  }

  /** `t` is reached from `s` by the interleaving `es`. */
  ghost predicate Reaches(s: Pool, es: seq<Event>, t: Pool)
    decreases es
  {
    if es == [] then s == t else Enabled(s, es[0]) && Reaches(Apply(s, es[0]), es[1..], t)
  }

  // ---------------------------------------------------------------- invariant

  function InHand(w: Worker): seq<Handler> {
    if w.Busy? then [w.handler] else []
  }

  /** Whatever was posted has run, is in hand or is queued, once and in order; and what stopping means. */
  predicate WorkInv(x: Slot) {
    && x.posted == x.ran + InHand(x.worker) + x.queue
    && (x.stopped ==> !x.guard && !x.worker.Busy? && !x.worker.NotStarted?)
    && (x.worker.Exited? ==> x.stopped)
    && (OutOfWork(x) && !x.worker.NotStarted? ==> x.stopped)
  }

  /** Guards come before threads and stay until they are released; join waits for each worker in turn. */
  predicate PhaseInv(main: Main, j: nat, x: Slot) {
    match main
    case Guarding(i) => x.guard == (j < i) && x.worker.NotStarted?
    case Starting(i) => x.guard && x.worker.NotStarted? == (j >= i)
    case Up => x.guard && !x.worker.NotStarted?
    case Releasing(i) => x.guard == (j >= i) && !x.worker.NotStarted?
    case Joining(i) => !x.guard && !x.worker.NotStarted? && (j < i ==> x.worker.Exited?)
    case Stopped => x.worker.Exited?
  }

  predicate SlotInv(main: Main, j: nat, x: Slot) {
    WorkInv(x) && PhaseInv(main, j, x)
  }

  predicate Inv(s: Pool) {
    && (match s.main
        case Guarding(i) => i <= |s.slots|
        case Starting(i) => i <= |s.slots|
        case Releasing(i) => i <= |s.slots|
        case Joining(i) => i <= |s.slots|
        case _ => true)
    && forall j | 0 <= j < |s.slots| :: SlotInv(s.main, j, s.slots[j])
  }

  lemma TouchInv(main: Main, j: nat, x: Slot, e: Event)
    requires SlotInv(main, j, x)
    requires e.Take? ==> x.worker.Idle? && !x.stopped && x.queue != []
    requires e.Finish? ==> x.worker.Busy?
    requires e.Exit? ==> x.worker.Idle? && x.stopped
    ensures SlotInv(main, j, Touch(x, e))
  {
    match e
    case Post(_, h) => assert x.ran + InHand(x.worker) + x.queue + [h] == x.ran + InHand(x.worker) + (x.queue + [h]);
    case Take(_) => assert x.ran + [] + x.queue == x.ran + [x.queue[0]] + x.queue[1..];
    case Finish(_) => assert x.ran + InHand(x.worker) + x.queue == x.ran + [x.worker.handler] + [] + x.queue;
    case _ =>
  }

  /** Every step of every thread keeps the invariant. */
  lemma StepInv(s: Pool, e: Event)
    requires Inv(s) && Enabled(s, e)
    ensures Inv(Apply(s, e))
  {
    match e
    case MainStep =>
    case CallStop =>
    case _ => TouchInv(s.main, e.slot, s.slots[e.slot], e);
  }

  lemma {:induction false} ReachableInv(s: Pool, es: seq<Event>, t: Pool)
    requires Inv(s) && Reaches(s, es, t)
    ensures Inv(t)
    decreases es
  {
    if es != [] {
      StepInv(s, es[0]);
      ReachableInv(Apply(s, es[0]), es[1..], t);
    }
  }

  lemma {:induction false} SameSlots(s: Pool, es: seq<Event>, t: Pool)
    requires Reaches(s, es, t)
    ensures |t.slots| == |s.slots|
    decreases es
  {
    if es != [] {
      SameSlots(Apply(s, es[0]), es[1..], t);
    }
  }

  /** The handlers that these events post to slot `c`, in order. */
  function PostedTo(es: seq<Event>, c: nat): seq<Handler> {
    if es == [] then []
    else (if es[0].Post? && es[0].slot == c then [es[0].handler] else []) + PostedTo(es[1..], c)
  }

  /** How many handlers of slot `c` return. */
  function FinishesAt(es: seq<Event>, c: nat): nat {
    if es == [] then 0 else (if es[0] == Finish(c) then 1 else 0) + FinishesAt(es[1..], c)
  }

  /** What the histories record are the events: every post and every return, once and in order. */
  lemma {:induction false} History(s: Pool, es: seq<Event>, t: Pool, c: nat)
    requires Reaches(s, es, t) && c < |s.slots|
    ensures |t.slots| == |s.slots| && t.slots[c].posted == s.slots[c].posted + PostedTo(es, c)
    ensures |t.slots[c].ran| == |s.slots[c].ran| + FinishesAt(es, c)
    decreases es
  {
    var x := s.slots[c];
    if es == [] {
      assert x.posted + [] == x.posted;
    } else {
      var more := PostedTo(es[1..], c);
      History(Apply(s, es[0]), es[1..], t, c);
      assert x.posted + ([] + more) == x.posted + more;
      if es[0].Post? && es[0].slot == c {
        assert (x.posted + [es[0].handler]) + more == x.posted + ([es[0].handler] + more);
      }
    }
  }

  /** No interleaving stops a context, or lets its worker leave run(), before stop is called. */
  lemma NoExitBeforeStop(n: nat, es: seq<Event>, t: Pool)
    requires Reaches(Init(n), es, t)
    requires t.main.Guarding? || t.main.Starting? || t.main.Up?
    ensures |t.slots| == n
    ensures forall j | 0 <= j < |t.slots| :: !t.slots[j].stopped && !t.slots[j].worker.Exited?
  {
    ReachableInv(Init(n), es, t);
    SameSlots(Init(n), es, t);
    forall j | 0 <= j < |t.slots| ensures !t.slots[j].stopped && !t.slots[j].worker.Exited? {
      assert SlotInv(t.main, j, t.slots[j]);
    }
  }

  // ---------------------------------------------------------------- what has run when stop returns

  /** `p` was posted to the slot, and its context does not stop before having run it. */
  predicate Owed(x: Slot, p: seq<Handler>) {
    p <= x.posted && (x.stopped ==> p <= x.ran)
  }

  /** Stopping leaves nothing behind that was posted before. */
  lemma SettleOwed(x: Slot, p: seq<Handler>)
    requires !x.stopped && p <= x.posted == x.ran + InHand(x.worker) + x.queue
    ensures Owed(Settle(x), p)
  {
    if OutOfWork(x) {
      assert x.ran + [] + [] == x.ran;
    }
  }

  lemma StepOwed(s: Pool, e: Event, c: nat, p: seq<Handler>)
    requires Inv(s) && Enabled(s, e) && c < |s.slots| && Owed(s.slots[c], p)
    ensures Owed(Apply(s, e).slots[c], p)
  {
    var x := s.slots[c];
    assert SlotInv(s.main, c, x);
    match e
    case MainStep =>
      if s.main.Releasing? && s.main.i == c {
        SettleOwed(x.(guard := false), p);
      }
    case Finish(d) =>
      if c == d {
        var y := x.(worker := Idle, ran := x.ran + [x.worker.handler]);
        assert x.ran + InHand(x.worker) + x.queue == y.ran + [] + y.queue;
        SettleOwed(y, p);
      }
    case _ =>
  }

  lemma {:induction false} ReachesOwed(s: Pool, es: seq<Event>, t: Pool, c: nat, p: seq<Handler>)
    requires Inv(s) && Reaches(s, es, t) && c < |s.slots| && Owed(s.slots[c], p)
    ensures |t.slots| == |s.slots| && Owed(t.slots[c], p)
    decreases es
  {
    if es != [] {
      StepInv(s, es[0]);
      StepOwed(s, es[0], c, p);
      ReachesOwed(Apply(s, es[0]), es[1..], t, c, p);
    }
  }

  /**
   * Draining: when stop has returned, everything posted to a slot before its context stopped has
   * run, once and in order; nothing that was not posted has.
   */
  lemma StopDrains(s: Pool, es: seq<Event>, t: Pool, c: nat)
    requires Inv(s) && Reaches(s, es, t) && t.main.Stopped?
    requires c < |s.slots| && !s.slots[c].stopped
    ensures |t.slots| == |s.slots|
    ensures s.slots[c].posted <= t.slots[c].ran <= t.slots[c].posted
  {
    ReachesOwed(s, es, t, c, s.slots[c].posted);
    ReachableInv(s, es, t);
    assert SlotInv(t.main, c, t.slots[c]);
    assert t.slots[c].ran + [] + t.slots[c].queue == t.slots[c].ran + t.slots[c].queue;
  }

  /** A context that has stopped runs nothing more, whatever is posted to its slot. */
  lemma {:induction false} StoppedIsFinal(s: Pool, es: seq<Event>, t: Pool, c: nat)
    requires Inv(s) && Reaches(s, es, t) && c < |s.slots| && s.slots[c].stopped
    ensures |t.slots| == |s.slots| && t.slots[c].stopped && t.slots[c].ran == s.slots[c].ran
    decreases es
  {
    if es != [] {
      StepInv(s, es[0]);
      assert SlotInv(s.main, c, s.slots[c]);
      StoppedIsFinal(Apply(s, es[0]), es[1..], t, c);
    }
  }

  /**
   * A handler posted in state `s`, by anybody, has run when stop returns exactly when the context
   * it was posted to had not stopped yet; whether its worker still was in run() does not matter.
   */
  lemma PostedRunsIff(s: Pool, c: nat, h: Handler, es: seq<Event>, t: Pool)
    requires Inv(s) && c < |s.slots|
    requires Reaches(Apply(s, Post(c, h)), es, t) && t.main.Stopped?
    ensures |t.slots| == |s.slots|
    ensures s.slots[c].posted + [h] <= t.slots[c].ran <==> !s.slots[c].stopped
  {
    StepInv(s, Post(c, h));
    var u := Apply(s, Post(c, h));
    assert SlotInv(s.main, c, s.slots[c]);
    if s.slots[c].stopped {
      StoppedIsFinal(u, es, t, c);
    } else {
      StopDrains(u, es, t, c);
    }
  }

  /** The shutdown never deadlocks: until stop has returned, some thread of the pool can move. */
  lemma SomeoneCanMove(s: Pool) returns (e: Event)
    requires Inv(s) && !s.main.Up? && !s.main.Stopped?
    ensures Enabled(s, e) && !e.Post? && !e.CallStop?
  {
    e := MainStep;
    if s.main.Joining? && s.main.i < |s.slots| {
      var c := s.main.i;
      assert SlotInv(s.main, c, s.slots[c]);
      match s.slots[c].worker
      case Idle => e := if s.slots[c].stopped then Exit(c) else Take(c);
      case Busy(_) => e := Finish(c);
      case Exited =>
    }
  }

  // ---------------------------------------------------------------- stop terminates

  /** Steps the main thread still has to take in constructor and stop, the call of stop included. */
  function MainLeft(main: Main, n: nat): nat {
    match main
    case Guarding(i) => if i <= n then (n - i) + 1 + n + 1 + 2 * n + 3 else 0
    case Starting(i) => if i <= n then (n - i) + 1 + 2 * n + 3 else 0
    case Up => 2 * n + 3
    case Releasing(i) => if i <= n then (n - i) + 1 + n + 1 else 0
    case Joining(i) => if i <= n then (n - i) + 1 else 0
    case Stopped => 0
  }

  /** Steps of the worker: two for each handler queued, the return of the one in hand, and the exit. */
  function SlotLeft(x: Slot): nat {
    2 * |x.queue| + match x.worker case Busy(_) => 2 case Exited => 0 case _ => 1
  }

  function SlotsLeft(xs: seq<Slot>): nat {
    if xs == [] then 0 else SlotLeft(xs[0]) + SlotsLeft(xs[1..])
  }

  /** How many handlers are queued in all slots together. */
  function Queued(xs: seq<Slot>): nat {
    if xs == [] then 0 else |xs[0].queue| + Queued(xs[1..])
  }

  function Left(s: Pool): nat {
    MainLeft(s.main, |s.slots|) + SlotsLeft(s.slots)
  }

  /** How many of these events post; all others are steps of the pool's own threads. */
  function Posts(es: seq<Event>): nat {
    if es == [] then 0 else (if es[0].Post? then 1 else 0) + Posts(es[1..])
  }

  lemma {:induction false} SlotsUpdate(xs: seq<Slot>, i: nat, y: Slot)
    requires i < |xs|
    ensures SlotsLeft(xs[i := y]) + SlotLeft(xs[i]) == SlotsLeft(xs) + SlotLeft(y)
    decreases xs
  {
    var ys := xs[i := y];
    if i == 0 {
      assert ys[1..] == xs[1..];
    } else {
      assert ys[0] == xs[0] && ys[1..] == xs[1..][i - 1 := y];
      SlotsUpdate(xs[1..], i - 1, y);
    }
  }

  lemma TouchLeft(x: Slot, e: Event)
    requires e.Post? || e.Take? || e.Finish? || e.Exit?
    requires if e.Post? then true else if e.Finish? then x.worker.Busy? else x.worker.Idle?
    requires e.Take? ==> x.queue != []
    ensures SlotLeft(Touch(x, e)) == SlotLeft(x) + if e.Post? then 2 else -1
  {
  }

  lemma MainStepLeft(s: Pool)
    requires Inv(s) && Enabled(s, MainStep)
    ensures Left(MainNext(s)) == Left(s) - 1
  {
    var n := |s.slots|;
    if !s.main.Joining? && s.main.i < n {
      var x := s.slots[s.main.i];
      assert SlotInv(s.main, s.main.i, x);
      match s.main
      case Guarding(i) => SlotsUpdate(s.slots, i, x.(guard := true));
      case Starting(i) => SlotsUpdate(s.slots, i, x.(worker := Idle));
      case Releasing(i) => SlotsUpdate(s.slots, i, Settle(x.(guard := false)));
    }
  }

  /** A post adds two steps and every other step takes one away. */
  lemma StepLeft(s: Pool, e: Event)
    requires Inv(s) && Enabled(s, e)
    ensures Left(Apply(s, e)) == Left(s) + if e.Post? then 2 else -1
  {
    match e
    case MainStep =>
      MainStepLeft(s);
    case CallStop =>
    case _ =>
      TouchLeft(s.slots[e.slot], e);
      SlotsUpdate(s.slots, e.slot, Touch(s.slots[e.slot], e));
  }

  lemma {:induction false} LeftBound(xs: seq<Slot>)
    ensures SlotsLeft(xs) <= 2 * |xs| + 2 * Queued(xs)
  {
    if xs != [] {
      LeftBound(xs[1..]);
    }
  }

  lemma {:induction false} MovesLeft(s: Pool, es: seq<Event>, t: Pool)
    requires Inv(s) && Reaches(s, es, t)
    ensures |es| - Posts(es) + Left(t) == Left(s) + 2 * Posts(es)
    decreases es
  {
    if es != [] {
      StepLeft(s, es[0]);
      StepInv(s, es[0]);
      MovesLeft(Apply(s, es[0]), es[1..], t);
    }
  }

  /**
   * From the call of stop on, the pool's threads take at most four steps a slot, two more, and two
   * for each handler queued then or posted since. With SomeoneCanMove: stop returns unless handlers
   * are posted for ever.
   */
  lemma StopTerminates(s: Pool, es: seq<Event>, t: Pool)
    requires Inv(s) && s.main == Releasing(0) && Reaches(s, es, t)
    ensures |es| - Posts(es) <= 4 * |s.slots| + 2 + 2 * (Queued(s.slots) + Posts(es))
  {
    MovesLeft(s, es, t);
    LeftBound(s.slots);
  }

  /** From any state stop can be called and return, by steps of the pool's own threads alone. */
  lemma {:induction false} StopReturns(s: Pool) returns (es: seq<Event>, t: Pool)
    requires Inv(s)
    ensures Reaches(s, es, t) && t.main.Stopped? && Posts(es) == 0
    decreases Left(s)
  {
    if s.main.Stopped? {
      es, t := [], s;
    } else {
      var e := CallStop;
      if !s.main.Up? {
        e := SomeoneCanMove(s);
      }
      StepInv(s, e);
      StepLeft(s, e);
      var more;
      more, t := StopReturns(Apply(s, e));
      es := [e] + more;
      assert es[1..] == more;
    }
  }

  /** As long as a context has not stopped, its worker can run everything queued; nobody else need move. */
  lemma {:induction false} CatchesUp(s: Pool, c: nat) returns (es: seq<Event>, t: Pool)
    requires Inv(s) && c < |s.slots| && !s.slots[c].stopped && !s.slots[c].worker.NotStarted?
    ensures Reaches(s, es, t) && t.main == s.main && Posts(es) == 0
    ensures |t.slots| == |s.slots| && t.slots[c].ran == s.slots[c].posted
    decreases |s.slots[c].queue|, s.slots[c].worker.Busy?
  {
    var x := s.slots[c];
    assert SlotInv(s.main, c, x);
    if x.worker.Idle? && x.queue == [] {
      es, t := [], s;
      assert x.ran + [] + [] == x.ran;
    } else {
      var e := if x.worker.Idle? then Take(c) else Finish(c);
      StepInv(s, e);
      var u := Apply(s, e);
      var more;
      if u.slots[c].stopped {
        more, t := [], u;
        assert SlotInv(u.main, c, u.slots[c]);
        assert u.slots[c].ran + [] + [] == u.slots[c].ran;
      } else {
        more, t := CatchesUp(u, c);
      }
      es := [e] + more;
      assert es[1..] == more;
    }
  }

  // ---------------------------------------------------------------- a handler that is never run

  lemma Before(s: Pool, e: Event, es: seq<Event>, t: Pool)
    requires Enabled(s, e) && Reaches(Apply(s, e), es, t)
    ensures Reaches(s, [e] + es, t)
  {
    assert ([e] + es)[1..] == es;
  }

  /** State `i` of a concrete run of two slots. */
  function LateState(i: nat): Pool {
    var guarded := BLANK.(guard := true);
    var idle := guarded.(worker := Idle);
    var loaded := idle.(queue := [7], posted := [7]);
    var busy := loaded.(worker := Busy(7), queue := []);
    var over := Slot(false, true, Idle, [], [], []);
    var late := over.(queue := [8], posted := [8]);
    var done := Slot(true, false, Idle, [], [7], [7]);
    var left := Slot(false, true, Exited, [], [7], [7]);
    match i
    case 0 => Pool(Guarding(0), [BLANK, BLANK])
    case 1 => Pool(Guarding(1), [guarded, BLANK])
    case 2 => Pool(Guarding(2), [guarded, guarded])
    case 3 => Pool(Starting(0), [guarded, guarded])
    case 4 => Pool(Starting(1), [idle, guarded])
    case 5 => Pool(Starting(2), [idle, idle])
    case 6 => Pool(Up, [idle, idle])
    case 7 => Pool(Up, [idle, loaded])
    case 8 => Pool(Up, [idle, busy])
    case 9 => Pool(Releasing(0), [idle, busy])
    case 10 => Pool(Releasing(1), [over, busy])
    case 11 => Pool(Releasing(1), [late, busy])
    case 12 => Pool(Releasing(1), [late, done])
    case 13 => Pool(Releasing(2), [late, left.(worker := Idle)])
    case 14 => Pool(Joining(0), [late, left.(worker := Idle)])
    case 15 => Pool(Joining(0), [late.(worker := Exited), left.(worker := Idle)])
    case 16 => Pool(Joining(1), [late.(worker := Exited), left.(worker := Idle)])
    case 17 => Pool(Joining(1), [late.(worker := Exited), left])
    case 18 => Pool(Joining(2), [late.(worker := Exited), left])
    case _ => Pool(Stopped, [late.(worker := Exited), left])
  }

  /** In step 9 slot 0 loses its guard; in step 10 the handler that slot 1 is running posts to it. */
  function LateEvent(i: nat): Event {
    match i
    case 6 => Post(1, 7)
    case 7 => Take(1)
    case 8 => CallStop
    case 10 => Post(0, 8)
    case 11 => Finish(1)
    case 14 => Exit(0)
    case 16 => Exit(1)
    case _ => MainStep
  }

  lemma EarlyStep(i: nat)
    requires i < 9
    ensures Enabled(LateState(i), LateEvent(i)) && Apply(LateState(i), LateEvent(i)) == LateState(i + 1)
  {
    var none: seq<Handler> := [];
    assert none + [7] == [7] && [7][1..] == none;
    assert Apply(LateState(i), LateEvent(i)).slots == LateState(i + 1).slots;
  }

  /** One step of it, while main thread and workers start, or in stop. */
  lemma LateStep(i: nat)
    requires i < 19
    ensures Enabled(LateState(i), LateEvent(i)) && Apply(LateState(i), LateEvent(i)) == LateState(i + 1)
  {
    if i < 9 {
      EarlyStep(i);
    } else {
      var none: seq<Handler> := [];
      assert none + [8] == [8] && none + [7] == [7];
      assert Apply(LateState(i), LateEvent(i)).slots == LateState(i + 1).slots;
    }
  }

  lemma {:induction false} LateRun(i: nat, j: nat) returns (es: seq<Event>)
    requires i <= j <= 19
    ensures Reaches(LateState(i), es, LateState(j))
    decreases j - i
  {
    if i == j {
      es := [];
    } else {
      LateStep(i);
      es := LateRun(i + 1, j);
      Before(LateState(i), LateEvent(i), es, LateState(j));
      es := [LateEvent(i)] + es;
    }
  }

  /**
   * A run in which the worker of slot 0 is still in run() when a handler of slot 1 posts to it, and
   * stop returns with that post never run.
   */
  lemma UnservedHandler() returns (es: seq<Event>, s: Pool, fs: seq<Event>, t: Pool)
    ensures Reaches(Init(2), es, s) && |s.slots| == 2
    ensures s.slots[0].worker.Idle? && s.slots[1].worker == Busy(7)
    ensures Reaches(Apply(s, Post(0, 8)), fs, t) && t.main.Stopped? && |t.slots| == 2
    ensures t.slots[0].posted == [8] && t.slots[0].ran == [] && t.slots[1].ran == [7]
  {
    assert Init(2).slots == LateState(0).slots;
    s, t := LateState(10), LateState(19);
    es := LateRun(0, 10);
    LateStep(10);
    fs := LateRun(11, 19);
  }
}
