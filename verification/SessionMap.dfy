/**
 * The chat server's accept loop and session map. Handlers run one at a time on one thread; a
 * session's uuid is taken to be distinct from all earlier ones.
 */
module SessionMap {

  type Uuid = nat

  // ---------------------------------------------------------------- reference semantics

  /** `armed` is the session of the pending accept; the history sets say what happened so far. */
  datatype Registry = Registry(
    armed: seq<Uuid>,
    mapped: set<Uuid>,
    started: set<Uuid>,
    accepted: set<Uuid>,
    cleared: set<Uuid>,
    created: set<Uuid>)

  datatype Event =
    | Accepted(error: bool, next: Uuid)     // the accept handler; `next` is the uuid it creates
    | Cleared(uuid: Uuid)                   // ClearServer, from any handler

  function Fresh(first: Uuid): Registry {
    Registry([first], {}, {}, {}, {}, {first})
  }

  predicate Enabled(r: Registry, e: Event) {
    e.Accepted? ==> r.armed != [] && e.next !in r.created
  }

  function Apply(r: Registry, e: Event): Registry
    requires Enabled(r, e)
  {
    match e
    case Accepted(error, next) =>
      var u := r.armed[0];
      var t := r.(armed := r.armed[1..] + [next], created := r.created + {next});
      if error then t
      else t.(started := t.started + {u}, mapped := t.mapped + {u}, accepted := t.accepted + {u})
    case Cleared(u) =>
      r.(mapped := r.mapped - {u}, cleared := r.cleared + (if u in r.accepted then {u} else {}))
  }

  predicate Inv(r: Registry) {
    && |r.armed| == 1
    && r.armed[0] in r.created && r.armed[0] !in r.accepted
    && r.accepted <= r.created
    && r.cleared <= r.accepted
    && r.mapped == r.accepted - r.cleared
    && r.mapped <= r.started
    && r.started == r.accepted
  }

  lemma StepKeeps(r: Registry, e: Event)
    requires Inv(r) && Enabled(r, e)
    ensures Inv(Apply(r, e))
  {
  }

  ghost predicate Reaches(r: Registry, es: seq<Event>, t: Registry)
    decreases es
  {
    if es == [] then r == t else Enabled(r, es[0]) && Reaches(Apply(r, es[0]), es[1..], t)
  }

  lemma {:induction false} ReachesKeeps(r: Registry, es: seq<Event>, t: Registry)
    requires Inv(r) && Reaches(r, es, t)
    ensures Inv(t)
    decreases es
  {
    if es != [] {
      StepKeeps(r, es[0]);
      ReachesKeeps(Apply(r, es[0]), es[1..], t);
    }
  }

  // ---------------------------------------------------------------- what the events alone decide

  /** Did an accept handler without an error take `u`, when `armed` is what the first of them takes? */
  predicate AcceptedIn(armed: Uuid, es: seq<Event>, u: Uuid)
    decreases es
  {
    es != [] &&
    match es[0]
    case Accepted(error, next) => (!error && armed == u) || AcceptedIn(next, es[1..], u)
    case Cleared(_) => AcceptedIn(armed, es[1..], u)
  }

  /** And was it not cleared after that? */
  predicate StaysIn(armed: Uuid, es: seq<Event>, u: Uuid)
    decreases es
  {
    es != [] &&
    match es[0]
    case Accepted(error, next) => (!error && armed == u && Cleared(u) !in es[1..]) || StaysIn(next, es[1..], u)
    case Cleared(_) => StaysIn(armed, es[1..], u)
  }

  /** The session that the accept pending in the end will take. */
  function ArmedIn(armed: Uuid, es: seq<Event>): Uuid
    decreases es
  {
    if es == [] then armed else ArmedIn(if es[0].Accepted? then es[0].next else armed, es[1..])
  }

  lemma {:induction false} History(r: Registry, es: seq<Event>, t: Registry, u: Uuid)
    requires Inv(r) && Reaches(r, es, t)
    ensures t.armed == [ArmedIn(r.armed[0], es)]
    ensures u in t.accepted <==> u in r.accepted || AcceptedIn(r.armed[0], es, u)
    ensures u in t.mapped <==> (u in r.mapped && Cleared(u) !in es) || StaysIn(r.armed[0], es, u)
    decreases es
  {
    if es != [] {
      StepKeeps(r, es[0]);
      History(Apply(r, es[0]), es[1..], t, u);
      assert es == [es[0]] + es[1..];
    }
  }

  /**
   * In every run: exactly one accept is armed, with the session created last; the sessions started
   * are those that an accept took without an error; and the map holds exactly those of them that
   * were not cleared afterwards.
   */
  lemma EveryRun(first: Uuid, es: seq<Event>, t: Registry)
    requires Reaches(Fresh(first), es, t)
    ensures t.armed == [ArmedIn(first, es)]
    ensures forall u :: u in t.started <==> AcceptedIn(first, es, u)
    ensures forall u :: u in t.mapped <==> StaysIn(first, es, u)
    ensures t.mapped == t.accepted - t.cleared && t.accepted == t.started
  {
    ReachesKeeps(Fresh(first), es, t);
    forall u
      ensures u in t.started <==> AcceptedIn(first, es, u)
      ensures u in t.mapped <==> StaysIn(first, es, u)
    {
      History(Fresh(first), es, t, u);
    }
    History(Fresh(first), es, t, first);
  }

  /** A session that was cleared never comes back, and clearing it again changes nothing. */
  lemma {:induction false} ClearedForGood(r: Registry, u: Uuid, es: seq<Event>, t: Registry)
    requires Inv(r) && u in r.cleared && Reaches(r, es, t)
    ensures u in t.cleared && u !in t.mapped
    ensures Apply(t, Cleared(u)) == t
    decreases es
  {
    if es == [] {
      assert t.mapped - {u} == t.mapped && t.cleared + {u} == t.cleared;
    } else {
      StepKeeps(r, es[0]);
      ClearedForGood(Apply(r, es[0]), u, es[1..], t);
    }
  }

  // ---------------------------------------------------------------- the server object

  class CSession {
    const uuid: Uuid
    var running: bool

    constructor (uuid: Uuid)
      ensures this.uuid == uuid && !running
    {
      this.uuid, running := uuid, false;
    }

    method Start()
      modifies this
      ensures running
    {
      running := true;
    }
  }

  function Uuids(ss: seq<CSession>): (us: seq<Uuid>)
    ensures |us| == |ss|
  {
    if ss == [] then [] else [ss[0].uuid] + Uuids(ss[1..])
  }

  class CServer {
    var sessions: map<Uuid, CSession>
    var accepting: seq<CSession>          // the sessions bound to pending accepts
    ghost var started: set<Uuid>
    ghost var accepted: set<Uuid>
    ghost var cleared: set<Uuid>
    ghost var created: set<Uuid>

    ghost function State(): Registry
      reads this
    {
      Registry(Uuids(accepting), sessions.Keys, started, accepted, cleared, created)
    }

    /** The map is keyed by the sessions' own uuids, and its sessions run. */
    ghost predicate Valid()
      reads this, sessions.Values
    {
      && Inv(State())
      && forall u | u in sessions :: sessions[u].uuid == u && sessions[u].running
    }

    constructor (first: Uuid)
      ensures Valid() && State() == Fresh(first)
    {
      sessions, started, accepted, cleared, created := map[], {}, {}, {}, {first};
      var s := new CSession(first);
      accepting := [s];
    }

    method ClearServer(uuid: Uuid)
      requires Valid()
      modifies this
      ensures Valid() && State() == Apply(old(State()), Cleared(uuid))
    {
      StepKeeps(State(), Cleared(uuid));
      sessions := sessions - {uuid};
      cleared := cleared + (if uuid in accepted then {uuid} else {});
    }

    method StartAccept(next: Uuid)
      requires accepting == []
      modifies this`accepting, this`created
      ensures |accepting| == 1 && fresh(accepting[0]) && accepting[0].uuid == next
      ensures created == old(created) + {next}
    {
      var s := new CSession(next);
      accepting, created := accepting + [s], created + {next};
    }

    /** The accept handler: start and register the session unless there was an error, then re-arm. */
    method HandleAccept(error: bool, next: Uuid)
      requires Valid() && next !in created
      modifies this, accepting
      ensures Valid() && State() == Apply(old(State()), Accepted(error, next))
    {
      ghost var was := State();
      StepKeeps(was, Accepted(error, next));
      var newSession := accepting[0];
      accepting := accepting[1..];
      if !error {
        newSession.Start();
        if newSession.uuid !in sessions {
          sessions := sessions[newSession.uuid := newSession];
        }
        started, accepted := started + {newSession.uuid}, accepted + {newSession.uuid};
      }
      StartAccept(next);
    }
  }
}
