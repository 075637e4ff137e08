/**
 The session store (backend/src/auth/sessions.ts). `last_active_at` is a whole
 second; `touch` measures idleness in milliseconds, `purgeExpired` in seconds.
 */
module Sessions {
  import opened Wrappers

  datatype Session = Session(lastActive: nat, authed: bool)

  type Store = map<string, Session>

  /** A session idle for longer than the timeout, as `touch` decides it. */
  predicate Expired(s: Session, idleMs: nat, now: nat) {
    now - s.lastActive * 1000 > idleMs
  }

  function Created(store: Store, id: string, authed: bool, now: nat): Store {
    store[id := Session(now / 1000, authed)]
  }

  /** The answer of `touch` is the row as it was before the refresh. */
  function Touched(store: Store, id: string, idleMs: nat, now: nat): (Store, Option<Session>) {
    if id == "" || id !in store then (store, None)
    else if Expired(store[id], idleMs, now) then (store - {id}, None)
    else (store[id := store[id].(lastActive := now / 1000)], Some(store[id]))
  }

  function Marked(store: Store, id: string, authed: bool): Store {
    if id in store then store[id := store[id].(authed := authed)] else store
  }

  /** What `purgeExpired` deletes: rows last active before now less the timeout, both floored to seconds. */
  predicate Purgeable(s: Session, idleMs: nat, now: nat) {
    s.lastActive < now / 1000 - idleMs / 1000
  }

  function Purged(store: Store, idleMs: nat, now: nat): Store {
    map id | id in store && !Purgeable(store[id], idleMs, now) :: store[id]
  }

  class SessionStore {
    const idleMs: nat
    var store: Store

    constructor (idleMs: nat)
      ensures this.idleMs == idleMs && store == map[]
    {
      this.idleMs := idleMs;
      store := map[];
    }

    method Create(id: string, authed: bool, now: nat)
      modifies this
      ensures store == Created(old(store), id, authed, now)
    {
      store := store[id := Session(now / 1000, authed)];
    }

    method Touch(id: Option<string>, now: nat) returns (session: Option<Session>)
      modifies this
      ensures (store, session) == Touched(old(store), if id.Some? then id.value else "", idleMs, now)
    {
      if id.None? || id.value == "" || id.value !in store {
        return None;
      }
      var row := store[id.value];
      if now - row.lastActive * 1000 > idleMs {
        Destroy(id.value);
        return None;
      }
      store := store[id.value := row.(lastActive := now / 1000)];
      session := Some(row);
    }

    method MarkAuthed(id: string, authed: bool)
      modifies this
      ensures store == Marked(old(store), id, authed)
    {
      if id in store {
        store := store[id := store[id].(authed := authed)];
      }
    }

    method Destroy(id: string)
      modifies this
      ensures store == old(store) - {id}
    {
      store := store - {id};
    }

    /** Keeps the rows idle for no more seconds than the timeout, as they are, and counts the others. */
    method PurgeExpired(now: nat) returns (changes: nat)
      modifies this
      ensures forall id :: id in store <==> id in old(store) && now / 1000 - old(store)[id].lastActive <= idleMs / 1000
      ensures forall id :: id in store ==> store[id] == old(store)[id]
      ensures changes == |old(store).Keys - store.Keys|
      ensures store == Step(old(store), Timed(now, Purge), idleMs)
    {
      var expired := set id | id in store && Purgeable(store[id], idleMs, now);
      changes := |expired|;
      assert store - expired == Purged(store, idleMs, now);
      assert expired == store.Keys - (store - expired).Keys;
      store := store - expired;
    }
  }

  // ---------------------------------------------------------------- one session

  /**
   An accepted touch restarts the idle clock, at the whole second: the session is
   answered again exactly until the timeout has passed since then. A refused one
   is gone for good. No other session is affected.
   */
  lemma TouchExact(store: Store, id: string, idleMs: nat, now: nat, later: nat)
    requires id != "" && now <= later
    ensures var (after, answer) := Touched(store, id, idleMs, now);
            && (answer.Some? <==> id in store && now - store[id].lastActive * 1000 <= idleMs)
            && (answer.Some? ==> answer.value == store[id] && after.Keys == store.Keys)
            && (answer.Some? ==> (Touched(after, id, idleMs, later).1.Some? <==> later - now / 1000 * 1000 <= idleMs))
            && (answer.None? ==> Touched(after, id, idleMs, later) == (after, None))
            && forall other :: other != id ==>
                 (other in after <==> other in store) && (other in store ==> after[other] == store[other])
  {
  }

  ghost predicate OthersKept(after: Store, before: Store, id: string) {
    forall other :: other != id ==>
      (other in after <==> other in before) && (other in before ==> after[other] == before[other])
  }

  /** A session just created is answered, as it was created, until the timeout has passed since that second. */
  lemma CreateExact(store: Store, id: string, authed: bool, idleMs: nat, now: nat, later: nat)
    requires id != "" && now <= later
    ensures var after := Created(store, id, authed, now);
            && OthersKept(after, store, id)
            && Touched(after, id, idleMs, later).1 ==
                 if later - now / 1000 * 1000 <= idleMs then Some(Session(now / 1000, authed)) else None
  {
  }

  /** Marking a session changes what it is answered as, not whether; a session that is not there stays away. */
  lemma MarkExact(store: Store, id: string, authed: bool, idleMs: nat, later: nat)
    ensures var after := Marked(store, id, authed);
            && OthersKept(after, store, id)
            && Touched(after, id, idleMs, later).1 ==
                 match Touched(store, id, idleMs, later).1
                 case Some(session) => Some(session.(authed := authed))
                 case None => None
  {
  }

  /** A destroyed session is answered no more. */
  lemma DestroyExact(store: Store, id: string, idleMs: nat, now: nat, later: nat)
    ensures var after := Step(store, Timed(now, Destroy(id)), idleMs);
            OthersKept(after, store, id) && Touched(after, id, idleMs, later) == (after, None)
  {
  }

  // ---------------------------------------------------------------- runs

  datatype Op =
    | Create(id: string, authed: bool)
    | Touch(id: string)
    | MarkAuthed(id: string, authed: bool)
    | Destroy(id: string)
    | Purge

  datatype Timed = Timed(now: nat, op: Op)

  function Step(store: Store, e: Timed, idleMs: nat): Store {
    match e.op
    case Create(id, authed) => Created(store, id, authed, e.now)
    case Touch(id) => Touched(store, id, idleMs, e.now).0
    case MarkAuthed(id, authed) => Marked(store, id, authed)
    case Destroy(id) => store - {id}
    case Purge => Purged(store, idleMs, e.now)
  }

  function Run(events: seq<Timed>, idleMs: nat): Store {
    if events == [] then map[] else Step(Run(events[..|events| - 1], idleMs), events[|events| - 1], idleMs)
  }

  /** The answers of the touches of a run, in order. */
  function Answers(events: seq<Timed>, idleMs: nat): seq<Option<Session>> {
    if events == [] then []
    else
      var e := events[|events| - 1];
      var init := events[..|events| - 1];
      Answers(init, idleMs) + if e.op.Touch? then [Touched(Run(init, idleMs), e.op.id, idleMs, e.now).1] else []
  }

  function WithoutPurges(events: seq<Timed>): seq<Timed> {
    if events == [] then []
    else WithoutPurges(events[..|events| - 1]) + if events[|events| - 1].op.Purge? then [] else [events[|events| - 1]]
  }

  predicate Monotone(events: seq<Timed>) {
    forall i, j :: 0 <= i < j < |events| ==> events[i].now <= events[j].now
  }

  /** Session ids are random, so each is created once. */
  predicate FreshIds(events: seq<Timed>) {
    forall i, j :: 0 <= i < j < |events| && events[i].op.Create? && events[j].op.Create? ==>
        events[i].op.id != events[j].op.id
  }

  // ---------------------------------------------------------------- purging is unobservable

  /** The purged store lacks only sessions that have expired by now. */
  ghost predicate Lags(purged: Store, full: Store, idleMs: nat, now: nat) {
    && (forall id :: id in purged ==> id in full && full[id] == purged[id])
    && (forall id :: id in full && id !in purged ==> Expired(full[id], idleMs, now))
  }

  /** Whatever a purge deletes, `touch` would refuse, from that time on. */
  lemma PurgeableIsExpired(s: Session, idleMs: nat, now: nat, later: nat)
    requires Purgeable(s, idleMs, now) && now <= later
    ensures Expired(s, idleMs, later)
  {
  }

  /** Every id in the store was created by the run. */
  lemma {:induction false} OnlyCreatedIds(events: seq<Timed>, idleMs: nat, id: string)
    requires id in Run(events, idleMs)
    ensures exists i :: 0 <= i < |events| && events[i].op.Create? && events[i].op.id == id
  {
    var init := events[..|events| - 1];
    var last := events[|events| - 1];
    if last.op == Create(id, true) || last.op == Create(id, false) {
    } else {
      assert id in Run(init, idleMs);
      OnlyCreatedIds(init, idleMs, id);
      var i :| 0 <= i < |init| && init[i].op.Create? && init[i].op.id == id;
      assert events[i] == init[i];
    }
  }

  lemma LagsLater(purged: Store, full: Store, idleMs: nat, now: nat, later: nat)
    requires Lags(purged, full, idleMs, now) && now <= later
    ensures Lags(purged, full, idleMs, later)
  {
  }

  lemma StepLags(purged: Store, full: Store, e: Timed, idleMs: nat)
    requires Lags(purged, full, idleMs, e.now)
    requires e.op.Create? ==> e.op.id !in full
    ensures Lags(Step(purged, e, idleMs), if e.op.Purge? then full else Step(full, e, idleMs), idleMs, e.now)
    ensures e.op.Touch? ==> Touched(purged, e.op.id, idleMs, e.now).1 == Touched(full, e.op.id, idleMs, e.now).1
  {
  }

  /** The created ids of the run without purges are those of the run. */
  lemma {:induction false} WithoutPurgesCreates(events: seq<Timed>, id: string)
    requires exists i :: 0 <= i < |WithoutPurges(events)|
                      && WithoutPurges(events)[i].op.Create? && WithoutPurges(events)[i].op.id == id
    ensures exists i :: 0 <= i < |events| && events[i].op.Create? && events[i].op.id == id
  {
    var init, rest := events[..|events| - 1], WithoutPurges(events[..|events| - 1]);
    var i :| 0 <= i < |WithoutPurges(events)| && WithoutPurges(events)[i].op.Create?
        && WithoutPurges(events)[i].op.id == id;
    if i < |rest| {
      assert rest[i] == WithoutPurges(events)[i];
      WithoutPurgesCreates(init, id);
      var k :| 0 <= k < |init| && init[k].op.Create? && init[k].op.id == id;
      assert events[k] == init[k];
    } else {
      assert events[|events| - 1].op.Create? && events[|events| - 1].op.id == id;
    }
  }

  /**
   Purges, wherever they fall in a run, never change the answer of any touch,
   although one rounds to seconds and the other counts milliseconds.
   */
  lemma {:induction false} PurgingUnobservable(events: seq<Timed>, idleMs: nat)
    requires Monotone(events) && FreshIds(events)
    ensures Answers(events, idleMs) == Answers(WithoutPurges(events), idleMs)
    ensures events != [] ==>
              Lags(Run(events, idleMs), Run(WithoutPurges(events), idleMs), idleMs, events[|events| - 1].now)
    decreases |events|
  {
    hide Step, Touched, Lags;
    if events != [] {
      var init, e := events[..|events| - 1], events[|events| - 1];
      PurgingUnobservable(init, idleMs);
      var purged, full := Run(init, idleMs), Run(WithoutPurges(init), idleMs);
      if init == [] {
        EmptyLags(idleMs, e.now);
      } else {
        LagsLater(purged, full, idleMs, init[|init| - 1].now, e.now);
      }
      if e.op.Create? && e.op.id in full {
        OnlyCreatedIds(WithoutPurges(init), idleMs, e.op.id);
        WithoutPurgesCreates(init, e.op.id);
        assert false;
      }
      StepLags(purged, full, e, idleMs);
      var rest := WithoutPurges(init);
      if e.op.Purge? {
        assert WithoutPurges(events) == rest;
      } else {
        assert WithoutPurges(events) == rest + [e];
        assert (rest + [e])[..|rest|] == rest;
      }
    }
  }

  lemma EmptyLags(idleMs: nat, now: nat)
    ensures Lags(map[], map[], idleMs, now)
  {
  }
}
