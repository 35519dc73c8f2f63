/** The pool of idle upstream connections: taken out by value, put back when still usable,
    by any number of workers whose steps interleave. */
module Pool {
  import opened Prelude
  import opened UpstreamKey

  type Key = string
  type Connection = nat
  type Worker = nat
  type Pools = map<Key, seq<Connection>>

  function Idle(pools: Pools, key: Key): (r: seq<Connection>)
  {
    if key in pools then pools[key] else []
  }

  // ----- the holder, one call at a time

  /** What a loop that drops dead connections leaves of an idle list, and what it finds. */
  function Drain(idle: seq<Connection>, dead: set<Connection>): (r: (seq<Connection>, Option<Connection>))
  {
    if idle == [] then ([], None)
    else if idle[|idle| - 1] in dead then Drain(idle[..|idle| - 1], dead)
    else (idle[..|idle| - 1], Some(idle[|idle| - 1]))
  }

  /** The loop finds the last connection that is not dead and drops only dead ones. */
  lemma {:induction false} DrainFindsLastLive(idle: seq<Connection>, dead: set<Connection>)
    ensures Drain(idle, dead).1.None? <==> forall c :: c in idle ==> c in dead
    ensures Drain(idle, dead).1.None? ==> Drain(idle, dead).0 == []
    ensures var (left, found) := Drain(idle, dead);
            found.Some? ==> && found.value !in dead
                            && left + [found.value] <= idle
                            && forall i :: |left| < i < |idle| ==> idle[i] in dead
  {
    if idle != [] && idle[|idle| - 1] in dead {
      var front := idle[..|idle| - 1];
      DrainFindsLastLive(front, dead);
      assert idle == front + [idle[|idle| - 1]];
    }
  }

  class H1PoolHolder {
    var pools: Pools
    const maxIdlePerKey: nat

    constructor NewLocal()
      ensures pools == map[] && maxIdlePerKey == 1
    {
      pools, maxIdlePerKey := map[], 1;
    }

    constructor NewGlobal(limit: nat)
      ensures pools == map[] && maxIdlePerKey == if limit >= 1 then limit else 1
    {
      pools, maxIdlePerKey := map[], if limit >= 1 then limit else 1;
    }

    /** One turn under the lock. */
    method PopIdle(key: Key) returns (r: Option<Connection>)
      modifies this
      ensures pools == Popped(old(pools), key)
      ensures r == Top(old(pools), key)
    {
      if key !in pools || pools[key] == [] { return None; }
      r := Some(pools[key][|pools[key]| - 1]);
      pools := pools[key := pools[key][..|pools[key]| - 1]];
    }

    /** `dead` are the connections that report themselves disconnected; `connected` is what
        connecting gives, if it comes to that. */
    method Acquire(key: Key, dead: set<Connection>, connected: Option<Connection>) returns (r: Option<(Connection, bool)>)
      modifies this
      ensures var (left, found) := Drain(Idle(old(pools), key), dead);
              && Idle(pools, key) == left
              && (found.Some? ==> r == Some((found.value, true)))
              && (found.None? ==> r == if connected.Some? then Some((connected.value, false)) else None)
      ensures forall k :: k != key ==> Idle(pools, k) == Idle(old(pools), k)
    {
      while true
        invariant Drain(Idle(pools, key), dead) == Drain(Idle(old(pools), key), dead)
        invariant forall k :: k != key ==> Idle(pools, k) == Idle(old(pools), k)
        decreases |Idle(pools, key)|
      {
        var candidate := PopIdle(key);
        if candidate.None? { break; }
        if candidate.value !in dead { return Some((candidate.value, true)); }
      }
      r := if connected.Some? then Some((connected.value, false)) else None;
    }

    method Release(key: Key, connection: Connection, disconnected: bool)
      modifies this
      ensures pools == if disconnected then old(pools) else Pushed(old(pools), key, connection, maxIdlePerKey)
    {
      if disconnected { return; }
      var idle := Idle(pools, key);
      if |idle| < maxIdlePerKey { idle := idle + [connection]; }
      pools := pools[key := idle];
    }
  }

  function Top(pools: Pools, key: Key): (r: Option<Connection>)
  {
    var idle := Idle(pools, key);
    if idle == [] then None else Some(idle[|idle| - 1])
  }

  function Popped(pools: Pools, key: Key): (r: Pools)
  {
    if Idle(pools, key) == [] then pools else pools[key := pools[key][..|pools[key]| - 1]]
  }

  function Pushed(pools: Pools, key: Key, connection: Connection, limit: nat): (r: Pools)
  {
    var idle := Idle(pools, key);
    pools[key := if |idle| < limit then idle + [connection] else idle]
  }

  // ----- many workers

  /** How far a worker is in acquiring, using and releasing a connection. */
  datatype Holding =
    | Acquiring(key: Key)
    | Popping(key: Key, connection: Connection)
    | Connecting(key: Key)
    | Using(key: Key, connection: Connection, reused: bool)
    | Returning(key: Key, connection: Connection)

  /** `dialled` gives the key each connection was connected for; `returned` are the
      connections that were put back at some time. */
  datatype State = State(
    pools: Pools,
    held: map<Worker, Holding>,
    dialled: map<Connection, Key>,
    closed: set<Connection>,
    disconnected: set<Connection>,
    returned: set<Connection>)

  const START := State(map[], map[], map[], {}, {}, {})

  datatype Event =
    | Begin(worker: Worker, key: Key)
    | Pop(worker: Worker)
    | CheckPopped(worker: Worker)
    | Connect(worker: Worker, connection: Connection)
    | ConnectFails(worker: Worker)
    | GiveUp(worker: Worker)
    | CheckReturned(worker: Worker)
    | Push(worker: Worker)
    | Disconnect(connection: Connection)

  /** When a step can happen; a connected connection is a new one. */
  predicate Enabled(s: State, e: Event)
  {
    match e
    case Begin(w, _) => w !in s.held
    case Pop(w) => w in s.held && s.held[w].Acquiring?
    case CheckPopped(w) => w in s.held && s.held[w].Popping?
    case Connect(w, c) => w in s.held && s.held[w].Connecting? && c !in s.dialled
    case ConnectFails(w) => w in s.held && s.held[w].Connecting?
    case GiveUp(w) => w in s.held && s.held[w].Using?
    case CheckReturned(w) => w in s.held && s.held[w].Using?
    case Push(w) => w in s.held && s.held[w].Returning?
    case Disconnect(c) => c in s.dialled
  }

  function Hold(s: State, w: Worker, h: Holding): (r: State) { s.(held := s.held[w := h]) }

  /** The worker lets go of the connection, which closes it. */
  function Close(s: State, c: Connection): (r: State) { s.(closed := s.closed + {c}) }

  function Leave(s: State, w: Worker): (r: State) { s.(held := s.held - {w}) }

  function StepPop(s: State, w: Worker): (r: State)
    requires Enabled(s, Pop(w))
  {
    var key := s.held[w].key;
    var top := Top(s.pools, key);
    if top.None? then Hold(s, w, Connecting(key))
    else Hold(s.(pools := Popped(s.pools, key)), w, Popping(key, top.value))
  }

  function StepPush(s: State, w: Worker, limit: nat): (r: State)
    requires Enabled(s, Push(w))
  {
    var h := s.held[w];
    var left := Leave(s.(pools := Pushed(s.pools, h.key, h.connection, limit)), w);
    if |Idle(s.pools, h.key)| < limit then left.(returned := s.returned + {h.connection}) else Close(left, h.connection)
  }

  function Step(s: State, e: Event, limit: nat): (r: State)
    requires Enabled(s, e)
  {
    match e
    case Begin(w, key) => Hold(s, w, Acquiring(key))
    case Pop(w) => StepPop(s, w)
    case CheckPopped(w) =>
      var h := s.held[w];
      if h.connection in s.disconnected then Hold(Close(s, h.connection), w, Acquiring(h.key))
      else Hold(s, w, Using(h.key, h.connection, true))
    case Connect(w, c) => Hold(s.(dialled := s.dialled[c := s.held[w].key]), w, Using(s.held[w].key, c, false))
    case ConnectFails(w) => Leave(s, w)
    case GiveUp(w) => Leave(Close(s, s.held[w].connection), w)
    case CheckReturned(w) =>
      var h := s.held[w];
      if h.connection in s.disconnected then Leave(Close(s, h.connection), w) else Hold(s, w, Returning(h.key, h.connection))
    case Push(w) => StepPush(s, w, limit)
    case Disconnect(c) => s.(disconnected := s.disconnected + {c})
  }

  /** The state after a run of steps from `s`, if each of them can happen. */
  function Run(s: State, events: seq<Event>, limit: nat): (r: Option<State>)
  {
    if events == [] then Some(s)
    else match Run(s, events[..|events| - 1], limit)
      case None => None
      case Some(before) =>
        var last := events[|events| - 1];
        if Enabled(before, last) then Some(Step(before, last, limit)) else None
  }

  lemma {:induction false} RunAppend(s: State, events: seq<Event>, e: Event, limit: nat)
    requires Run(s, events, limit).Some? && Enabled(Run(s, events, limit).value, e)
    ensures Run(s, events + [e], limit) == Some(Step(Run(s, events, limit).value, e, limit))
  {
    assert (events + [e])[..|events|] == events;
  }

  /** When nobody interferes, the steps of one worker do what the acquiring loop does. */
  lemma {:induction false} AcquireIsSteps(s: State, w: Worker, limit: nat) returns (events: seq<Event>, after: State)
    requires Enabled(s, Pop(w))
    ensures Run(s, events, limit) == Some(after)
    ensures var key := s.held[w].key;
            var (left, found) := Drain(Idle(s.pools, key), s.disconnected);
            && Idle(after.pools, key) == left
            && w in after.held
            && after.held[w] == (if found.Some? then Using(key, found.value, true) else Connecting(key))
    decreases |Idle(s.pools, s.held[w].key)|
  {
    var key := s.held[w].key;
    var popped := Step(s, Pop(w), limit);
    events, after := [Pop(w)], popped;
    assert [Pop(w)][..0] == [];
    if popped.held[w].Popping? {
      var checked := Step(popped, CheckPopped(w), limit);
      RunAppend(s, events, CheckPopped(w), limit);
      events, after := events + [CheckPopped(w)], checked;
      if checked.held[w].Acquiring? {
        var more, last := AcquireIsSteps(checked, w, limit);
        RunJoin(s, events, more, limit);
        events, after := events + more, last;
      }
    }
  }

  lemma {:induction false} RunJoin(s: State, events: seq<Event>, more: seq<Event>, limit: nat)
    requires Run(s, events, limit).Some?
    ensures Run(s, events + more, limit) == Run(Run(s, events, limit).value, more, limit)
  {
    if more == [] {
      assert events + more == events;
    } else {
      RunJoin(s, events, more[..|more| - 1], limit);
      assert (events + more)[..|events + more| - 1] == events + more[..|more| - 1];
    }
  }

  // ----- every connection is in one place

  datatype Place = IdleAt(key: Key, index: nat) | HeldBy(worker: Worker) | Closed

  predicate HasConnection(h: Holding) { h.Popping? || h.Using? || h.Returning? }

  /** A connection is at a place. */
  ghost predicate IsAt(s: State, c: Connection, p: Place)
  {
    match p
    case IdleAt(key, index) => key in s.pools && index < |s.pools[key]| && s.pools[key][index] == c
    case HeldBy(w) => w in s.held && HasConnection(s.held[w]) && s.held[w].connection == c
    case Closed => c in s.closed
  }

  /** `places` names the one place of each connection. */
  ghost predicate Agrees(s: State, places: map<Connection, Place>)
  {
    && places.Keys == s.dialled.Keys
    && (forall c :: c in places ==> IsAt(s, c, places[c]))
    && (forall c, p :: IsAt(s, c, p) ==> c in places && places[c] == p)
  }

  /** From `s` to `t` only connection `c` changes its place, to `p`. */
  ghost predicate Moves(s: State, t: State, c: Connection, p: Place)
  {
    && t.dialled.Keys == s.dialled.Keys + {c}
    && (forall q :: IsAt(t, c, q) <==> q == p)
    && (forall d, q :: d != c ==> (IsAt(t, d, q) <==> IsAt(s, d, q)))
  }

  lemma MoveAgrees(s: State, t: State, places: map<Connection, Place>, c: Connection, p: Place)
    requires Agrees(s, places) && Moves(s, t, c, p)
    ensures Agrees(t, places[c := p])
  {
  }

  ghost predicate Stays(s: State, t: State)
  {
    t.dialled.Keys == s.dialled.Keys && forall d, q :: IsAt(t, d, q) <==> IsAt(s, d, q)
  }

  lemma StayAgrees(s: State, t: State, places: map<Connection, Place>)
    requires Agrees(s, places) && Stays(s, t)
    ensures Agrees(t, places)
  {
  }

  lemma {:induction false} PopMoves(s: State, w: Worker, places: map<Connection, Place>)
    requires Agrees(s, places) && Enabled(s, Pop(w)) && Top(s.pools, s.held[w].key).Some?
    ensures Moves(s, StepPop(s, w), Top(s.pools, s.held[w].key).value, HeldBy(w))
  {
    var key, c, t := s.held[w].key, Top(s.pools, s.held[w].key).value, StepPop(s, w);
    var n := |s.pools[key]| - 1;
    assert IsAt(s, c, IdleAt(key, n));
    forall q ensures IsAt(t, c, q) <==> q == HeldBy(w) { if IsAt(t, c, q) && q != HeldBy(w) { assert IsAt(s, c, q); } }
    forall d, q | d != c ensures IsAt(t, d, q) <==> IsAt(s, d, q) {}
  }

  /** Where a connection goes that is put back. */
  function PushPlace(s: State, h: Holding, limit: nat): (r: Place)
  {
    var n := |Idle(s.pools, h.key)|;
    if n < limit then IdleAt(h.key, n) else Closed
  }

  lemma {:induction false} PushMoves(s: State, w: Worker, limit: nat, places: map<Connection, Place>)
    requires Agrees(s, places) && Enabled(s, Push(w))
    ensures Moves(s, StepPush(s, w, limit), s.held[w].connection, PushPlace(s, s.held[w], limit))
  {
    var h, t := s.held[w], StepPush(s, w, limit);
    var p := PushPlace(s, h, limit);
    assert IsAt(s, h.connection, HeldBy(w));
    forall q ensures IsAt(t, h.connection, q) <==> q == p { if IsAt(t, h.connection, q) && q != p { assert IsAt(s, h.connection, q); } }
    forall d, q | d != h.connection ensures IsAt(t, d, q) <==> IsAt(s, d, q) {}
  }

  lemma {:induction false} CloseMoves(s: State, w: Worker, t: State, places: map<Connection, Place>)
    requires Agrees(s, places) && w in s.held && HasConnection(s.held[w])
    requires t == Close(t, s.held[w].connection) && t.pools == s.pools && t.dialled == s.dialled && t.closed == s.closed + {s.held[w].connection}
    requires t.held - {w} == s.held - {w} && (w in t.held ==> !HasConnection(t.held[w]))
    ensures Moves(s, t, s.held[w].connection, Closed)
  {
    var c := s.held[w].connection;
    assert IsAt(s, c, HeldBy(w));
    forall v | v != w ensures v in t.held <==> v in s.held { assert v in t.held - {w} <==> v in s.held - {w}; }
    forall v | v != w && v in t.held ensures t.held[v] == s.held[v] { assert (t.held - {w})[v] == (s.held - {w})[v]; }
    forall q ensures IsAt(t, c, q) <==> q == Closed { if IsAt(t, c, q) && q != Closed { assert IsAt(s, c, q); } }
    forall d, q | d != c ensures IsAt(t, d, q) <==> IsAt(s, d, q) {}
  }

  lemma {:induction false} ConnectMoves(s: State, w: Worker, c: Connection, limit: nat, places: map<Connection, Place>)
    requires Agrees(s, places) && Enabled(s, Connect(w, c))
    ensures Moves(s, Step(s, Connect(w, c), limit), c, HeldBy(w))
  {
    var t := Step(s, Connect(w, c), limit);
    forall q ensures IsAt(t, c, q) <==> q == HeldBy(w) { if IsAt(t, c, q) && q != HeldBy(w) { assert IsAt(s, c, q); } }
  }

  lemma {:induction false} StepAgrees(s: State, e: Event, limit: nat, places: map<Connection, Place>) returns (after: map<Connection, Place>)
    requires Agrees(s, places) && Enabled(s, e)
    ensures Agrees(Step(s, e, limit), after)
  {
    var t := Step(s, e, limit);
    after := places;
    match e {
      case Pop(w) =>
        var top := Top(s.pools, s.held[w].key);
        if top.Some? {
          PopMoves(s, w, places);
          after := places[top.value := HeldBy(w)];
          MoveAgrees(s, t, places, top.value, HeldBy(w));
        } else {
          StayAgrees(s, t, places);
        }
      case Push(w) =>
        var p := PushPlace(s, s.held[w], limit);
        PushMoves(s, w, limit, places);
        after := places[s.held[w].connection := p];
        MoveAgrees(s, t, places, s.held[w].connection, p);
      case Connect(w, c) =>
        ConnectMoves(s, w, c, limit, places);
        after := places[c := HeldBy(w)];
        MoveAgrees(s, t, places, c, HeldBy(w));
      case GiveUp(w) => after := CloseAgrees(s, w, t, places);
      case CheckPopped(w) => after := CheckAgrees(s, w, e, limit, places);
      case CheckReturned(w) => after := CheckAgrees(s, w, e, limit, places);
      case Begin(_, _) => StayAgrees(s, t, places);
      case ConnectFails(_) => StayAgrees(s, t, places);
      case Disconnect(_) => StayAgrees(s, t, places);
    }
  }

  lemma {:induction false} CheckAgrees(s: State, w: Worker, e: Event, limit: nat, places: map<Connection, Place>) returns (after: map<Connection, Place>)
    requires Agrees(s, places) && Enabled(s, e) && (e == CheckPopped(w) || e == CheckReturned(w))
    ensures Agrees(Step(s, e, limit), after)
  {
    if s.held[w].connection in s.disconnected {
      after := CloseAgrees(s, w, Step(s, e, limit), places);
    } else {
      after := places;
      StayAgrees(s, Step(s, e, limit), places);
    }
  }

  lemma {:induction false} CloseAgrees(s: State, w: Worker, t: State, places: map<Connection, Place>) returns (after: map<Connection, Place>)
    requires Agrees(s, places) && w in s.held && HasConnection(s.held[w])
    requires t == Close(t, s.held[w].connection) && t.pools == s.pools && t.dialled == s.dialled && t.closed == s.closed + {s.held[w].connection}
    requires t.held - {w} == s.held - {w} && (w in t.held ==> !HasConnection(t.held[w]))
    ensures Agrees(t, after)
  {
    CloseMoves(s, w, t, places);
    after := places[s.held[w].connection := Closed];
    MoveAgrees(s, t, places, s.held[w].connection, Closed);
  }

  lemma {:induction false} RunAgrees(events: seq<Event>, limit: nat) returns (places: map<Connection, Place>)
    requires Run(START, events, limit).Some?
    ensures Agrees(Run(START, events, limit).value, places)
  {
    if events == [] {
      places := map[];
    } else {
      var front := events[..|events| - 1];
      var before := RunAgrees(front, limit);
      places := StepAgrees(Run(START, front, limit).value, events[|events| - 1], limit, before);
    }
  }

  /** In every reachable state each connection that was made is idle under one key, held by
      one worker or closed, and in one such place only. */
  lemma {:induction false} OnePlace(events: seq<Event>, limit: nat, c: Connection) returns (p: Place)
    requires Run(START, events, limit).Some? && c in Run(START, events, limit).value.dialled
    ensures forall q :: IsAt(Run(START, events, limit).value, c, q) <==> q == p
  {
    var places := RunAgrees(events, limit);
    p := places[c];
  }

  // ----- the limit, the keys and the reuse flag

  ghost predicate Capped(s: State, limit: nat)
  {
    forall key :: key in s.pools ==> |s.pools[key]| <= limit
  }

  lemma StepCapped(s: State, e: Event, limit: nat)
    requires Capped(s, limit) && Enabled(s, e)
    ensures Capped(Step(s, e, limit), limit)
  {
    match e
    case Pop(w) => assert StepPop(s, w).pools == s.pools || StepPop(s, w).pools == Popped(s.pools, s.held[w].key);
    case Push(w) => assert StepPush(s, w, limit).pools == Pushed(s.pools, s.held[w].key, s.held[w].connection, limit);
    case _ => assert Step(s, e, limit).pools == s.pools;
  }

  /** No idle list is ever longer than the limit. */
  lemma {:induction false} NeverOverLimit(events: seq<Event>, limit: nat)
    requires Run(START, events, limit).Some?
    ensures Capped(Run(START, events, limit).value, limit)
  {
    if events != [] {
      NeverOverLimit(events[..|events| - 1], limit);
      StepCapped(Run(START, events[..|events| - 1], limit).value, events[|events| - 1], limit);
    }
  }

  /** What is known of a connection at its place: it was made for the key it is idle or held
      under, and it was put back before exactly when its user is told that it is reused. */
  ghost predicate Fits(s: State, c: Connection, p: Place)
  {
    match p
    case IdleAt(key, _) => c in s.dialled && s.dialled[c] == key && c in s.returned
    case HeldBy(w) =>
      w in s.held && HasConnection(s.held[w]) ==>
        && c in s.dialled && s.dialled[c] == s.held[w].key
        && (s.held[w].Popping? ==> c in s.returned)
        && (s.held[w].Using? ==> (s.held[w].reused <==> c in s.returned))
    case Closed => true
  }

  ghost predicate AllFit(s: State)
  {
    && s.returned <= s.dialled.Keys
    && forall c, p :: IsAt(s, c, p) ==> Fits(s, c, p)
  }

  /** A step of one connection leaves the others as they are. */
  lemma {:induction false} StepFits(s: State, e: Event, limit: nat, places: map<Connection, Place>, c: Connection, p: Place)
    requires Agrees(s, places) && AllFit(s) && Enabled(s, e) && IsAt(Step(s, e, limit), c, p)
    ensures Fits(Step(s, e, limit), c, p)
  {
    if IsAt(s, c, p) { assert Fits(s, c, p); }
    match e {
      case Pop(w) => PopFits(s, w, places, c, p);
      case Push(w) => PushFits(s, w, limit, places, c, p);
      case CheckPopped(w) => assert IsAt(s, s.held[w].connection, HeldBy(w));
      case CheckReturned(w) => assert IsAt(s, s.held[w].connection, HeldBy(w));
      case GiveUp(w) => assert IsAt(s, s.held[w].connection, HeldBy(w));
      case _ =>
    }
  }

  lemma {:induction false} PopFits(s: State, w: Worker, places: map<Connection, Place>, c: Connection, p: Place)
    requires Agrees(s, places) && AllFit(s) && Enabled(s, Pop(w)) && IsAt(StepPop(s, w), c, p)
    ensures Fits(StepPop(s, w), c, p)
  {
    var top := Top(s.pools, s.held[w].key);
    if top.Some? {
      PopMoves(s, w, places);
      var from := IdleAt(s.held[w].key, |s.pools[s.held[w].key]| - 1);
      assert IsAt(s, top.value, from) && Fits(s, top.value, from);
    }
    if IsAt(s, c, p) { assert Fits(s, c, p); }
  }

  lemma {:induction false} PushFits(s: State, w: Worker, limit: nat, places: map<Connection, Place>, c: Connection, p: Place)
    requires Agrees(s, places) && AllFit(s) && Enabled(s, Push(w)) && IsAt(StepPush(s, w, limit), c, p)
    ensures Fits(StepPush(s, w, limit), c, p)
  {
    var own := s.held[w].connection;
    assert IsAt(s, own, HeldBy(w)) && Fits(s, own, HeldBy(w));
    PushMoves(s, w, limit, places);
    if c == own { assert p == PushPlace(s, s.held[w], limit); } else { assert IsAt(s, c, p) && Fits(s, c, p); }
  }

  lemma {:induction false} StepReturned(s: State, e: Event, limit: nat)
    requires AllFit(s) && Enabled(s, e)
    ensures Step(s, e, limit).returned <= Step(s, e, limit).dialled.Keys
  {
    if e.Push? { assert IsAt(s, s.held[e.worker].connection, HeldBy(e.worker)); }
  }

  lemma {:induction false} RunFits(events: seq<Event>, limit: nat)
    requires Run(START, events, limit).Some?
    ensures AllFit(Run(START, events, limit).value)
  {
    if events != [] {
      var front, e := events[..|events| - 1], events[|events| - 1];
      RunFits(front, limit);
      var places := RunAgrees(front, limit);
      var s, t := Run(START, front, limit).value, Run(START, events, limit).value;
      StepReturned(s, e, limit);
      forall c, p | IsAt(t, c, p) ensures Fits(t, c, p) { StepFits(s, e, limit, places, c, p); }
    }
  }

  /** A worker that is told a connection is reused gets one that was made for its key, was
      put back by an earlier user and was not disconnected when it was looked at. */
  lemma {:induction false} ReusedIsLive(events: seq<Event>, limit: nat, w: Worker)
    requires Run(START, events, limit).Some? && Enabled(Run(START, events, limit).value, CheckPopped(w))
    ensures var s := Run(START, events, limit).value;
            var h := Step(s, CheckPopped(w), limit).held[w];
            && (h.Using? <==> s.held[w].connection !in s.disconnected)
            && (h.Using? ==> && h.reused && h.key == s.held[w].key && h.connection == s.held[w].connection
                             && h.connection in s.dialled && s.dialled[h.connection] == h.key
                             && h.connection in s.returned)
  {
    var s := Run(START, events, limit).value;
    RunFits(events, limit);
    assert IsAt(s, s.held[w].connection, HeldBy(w));
  }

  /** Whoever uses a connection uses one that was made for its own key, and the flag it is
      given tells whether somebody used the connection before. */
  lemma {:induction false} FlagIsTrue(events: seq<Event>, limit: nat, w: Worker)
    requires Run(START, events, limit).Some?
    requires var s := Run(START, events, limit).value; w in s.held && s.held[w].Using?
    ensures var s := Run(START, events, limit).value;
            var h := s.held[w];
            h.connection in s.dialled && s.dialled[h.connection] == h.key && (h.reused <==> h.connection in s.returned)
  {
    RunFits(events, limit);
    assert IsAt(Run(START, events, limit).value, Run(START, events, limit).value.held[w].connection, HeldBy(w));
  }

  /** An mcp worker never uses a connection that was made for another upstream path. */
  lemma {:induction false} McpKeepsToItsPath(events: seq<Event>, limit: nat, w: Worker, made: Upstream, wanted: Upstream)
    requires Run(START, events, limit).Some?
    requires var s := Run(START, events, limit).value;
             && w in s.held && s.held[w].Using? && s.held[w].key == ConnectionKey(wanted)
             && s.held[w].connection in s.dialled && s.dialled[s.held[w].connection] == ConnectionKey(made)
    requires Readable(made) && Readable(wanted) && IsMcp(wanted) && !Clash(wanted, made)
    ensures Protocol(made) == Protocol(wanted) && made.remote.hostPort == wanted.remote.hostPort && made.remote.path == wanted.remote.path
  {
    FlagIsTrue(events, limit, w);
    SameKeySameUpstream(wanted, made);
  }
}
