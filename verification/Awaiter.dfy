/** Waiting for a result (lib/challenge/awaiter.go): every interleaving of Await and Solve. */
module Awaiters {
  import opened Types

  /** An Await: before it registers, registered and waiting, having loaded its result, returned. */
  datatype Phase = Fresh | Waiting | Loaded(value: VerifyResult) | Returned(value: VerifyResult)

  datatype Await<K> = Await(key: K, phase: Phase)

  /** A Solve that took a callback: before it stores the result, before it wakes the Await, finished. */
  datatype Solve = Taken(who: nat, result: VerifyResult) | Stored(who: nat, result: VerifyResult) | Finished

  datatype Firing = Firing(who: nat, result: VerifyResult)

  /**
    `callbacks` is the shared map, where a callback is named by the Await that made it; `stored` are
    the result variables, `done` the contexts that are done, `woken` those done by a callback, and
    `fired` records the callbacks taken out by Solves.
   */
  datatype State<K> = State(
    callbacks: map<K, nat>,
    awaits: map<nat, Await<K>>,
    solves: map<nat, Solve>,
    stored: map<nat, VerifyResult>,
    done: set<nat>,
    woken: set<nat>,
    fired: seq<Firing>)

  datatype Event<K> =
    | Begin(who: nat, key: K)
    | Register(who: nat)
    | Timeout(who: nat)
    | Load(who: nat)
    | Leave(who: nat)
    | Take(solve: nat, key: K, result: VerifyResult)
    | Store(solve: nat)
    | Cancel(solve: nat)

  function Initial<K>(): State<K> { State(map[], map[], map[], map[], {}, {}, []) }

  predicate InPhase<K>(s: State<K>, who: nat, p: Phase)
  {
    who in s.awaits && s.awaits[who].phase == p
  }

  function Move<K>(s: State<K>, who: nat, p: Phase): State<K>
    requires who in s.awaits
  {
    s.(awaits := s.awaits[who := s.awaits[who].(phase := p)])
  }

  function Result<K>(s: State<K>, who: nat): VerifyResult
  {
    if who in s.stored then s.stored[who] else ResultNone
  }

  /** One step; a step that is not due does nothing. */
  function Next<K>(s: State<K>, ev: Event<K>): State<K>
  {
    match ev
    case Begin(who, key) => if who in s.awaits then s else s.(awaits := s.awaits[who := Await(key, Fresh)])
    case Register(who) =>
      if InPhase(s, who, Fresh) then
        Move(s, who, Waiting).(callbacks := s.callbacks[s.awaits[who].key := who])
      else s
    case Timeout(who) => s.(done := s.done + {who})
    case Load(who) =>
      if InPhase(s, who, Waiting) && who in s.done then Move(s, who, Loaded(Result(s, who))) else s
    case Leave(who) =>
      if who in s.awaits && s.awaits[who].phase.Loaded? then
        Move(s, who, Returned(s.awaits[who].phase.value)).(callbacks := s.callbacks - {s.awaits[who].key})
      else s
    case Take(solve, key, result) =>
      if solve in s.solves then s
      else if key !in s.callbacks then s.(solves := s.solves[solve := Finished])
      else s.(callbacks := s.callbacks - {key}, solves := s.solves[solve := Taken(s.callbacks[key], result)],
              fired := s.fired + [Firing(s.callbacks[key], result)])
    case Store(solve) =>
      if solve in s.solves && s.solves[solve].Taken? then
        var v := s.solves[solve];
        s.(solves := s.solves[solve := Stored(v.who, v.result)], stored := s.stored[v.who := v.result])
      else s
    case Cancel(solve) =>
      if solve in s.solves && s.solves[solve].Stored? then
        var v := s.solves[solve];
        s.(solves := s.solves[solve := Finished], done := s.done + {v.who}, woken := s.woken + {v.who})
      else s
  }

  function After<K>(s: State<K>, evs: seq<Event<K>>): State<K>
    decreases |evs|
  {
    if evs == [] then s else After(Next(s, evs[0]), evs[1..])
  }

  ghost predicate Fired(fired: seq<Firing>, who: nat, result: VerifyResult)
  {
    exists i :: 0 <= i < |fired| && fired[i] == Firing(who, result)
  }

  ghost predicate FiredWho(fired: seq<Firing>, who: nat)
  {
    exists i :: 0 <= i < |fired| && fired[i].who == who
  }

  /** What an Await may have seen: nothing, or the one result its callback was fired with. */
  ghost predicate Seen(fired: seq<Firing>, who: nat, value: VerifyResult)
  {
    value == ResultNone || Fired(fired, who, value)
  }

  /** A callback in the map belongs to an Await of that key that has not returned, and was not taken. */
  ghost predicate MapOk<K(!new)>(s: State<K>)
  {
    forall k :: k in s.callbacks ==>
      var who := s.callbacks[k];
      && who in s.awaits && s.awaits[who].key == k
      && (s.awaits[who].phase.Waiting? || s.awaits[who].phase.Loaded?)
      && !FiredWho(s.fired, who)
  }

  /** No callback was taken twice, and only those of registered Awaits were. */
  ghost predicate FiredOk<K(!new)>(s: State<K>)
  {
    && (forall i, j :: 0 <= i < j < |s.fired| ==> s.fired[i].who != s.fired[j].who)
    && (forall who :: FiredWho(s.fired, who) ==> who in s.awaits && !s.awaits[who].phase.Fresh?)
  }

  /** Results on their way or stored come from the firing of that very callback. */
  ghost predicate StoredOk<K(!new)>(s: State<K>)
  {
    && (forall n :: n in s.solves && s.solves[n].Taken? ==> Fired(s.fired, s.solves[n].who, s.solves[n].result))
    && (forall n :: n in s.solves && s.solves[n].Stored? ==> s.solves[n].who in s.stored)
    && (forall who :: who in s.stored ==> Fired(s.fired, who, s.stored[who]))
    && s.woken <= s.stored.Keys && s.woken <= s.done
  }

  /** So do results loaded or returned. */
  ghost predicate LoadedOk<K(!new)>(s: State<K>)
  {
    && (forall who :: who in s.awaits && s.awaits[who].phase.Loaded? ==> Seen(s.fired, who, s.awaits[who].phase.value))
    && (forall who :: who in s.awaits && s.awaits[who].phase.Returned? ==> Seen(s.fired, who, s.awaits[who].phase.value))
  }

  ghost predicate Inv<K(!new)>(s: State<K>)
  {
    MapOk(s) && FiredOk(s) && StoredOk(s) && LoadedOk(s)
  }

  /** One more firing adds just itself. */
  lemma FiredAppend(fired: seq<Firing>, f: Firing)
    ensures forall who, r :: Fired(fired + [f], who, r) <==> Fired(fired, who, r) || f == Firing(who, r)
    ensures forall who :: FiredWho(fired + [f], who) <==> FiredWho(fired, who) || f.who == who
  {
    var g := fired + [f];
    assert g[|fired|] == f;
    forall who, r ensures Fired(g, who, r) <==> Fired(fired, who, r) || f == Firing(who, r) {
      if i :| 0 <= i < |fired| && fired[i] == Firing(who, r) {
        assert g[i] == Firing(who, r);
      }
    }
    forall who ensures FiredWho(g, who) <==> FiredWho(fired, who) || f.who == who {
      if i :| 0 <= i < |fired| && fired[i].who == who {
        assert g[i].who == who;
      }
    }
  }

  lemma TakeKeeps<K(!new)>(s: State<K>, solve: nat, key: K, result: VerifyResult)
    requires Inv(s) && solve !in s.solves && key in s.callbacks
    ensures Inv(Next(s, Take(solve, key, result)))
  {
    FiredAppend(s.fired, Firing(s.callbacks[key], result));
  }

  lemma AwaitKeeps<K(!new)>(s: State<K>, ev: Event<K>)
    requires Inv(s) && (ev.Begin? || ev.Register? || ev.Load? || ev.Leave?)
    ensures Inv(Next(s, ev))
  {
  }

  /** Every step keeps the invariant. */
  lemma NextKeeps<K(!new)>(s: State<K>, ev: Event<K>)
    requires Inv(s)
    ensures Inv(Next(s, ev))
  {
    if ev.Begin? || ev.Register? || ev.Load? || ev.Leave? {
      AwaitKeeps(s, ev);
    } else if ev.Take? && ev.solve !in s.solves && ev.key in s.callbacks {
      TakeKeeps(s, ev.solve, ev.key, ev.result);
    }
  }

  lemma {:induction false} RunKeeps<K(!new)>(s: State<K>, evs: seq<Event<K>>)
    requires Inv(s)
    ensures Inv(After(s, evs))
    decreases |evs|
  {
    if evs != [] {
      NextKeeps(s, evs[0]);
      RunKeeps(Next(s, evs[0]), evs[1..]);
    }
  }

  /** In every interleaving each callback fires at most once. */
  lemma FiresAtMostOnce<K(!new)>(evs: seq<Event<K>>, i: nat, j: nat)
    requires i < j < |After<K>(Initial(), evs).fired|
    ensures After<K>(Initial(), evs).fired[i].who != After<K>(Initial(), evs).fired[j].who
  {
    RunKeeps<K>(Initial(), evs);
  }

  /** An Await returns None or the result with which some Solve fired its own callback. */
  lemma ReturnsWhatWasFired<K(!new)>(evs: seq<Event<K>>, who: nat)
    requires var t := After<K>(Initial(), evs); who in t.awaits && t.awaits[who].phase.Returned?
    ensures var t := After<K>(Initial(), evs);
      t.awaits[who].phase.value != ResultNone ==> Fired(t.fired, who, t.awaits[who].phase.value)
  {
    RunKeeps<K>(Initial(), evs);
  }

  /** An Await that was woken by its callback loads the result it was fired with. */
  lemma WokenSeesResult<K(!new)>(evs: seq<Event<K>>, who: nat)
    requires var t := After<K>(Initial(), evs); InPhase(t, who, Waiting) && who in t.woken
    ensures var t := After<K>(Initial(), evs);
      var u := Next(t, Load(who));
      u.awaits[who].phase.Loaded? && Fired(u.fired, who, u.awaits[who].phase.value)
  {
    RunKeeps<K>(Initial(), evs);
  }

  /** Once every Await that began has returned, nothing is left in the map. */
  lemma NothingIsLeftBehind<K(!new)>(evs: seq<Event<K>>)
    requires var t := After<K>(Initial(), evs); forall who :: who in t.awaits ==> t.awaits[who].phase.Returned?
    ensures After<K>(Initial(), evs).callbacks == map[]
  {
    RunKeeps<K>(Initial(), evs);
  }

  /** A Solve that found a callback is on its way, or has woken the Await with its result. */
  ghost predicate OnItsWay<K(!new)>(s: State<K>, solve: nat, who: nat, result: VerifyResult)
  {
    && solve in s.solves && Fired(s.fired, who, result)
    && (s.solves[solve] == Taken(who, result) || s.solves[solve] == Stored(who, result)
        || (s.solves[solve].Finished? && who in s.woken))
  }

  lemma OnItsWayStep<K(!new)>(s: State<K>, ev: Event<K>, solve: nat, who: nat, result: VerifyResult)
    requires OnItsWay(s, solve, who, result)
    ensures OnItsWay(Next(s, ev), solve, who, result)
  {
    if ev.Take? && ev.solve !in s.solves && ev.key in s.callbacks {
      FiredAppend(s.fired, Firing(s.callbacks[ev.key], ev.result));
    }
  }

  lemma {:induction false} OnItsWayRun<K(!new)>(s: State<K>, evs: seq<Event<K>>, solve: nat, who: nat, result: VerifyResult)
    requires OnItsWay(s, solve, who, result)
    ensures OnItsWay(After(s, evs), solve, who, result)
    decreases |evs|
  {
    if evs != [] {
      OnItsWayStep(s, evs[0], solve, who, result);
      OnItsWayRun(Next(s, evs[0]), evs[1..], solve, who, result);
    }
  }

  /**
    A Solve of a key that is awaited takes the callback there; once it has finished, whatever ran in
    between, the Await that still waits is done and loads just the result that was solved with.
   */
  lemma SolveIsDelivered<K(!new)>(before: seq<Event<K>>, key: K, solve: nat, result: VerifyResult, evs: seq<Event<K>>)
    requires var s := After<K>(Initial(), before); key in s.callbacks && solve !in s.solves
    ensures var s := After<K>(Initial(), before);
      var who, t := s.callbacks[key], After(Next(s, Take(solve, key, result)), evs);
      && key !in Next(s, Take(solve, key, result)).callbacks
      && (solve in t.solves && t.solves[solve].Finished? && InPhase(t, who, Waiting) ==>
            Next(t, Load(who)).awaits[who].phase == Loaded(result))
  {
    var s := After<K>(Initial(), before);
    var who, u := s.callbacks[key], Next(s, Take(solve, key, result));
    RunKeeps<K>(Initial(), before);
    FiredAppend(s.fired, Firing(who, result));
    assert OnItsWay(u, solve, who, result);
    NextKeeps(s, Take(solve, key, result));
    OnItsWayRun(u, evs, solve, who, result);
    RunKeeps(u, evs);
    var t := After(u, evs);
    if t.solves[solve].Finished? {
      assert who in t.stored && Fired(t.fired, who, t.stored[who]);
      OneFiring(t, who, t.stored[who], result);
    }
  }

  lemma OneFiring<K(!new)>(t: State<K>, who: nat, a: VerifyResult, b: VerifyResult)
    requires FiredOk(t) && Fired(t.fired, who, a) && Fired(t.fired, who, b)
    ensures a == b
  {
    var i :| 0 <= i < |t.fired| && t.fired[i] == Firing(who, a);
    var j :| 0 <= j < |t.fired| && t.fired[j] == Firing(who, b);
    assert t.fired[i].who == t.fired[j].who;
  }

  /** The two remaining steps of a Solve are due, one after the other. */
  lemma SolveFinishes<K(!new)>(s: State<K>, solve: nat)
    requires solve in s.solves
    ensures var t := Next(Next(s, Store(solve)), Cancel(solve)); solve in t.solves && t.solves[solve].Finished?
  {
  }

  /** An Await that begins and registers is the one that its key's callback is of. */
  lemma AwaitRegisters<K(!new)>(s: State<K>, who: nat, key: K)
    requires who !in s.awaits
    ensures var t := Next(Next(s, Begin(who, key)), Register(who));
      InPhase(t, who, Waiting) && key in t.callbacks && t.callbacks[key] == who
  {
  }

  /** An Await that is not solved returns None when its context ends, and its key is awaited no more. */
  lemma UnsolvedReturnsNone<K(!new)>(evs: seq<Event<K>>, who: nat)
    requires var s := After<K>(Initial(), evs); InPhase(s, who, Waiting) && !FiredWho(s.fired, who)
    ensures var s := After<K>(Initial(), evs);
      var t := Next(Next(Next(s, Timeout(who)), Load(who)), Leave(who));
      InPhase(t, who, Returned(ResultNone)) && s.awaits[who].key !in t.callbacks
  {
    var s := After<K>(Initial(), evs);
    RunKeeps<K>(Initial(), evs);
    assert forall r :: Fired(s.fired, who, r) ==> FiredWho(s.fired, who);
  }
}
