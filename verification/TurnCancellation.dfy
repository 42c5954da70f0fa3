/**
 Stopping a run.  A session has one local and one Redis cancellation slot, which later
 calls overwrite and pop.  The results say when a stop nevertheless holds until the turn
 is released, and that nothing is ever stopped that nobody named.
 */
module TurnCancellation {
  import opened TurnProtocol
  import opened TurnOwnership

  /** The worker of a live turn sees it as current and as not cancelled, whichever Redis reads get an answer. */
  predicate SeenRunning(cfg: Config, st: State, t: TurnId, up1: bool, up2: bool) {
    && t in st.turns && st.turns[t].worker < |st.workers| && st.turns[t].pc == Live
    && IsCurrent(cfg, st, t, up1) && !IsCancelled(cfg, st, t, up2)
  }

  /** A `cancel` of this very run was told 0 by Redis and has yet to pop the local marker. */
  predicate IsCleanUpOf(x: Turn, k: Cancel) {
    k.stage == CleaningUp && k.worker == x.worker && k.session == x.session && k.run == x.run
  }

  predicate CleanUpPending(st: State, t: TurnId)
    requires t in st.turns
  {
    exists c <- st.cancels :: IsCleanUpOf(st.turns[t], st.cancels[c])
  }

  predicate MarkedLocally(st: State, t: TurnId)
    requires t in st.turns && st.turns[t].worker < |st.workers|
  {
    Holds(st.LocalOf(t).cancelled, st.turns[t].session, st.turns[t].run)
  }

  predicate MarkedInRedis(cfg: Config, st: State, t: TurnId)
    requires t in st.turns
  {
    cfg.redisEnabled && Holds(st.redis.cancelled, st.turns[t].session, st.turns[t].run)
  }

  /**
   What may happen after a stop.  `reannounce`: a `supersede` may announce the turn's own run
   as the next one.  `lossy`: cancellation keys may expire, and reads of them may fail.
   */
  datatype Conditions = Conditions(reannounce: bool, lossy: bool)

  predicate Permits(env: Conditions, a: Action, x: Turn) {
    && (Reannounces(a, x) ==> env.reannounce)
    && (a.Expire? && a.key.CancelKey? ==> env.lossy)
  }

  predicate PermitsAll(env: Conditions, run: seq<Action>, x: Turn) {
    forall a <- run :: Permits(env, a, x)
  }

  /**
   What keeps a turn stopped.  A moved Redis generation does under all conditions, a Redis
   marker unless it may get lost, and a moved local slot, or a local marker that no pending
   clean-up threatens, unless the run may be announced again.
   */
  predicate StopHolds(cfg: Config, st: State, t: TurnId, env: Conditions)
    requires t in st.turns && st.turns[t].worker < |st.workers|
  {
    || (cfg.redisEnabled && LostRedis(st, t))
    || (!env.lossy && MarkedInRedis(cfg, st, t))
    || (!env.reannounce && (LostLocal(st, t) || (MarkedLocally(st, t) && !CleanUpPending(st, t))))
  }

  // ---------------------------------------------------------------------------
  // One action at a time.

  /** The actions that take a run's marker out of a local slot. */
  lemma MarkerTakers(cfg: Config, st: State, a: Action, w: nat, s: Session, r: RunId)
    requires Enabled(cfg, st, a) && w < |st.workers| && Holds(st.workers[w].cancelled, s, r)
    ensures var next := NextWorkers(cfg, st, a);
            w < |next| &&
            (|| Holds(next[w].cancelled, s, r)
             || ((a.CancelMark? || a.Supersede?) && a.worker == w && a.session == s && !Holds(st.workers[w].generations, s, r))
             || (a.CancelCleanUp? && st.cancels[a.c] == Cancel(w, s, r, CleaningUp))
             || ((a.Install? || a.BeginRelease?) && st.turns[a.t].worker == w && st.turns[a.t].session == s && st.turns[a.t].run == r))
  {}

  /** A local marker of a live turn goes away only with the turn's ownership or through a pending clean-up. */
  lemma LocalMarkerStep(cfg: Config, st: State, a: Action, t: TurnId)
    requires Sound(st) && t in st.turns && st.turns[t].pc == Live && Enabled(cfg, st, a)
    requires MarkedLocally(st, t) && !Reannounces(a, st.turns[t])
    ensures var end := Apply(cfg, st, a);
            t in end.turns && end.turns[t].worker < |end.workers| &&
            (end.turns[t].pc == Live ==> MarkedLocally(end, t) || Gone(cfg, end, t) || CleanUpPending(st, t))
  {
    var x, end := st.turns[t], Apply(cfg, st, a);
    SettledStep(cfg, st, a, t);
    LostStep(cfg, st, a, t);
    MarkerTakers(cfg, st, a, x.worker, x.session, x.run);
    if a.CancelCleanUp? {
      assert IsCleanUpOf(x, st.cancels[a.c]) ==> CleanUpPending(st, t);
    }
    assert (a.Install? || a.BeginRelease?) && a.t == t ==> end.turns[t].pc != Live;
    hide NextWorkers, NextTurn, NextRedis, NextCancels, CleanUpPending, Sound;
    DifferentRuns(st, a, t);
  }

  lemma DifferentRuns(st: State, a: Action, t: TurnId)
    requires Sound(st) && t in st.turns
    ensures (a.Install? || a.BeginRelease?) && a.t in st.turns && a.t != t && st.turns[a.t].session == st.turns[t].session
            ==> st.turns[a.t].run != st.turns[t].run
  {}

  predicate Installed(pc: Pc) {
    pc in {WantReserve, WantPublish, Live}
  }

  /** No slot holds an empty id. */
  ghost predicate SlotsNamed(st: State) {
    forall w, s | 0 <= w < |st.workers| && s in st.workers[w].generations :: st.workers[w].generations[s] != ""
  }

  /** Once a turn has taken over the slot of its session, that slot is never without a run. */
  ghost predicate SlotsTaken(st: State) {
    forall t <- st.turns | st.turns[t].worker < |st.workers| && Installed(st.turns[t].pc) ::
      st.turns[t].session in st.LocalOf(t).generations
  }

  /** Also, no generation key is empty, and without Redis no `cancel` call is ever left in progress. */
  ghost predicate Consistent(cfg: Config, st: State) {
    && Sound(st) && SlotsNamed(st) && SlotsTaken(st)
    && (forall s <- st.redis.generations :: st.redis.generations[s] != "")
    && (!cfg.redisEnabled ==> st.cancels == map[])
  }

  lemma KeysNamedStep(cfg: Config, st: State, a: Action)
    requires Sound(st) && Enabled(cfg, st, a)
    requires forall s <- st.redis.generations :: st.redis.generations[s] != ""
    ensures forall s <- NextRedis(cfg, st, a).generations :: NextRedis(cfg, st, a).generations[s] != ""
  {}

  lemma SlotsNamedStep(cfg: Config, st: State, a: Action, w: nat)
    requires Enabled(cfg, st, a) && w < |st.workers| && Sound(st)
    requires forall s <- st.workers[w].generations :: st.workers[w].generations[s] != ""
    ensures var next := NextWorkers(cfg, st, a);
            w < |next| && forall s <- next[w].generations :: next[w].generations[s] != ""
  {}

  lemma SlotsTakenStep(cfg: Config, st: State, a: Action, w: nat)
    requires Enabled(cfg, st, a) && w < |st.workers|
    ensures var next := NextWorkers(cfg, st, a);
            && w < |next| && st.workers[w].generations.Keys <= next[w].generations.Keys
            && (a.Install? && st.turns[a.t].worker == w ==> st.turns[a.t].session in next[w].generations)
  {}

  lemma InstalledStep(cfg: Config, st: State, a: Action, t: TurnId)
    requires Enabled(cfg, st, a) && t in Apply(cfg, st, a).turns && Installed(Apply(cfg, st, a).turns[t].pc)
    ensures t in st.turns && (Installed(st.turns[t].pc) || (a.Install? && a.t == t))
  {}

  lemma ConsistentStep(cfg: Config, st: State, a: Action)
    requires Consistent(cfg, st) && Enabled(cfg, st, a)
    ensures Consistent(cfg, Apply(cfg, st, a))
  {
    SoundStep(cfg, st, a);
    Identity(cfg, st, a);
    KeysNamedStep(cfg, st, a);
    var next := Apply(cfg, st, a);
    assert !cfg.redisEnabled ==> next.cancels == map[];
    hide NextWorkers, NextTurn, NextRedis, NextCancels, Enabled, Installed, Sound;
    forall w | 0 <= w < |next.workers|
      ensures forall s <- next.workers[w].generations :: next.workers[w].generations[s] != ""
    {
      SlotsNamedStep(cfg, st, a, w);
    }
    forall t <- next.turns | next.turns[t].worker < |next.workers| && Installed(next.turns[t].pc)
      ensures next.turns[t].session in next.LocalOf(t).generations
    {
      SlotsTakenStep(cfg, st, a, next.turns[t].worker);
      InstalledStep(cfg, st, a, t);
    }
  }

  lemma {:induction false} ConsistentAlways(cfg: Config, st: State, run: seq<Action>)
    requires Consistent(cfg, st) && Legal(cfg, st, run)
    ensures Consistent(cfg, After(cfg, st, run))
    decreases |run|
  {
    if run != [] {
      ConsistentStep(cfg, st, run[0]);
      ConsistentAlways(cfg, Apply(cfg, st, run[0]), run[1..]);
    }
  }

  /** Every state a run reaches from the start is consistent, so what follows holds of all of them. */
  lemma ReachableIsConsistent(cfg: Config, st: State, run: seq<Action>)
    requires Init(cfg, st) && Legal(cfg, st, run)
    ensures Consistent(cfg, After(cfg, st, run))
  {
    forall w | 0 <= w < |st.workers| ensures st.workers[w].generations == map[] {
      assert st.workers[w] in st.workers;
    }
    ConsistentAlways(cfg, st, run);
  }

  /** A clean-up of a live turn begins only when the turn has lost the Redis generation. */
  lemma CleanUpStep(cfg: Config, st: State, a: Action, t: TurnId)
    requires Consistent(cfg, st) && t in st.turns && st.turns[t].pc == Live && Enabled(cfg, st, a)
    requires !CleanUpPending(st, t)
    ensures var end := Apply(cfg, st, a);
            t in end.turns && (CleanUpPending(end, t) ==> cfg.redisEnabled && LostRedis(st, t))
  {
    SettledStep(cfg, st, a, t);
    var end := Apply(cfg, st, a);
    if CleanUpPending(end, t) {
      var c :| c in end.cancels && IsCleanUpOf(end.turns[t], end.cancels[c]);
      assert c in st.cancels && st.cancels[c] != end.cancels[c];
    }
  }

  lemma RedisMarkerStep(cfg: Config, st: State, a: Action, t: TurnId)
    requires Sound(st) && t in st.turns && st.turns[t].pc == Live && Enabled(cfg, st, a)
    requires MarkedInRedis(cfg, st, t) && !(a.Expire? && a.key.CancelKey?)
    ensures t in Apply(cfg, st, a).turns && (MarkedInRedis(cfg, Apply(cfg, st, a), t) || (cfg.redisEnabled && LostRedis(st, t)))
  {
    SettledStep(cfg, st, a, t);
  }

  /** A stop that holds under some conditions still holds after any action they permit, until the release. */
  lemma StopStep(cfg: Config, st: State, a: Action, t: TurnId, env: Conditions)
    requires Consistent(cfg, st) && t in st.turns && st.turns[t].pc == Live && Enabled(cfg, st, a)
    requires StopHolds(cfg, st, t, env) && Permits(env, a, st.turns[t])
    ensures var end := Apply(cfg, st, a);
            && Settled(end, t) && end.turns[t].worker < |end.workers|
            && (end.turns[t].pc == Live ==> StopHolds(cfg, end, t, env))
  {
    LostStep(cfg, st, a, t);
    if cfg.redisEnabled && LostRedis(st, t) {
    } else if !env.lossy && MarkedInRedis(cfg, st, t) {
      RedisMarkerStep(cfg, st, a, t);
    } else if !LostLocal(st, t) {
      LocalMarkerStep(cfg, st, a, t);
      CleanUpStep(cfg, st, a, t);
    }
    hide Consistent, CleanUpPending, MarkedLocally, MarkedInRedis, LostLocal, LostRedis, Enabled, Apply;
  }

  // ---------------------------------------------------------------------------
  // Whole runs.

  /** Until its release, a turn whose stop holds is never seen running. */
  lemma {:induction false} StopStays(cfg: Config, st: State, run: seq<Action>, t: TurnId, env: Conditions)
    requires Consistent(cfg, st) && Settled(st, t) && Legal(cfg, st, run) && PermitsAll(env, run, st.turns[t])
    requires st.turns[t].pc == Live ==> StopHolds(cfg, st, t, env)
    ensures var end := After(cfg, st, run);
            && Consistent(cfg, end) && Settled(end, t) && SameTurn(st.turns[t], end.turns[t])
            && (end.turns[t].pc == Live ==> st.turns[t].pc == Live && StopHolds(cfg, end, t, env))
    ensures forall up1: bool, up2: bool | env.lossy || up2 :: !SeenRunning(cfg, After(cfg, st, run), t, up1, up2)
    decreases |run|
  {
    if run != [] {
      var next := Apply(cfg, st, run[0]);
      ConsistentStep(cfg, st, run[0]);
      SettledStep(cfg, st, run[0], t);
      if st.turns[t].pc == Live {
        assert run[0] in run;
        StopStep(cfg, st, run[0], t, env);
      }
      assert forall a <- run[1..] :: a in run;
      hide Consistent, Enabled, Apply, StopHolds, SeenRunning;
      StopStays(cfg, next, run[1..], t, env);
    }
  }

  /** In no continuation that the conditions permit does the turn's worker see it running. */
  ghost predicate NeverSeenRunning(cfg: Config, st: State, t: TurnId, env: Conditions)
    requires t in st.turns
  {
    forall run: seq<Action>, up1: bool, up2: bool |
      Legal(cfg, st, run) && PermitsAll(env, run, st.turns[t]) && (env.lossy || up2) ::
      !SeenRunning(cfg, After(cfg, st, run), t, up1, up2)
  }

  /** A continuation refutes that a stop holds. */
  lemma Refutes(cfg: Config, st: State, t: TurnId, env: Conditions, run: seq<Action>, up2: bool)
    requires Legal(cfg, st, run) && t in st.turns && PermitsAll(env, run, st.turns[t]) && (env.lossy || up2)
    requires SeenRunning(cfg, After(cfg, st, run), t, true, up2)
    ensures !NeverSeenRunning(cfg, st, t, env)
  {}

  /** A run id other than `r`. */
  function Another(r: RunId): (other: RunId)
    ensures other != r && other != ""
  {
    r + "x"
  }

  /** Any stop that rests on the local slots alone is undone by announcing the turn's run again. */
  lemma Revival(cfg: Config, st: State, t: TurnId, up2: bool) returns (run: seq<Action>)
    requires Consistent(cfg, st) && t in st.turns && st.turns[t].pc == Live
    requires !(cfg.redisEnabled && LostRedis(st, t)) && (up2 ==> !MarkedInRedis(cfg, st, t))
    ensures Legal(cfg, st, run) && forall a <- run :: a.Supersede?
    ensures SeenRunning(cfg, After(cfg, st, run), t, true, up2)
  {
    var x := st.turns[t];
    var again := Supersede(x.worker, x.session, x.run);
    if LostLocal(st, t) {
      run := [again];
      OneStep(cfg, st, again);
    } else {
      var other := Supersede(x.worker, x.session, Another(x.run));
      OneStep(cfg, st, other);
      Step(cfg, st, [other], Apply(cfg, st, other), again);
      run := [other] + [again];
    }
  }

  /** A clean-up that is pending pops the local marker. */
  lemma Popped(cfg: Config, st: State, t: TurnId, up2: bool) returns (run: seq<Action>)
    requires Consistent(cfg, st) && t in st.turns && st.turns[t].pc == Live
    requires !Gone(cfg, st, t) && (up2 ==> !MarkedInRedis(cfg, st, t)) && (MarkedLocally(st, t) ==> CleanUpPending(st, t))
    ensures Legal(cfg, st, run) && forall a <- run :: a.CancelCleanUp?
    ensures SeenRunning(cfg, After(cfg, st, run), t, true, up2)
  {
    run := [];
    if MarkedLocally(st, t) {
      var c :| c in st.cancels && IsCleanUpOf(st.turns[t], st.cancels[c]);
      run := [CancelCleanUp(c)];
      OneStep(cfg, st, run[0]);
    }
  }

  /**
   Exactly when a live turn stays stopped, under each of the four conditions: no permitted
   continuation ever shows it running if and only if the stop holds.
   */
  lemma StopHoldsIff(cfg: Config, st: State, t: TurnId, env: Conditions)
    requires Consistent(cfg, st) && t in st.turns && st.turns[t].pc == Live
    ensures NeverSeenRunning(cfg, st, t, env) <==> StopHolds(cfg, st, t, env)
  {
    if StopHolds(cfg, st, t, env) {
      forall run: seq<Action>, up1: bool, up2: bool |
        Legal(cfg, st, run) && PermitsAll(env, run, st.turns[t]) && (env.lossy || up2)
        ensures !SeenRunning(cfg, After(cfg, st, run), t, up1, up2)
      {
        StopStays(cfg, st, run, t, env);
      }
    } else {
      var run;
      if env.reannounce {
        run := Revival(cfg, st, t, !env.lossy);
      } else {
        run := Popped(cfg, st, t, !env.lossy);
      }
      Refutes(cfg, st, t, env, run, !env.lossy);
    }
  }

  /**
   Stop is sticky, on the lease's own worker: a `cancel` whose local check passes for an
   issued lease, while no earlier `cancel` of the same run has yet to clean up, keeps the
   turn from ever being seen running again until its release -- whatever `cancel` then gets
   from Redis, whatever expires or fails, and although later calls may overwrite or pop the
   slot -- unless a `supersede` announces the run again.
   */
  lemma CancelIsSticky(cfg: Config, st: State, a: Action, t: TurnId)
    requires Consistent(cfg, st) && t in st.turns && st.turns[t].pc == Live
    requires a.CancelMark? && Enabled(cfg, st, a) && !CleanUpPending(st, t)
    requires a.worker == st.turns[t].worker && a.session == st.turns[t].session && a.run == st.turns[t].run
    ensures NeverSeenRunning(cfg, Apply(cfg, st, a), t, Conditions(false, true))
  {
    CancelSticksIff(cfg, st, a, t, Conditions(false, true));
  }

  /**
   Exactly when the local marker of a `cancel` on the turn's own worker stops it, read off
   before the call: if Redis has moved on, or Redis holds the marker and it cannot get lost,
   or the run is not announced again and no earlier `cancel` of it has a clean-up pending (or
   it is not the owner anyway).
   */
  lemma CancelSticksIff(cfg: Config, st: State, a: Action, t: TurnId, env: Conditions)
    requires Consistent(cfg, st) && t in st.turns && st.turns[t].pc == Live
    requires a.CancelMark? && Enabled(cfg, st, a)
    requires a.worker == st.turns[t].worker && a.session == st.turns[t].session && a.run == st.turns[t].run
    ensures NeverSeenRunning(cfg, Apply(cfg, st, a), t, env) <==>
              || (cfg.redisEnabled && LostRedis(st, t))
              || (!env.lossy && MarkedInRedis(cfg, st, t))
              || (!env.reannounce && (LostLocal(st, t) || !CleanUpPending(st, t)))
  {
    var next := Apply(cfg, st, a);
    ConsistentStep(cfg, st, a);
    SettledStep(cfg, st, a, t);
    StopHoldsIff(cfg, next, t, env);
    assert CleanUpPending(next, t) == CleanUpPending(st, t) by {
      if CleanUpPending(st, t) {
        var c :| c in st.cancels && IsCleanUpOf(st.turns[t], st.cancels[c]);
        assert c in next.cancels && next.cancels[c] == st.cancels[c];
      } else {
        forall c <- next.cancels ensures !IsCleanUpOf(next.turns[t], next.cancels[c]) {
          assert c in st.cancels ==> next.cancels[c] == st.cancels[c];
        }
      }
    }
    hide NeverSeenRunning, CleanUpPending;
  }

  /** A `cancel` that took effect in Redis, from any worker, is sticky while the key lives and is read, even if the run is announced again. */
  lemma ConfirmedCancelIsSticky(cfg: Config, st: State, a: Action, t: TurnId)
    requires Consistent(cfg, st) && t in st.turns && st.turns[t].pc == Live && cfg.redisEnabled
    requires a.CancelAsk? && Enabled(cfg, st, a) && a.fate != FailedBefore
    requires st.cancels[a.c].session == st.turns[t].session && st.cancels[a.c].run == st.turns[t].run
    ensures NeverSeenRunning(cfg, Apply(cfg, st, a), t, Conditions(true, false))
  {
    var next := Apply(cfg, st, a);
    ConsistentStep(cfg, st, a);
    LostStep(cfg, st, a, t);
    assert LostRedis(next, t) || MarkedInRedis(cfg, next, t);
    StopHoldsIff(cfg, next, t, Conditions(true, false));
  }

  /**
   Exactly when a `supersede` on the turn's worker that announces another run stops the turn:
   always, if its own run is not announced again; otherwise only through Redis.
   */
  lemma SupersedeSticksIff(cfg: Config, st: State, a: Action, t: TurnId, env: Conditions)
    requires Consistent(cfg, st) && t in st.turns && st.turns[t].pc == Live
    requires a.Supersede? && Enabled(cfg, st, a)
    requires a.worker == st.turns[t].worker && a.session == st.turns[t].session && a.next != st.turns[t].run
    ensures NeverSeenRunning(cfg, Apply(cfg, st, a), t, env) <==>
              !env.reannounce || (cfg.redisEnabled && LostRedis(st, t)) || (!env.lossy && MarkedInRedis(cfg, st, t))
  {
    var next := Apply(cfg, st, a);
    ConsistentStep(cfg, st, a);
    SettledStep(cfg, st, a, t);
    assert LostLocal(next, t) && next.redis == st.redis;
    StopHoldsIff(cfg, next, t, env);
    hide NeverSeenRunning, Consistent;
  }

  // ---------------------------------------------------------------------------
  // Reads in different states.

  /**
   Reading the markers first and the ownership later is safe, with each of the four reads in
   a state of its own: of a turn whose stop holds at the first read and that is live at the
   last, it is never found that the local marker is missing, then that the Redis marker is
   missing or not to be read, then that the local slot is its own, and then that an answering
   Redis holds its generation.
   */
  lemma MarkersThenOwnership(cfg: Config, st1: State, run1: seq<Action>, st2: State, run2: seq<Action>, st3: State,
                             run3: seq<Action>, st4: State, t: TurnId, env: Conditions, up2: bool)
    requires Consistent(cfg, st1) && t in st1.turns && st1.turns[t].pc == Live && StopHolds(cfg, st1, t, env)
    requires Reaches(cfg, st1, run1, st2) && Reaches(cfg, st2, run2, st3) && Reaches(cfg, st3, run3, st4)
    requires var x := st1.turns[t]; PermitsAll(env, run1, x) && PermitsAll(env, run2, x) && PermitsAll(env, run3, x)
    requires env.lossy || up2
    ensures t in st2.turns && t in st3.turns && t in st4.turns && st3.turns[t].worker < |st3.workers|
    ensures st4.turns[t].pc == Live ==>
              || MarkedLocally(st1, t)
              || (up2 && MarkedInRedis(cfg, st2, t))
              || LostLocal(st3, t)
              || (cfg.redisEnabled && LostRedis(st4, t))
  {
    StopStays(cfg, st1, run1, t, env);
    StopStays(cfg, st2, run2, t, env);
    StopStays(cfg, st3, run3, t, env);
    assert !env.reannounce ==> NeverReannounced(run1, st1.turns[t]) && NeverReannounced(run2, st1.turns[t]);
    OwnershipNeverReturns(cfg, st1, run1, t);
    OwnershipNeverReturns(cfg, st2, run2, t);
    OwnershipNeverReturns(cfg, st3, run3, t);
    if !env.lossy && MarkedInRedis(cfg, st1, t) {
      assert PermitsAll(Conditions(true, false), run1, st1.turns[t]);
      StopStays(cfg, st1, run1, t, Conditions(true, false));
    }
    hide Consistent, Legal, After, NeverReannounced, PermitsAll, CleanUpPending, MarkedLocally, MarkedInRedis, LostLocal, LostRedis;
  }

  /** Redis holds the generation of another run of the turn's session. */
  predicate Overtaken(st: State, t: TurnId)
    requires t in st.turns
  {
    st.turns[t].session in st.redis.generations && LostRedis(st, t)
  }

  /** An effective SET of another turn of the session. */
  predicate OtherSet(cfg: Config, st: State, a: Action, t: TurnId)
    requires t in st.turns && Enabled(cfg, st, a)
  {
    a.Publish? && a.fate != FailedBefore && a.t != t && st.turns[a.t].session == st.turns[t].session
  }

  /** A turn is overtaken only by such a SET. */
  lemma OvertakenStep(cfg: Config, st: State, a: Action, t: TurnId)
    requires Sound(st) && Settled(st, t) && Enabled(cfg, st, a) && !Overtaken(st, t)
    ensures t in Apply(cfg, st, a).turns && (Overtaken(Apply(cfg, st, a), t) ==> OtherSet(cfg, st, a, t))
  {
    SettledStep(cfg, st, a, t);
  }

  /** A Redis marker survives every action but an expiry while the turn is not overtaken. */
  lemma MarkerSurvivesStep(cfg: Config, st: State, a: Action, t: TurnId)
    requires Sound(st) && Settled(st, t) && Enabled(cfg, st, a) && !(a.Expire? && a.key.CancelKey?)
    requires MarkedInRedis(cfg, st, t) && !Overtaken(st, t)
    ensures t in Apply(cfg, st, a).turns && MarkedInRedis(cfg, Apply(cfg, st, a), t)
  {
    SettledStep(cfg, st, a, t);
  }

  /** The run leads to a state in which the turn is live and overtaken. */
  ghost predicate Overtakes(cfg: Config, st: State, run: seq<Action>, t: TurnId, env: Conditions)
    requires t in st.turns
  {
    && Legal(cfg, st, run) && PermitsAll(env, run, st.turns[t])
    && var end := After(cfg, st, run); t in end.turns && end.turns[t].pc == Live && Overtaken(end, t)
  }

  /** The run leads to a state in which the turn is live and read as not cancelled. */
  ghost predicate Misses(cfg: Config, st: State, run: seq<Action>, t: TurnId, env: Conditions, up: bool)
    requires t in st.turns
  {
    && Legal(cfg, st, run) && PermitsAll(env, run, st.turns[t]) && (env.lossy || up)
    && var end := After(cfg, st, run);
       t in end.turns && end.turns[t].pc == Live && end.turns[t].worker < |end.workers| && !IsCancelled(cfg, end, t, up)
  }

  /** A live turn with a Redis marker that is kept is read as cancelled, unless it has been overtaken on the way. */
  lemma {:induction false} MissedOnlyIfOvertaken(cfg: Config, st: State, run: seq<Action>, t: TurnId, env: Conditions)
    returns (first: seq<Action>)
    requires Consistent(cfg, st) && Settled(st, t) && MarkedInRedis(cfg, st, t)
    requires !env.lossy && Misses(cfg, st, run, t, env, true)
    ensures Overtakes(cfg, st, first, t, env)
    decreases |run|
  {
    first := [];
    LiveBefore(cfg, st, run, t);
    if !Overtaken(st, t) {
      assert run != [];
      var a, next := run[0], Apply(cfg, st, run[0]);
      assert Permits(env, a, st.turns[t]) && forall b <- run[1..] :: b in run;
      ConsistentStep(cfg, st, a);
      SettledStep(cfg, st, a, t);
      MarkerSurvivesStep(cfg, st, a, t);
      hide Consistent, Enabled, Apply, Overtaken, MarkedInRedis, IsCancelled;
      var rest := MissedOnlyIfOvertaken(cfg, next, run[1..], t, env);
      first := [a] + rest;
      assert first[1..] == rest;
    }
  }

  /** A turn that is live at the end of a run was live before, if it was settled. */
  lemma {:induction false} LiveBefore(cfg: Config, st: State, run: seq<Action>, t: TurnId)
    requires Settled(st, t) && Legal(cfg, st, run)
    ensures t in After(cfg, st, run).turns && SameTurn(st.turns[t], After(cfg, st, run).turns[t])
    ensures After(cfg, st, run).turns[t].pc == Live ==> st.turns[t].pc == Live
    decreases |run|
  {
    if run != [] {
      SettledStep(cfg, st, run[0], t);
      hide Enabled, Apply;
      LiveBefore(cfg, Apply(cfg, st, run[0]), run[1..], t);
    }
  }

  /** From an overtaken turn on, stopping the run that overtook it takes both markers away from it. */
  lemma MarkersTaken(cfg: Config, st: State, t: TurnId, c: CancelId) returns (run: seq<Action>)
    requires Consistent(cfg, st) && cfg.redisEnabled && t in st.turns && st.turns[t].pc == Live && Overtaken(st, t) && c !in st.cancels
    ensures Misses(cfg, st, run, t, Conditions(false, false), true)
  {
    var x := st.turns[t];
    var other := st.redis.generations[x.session];
    var replace, mark, ask := Supersede(x.worker, x.session, other), CancelMark(c, x.worker, x.session, other), CancelAsk(c, Answered);
    OneStep(cfg, st, replace);
    var st1 := Apply(cfg, st, replace);
    assert Holds(st1.workers[x.worker].generations, x.session, other);
    Step(cfg, st, [replace], st1, mark);
    var st2 := Apply(cfg, st1, mark);
    Step(cfg, st, [replace] + [mark], st2, ask);
    run := [replace] + [mark] + [ask];
    assert Holds(st2.workers[x.worker].cancelled, x.session, other) && st2.redis == st.redis;
  }

  /** Without a Redis marker, announcing and stopping the next run of the session does the same. */
  lemma LocalMarkerTaken(cfg: Config, st: State, t: TurnId, c: CancelId, up: bool) returns (run: seq<Action>)
    requires Consistent(cfg, st) && t in st.turns && st.turns[t].pc == Live && c !in st.cancels
    requires up ==> !MarkedInRedis(cfg, st, t)
    ensures Misses(cfg, st, run, t, Conditions(false, !up), up)
  {
    var x, other := st.turns[t], Another(st.turns[t].run);
    var replace, mark := Supersede(x.worker, x.session, other), CancelMark(c, x.worker, x.session, other);
    OneStep(cfg, st, replace);
    Step(cfg, st, [replace], Apply(cfg, st, replace), mark);
    run := [replace] + [mark];
  }

  lemma FreshCancel(cancels: map<CancelId, Cancel>) returns (c: CancelId)
    ensures c !in cancels
  {
    c := FreshNumber(cancels.Keys);
  }

  lemma {:induction false} FreshNumber(s: set<nat>) returns (c: nat)
    ensures forall x <- s :: x < c
    decreases |s|
  {
    if s == {} {
      c := 0;
    } else {
      var x :| x in s;
      var rest := s - {x};
      c := FreshNumber(rest);
      assert forall y <- s :: y == x || y in rest;
      c := if c > x then c else x + 1;
    }
  }

  lemma WiderMisses(cfg: Config, st: State, run: seq<Action>, t: TurnId, narrow: Conditions, env: Conditions, up: bool)
    requires t in st.turns && Misses(cfg, st, run, t, narrow, up)
    requires (narrow.reannounce ==> env.reannounce) && (narrow.lossy ==> env.lossy)
    ensures Misses(cfg, st, run, t, env, up)
  {}

  /**
   Reading the ownership first and the marker later, exactly: a later read can find a live
   turn not cancelled if and only if cancellation keys may get lost, or Redis holds no marker
   of the turn, or another run of its session can overtake it while it is live.
   */
  lemma OwnershipThenMarkerIff(cfg: Config, st: State, t: TurnId, env: Conditions)
    requires Consistent(cfg, st) && t in st.turns && st.turns[t].pc == Live
    ensures (exists run, up :: Misses(cfg, st, run, t, env, up))
            <==> env.lossy || !MarkedInRedis(cfg, st, t) || exists run :: Overtakes(cfg, st, run, t, env)
  {
    assert MarkedInRedis(cfg, st, t) ==> cfg.redisEnabled;
    hide Misses, Overtakes, Consistent, MarkedInRedis;
    if env.lossy || !MarkedInRedis(cfg, st, t) {
      var c := FreshCancel(st.cancels);
      var run := LocalMarkerTaken(cfg, st, t, c, !env.lossy);
      WiderMisses(cfg, st, run, t, Conditions(false, env.lossy), env, !env.lossy);
    } else if run :| Overtakes(cfg, st, run, t, env) {
      MissedOnceOvertaken(cfg, st, run, t, env);
    } else if run, up :| Misses(cfg, st, run, t, env, up) {
      MissedUp(cfg, st, run, t, env, up);
      var first := MissedOnlyIfOvertaken(cfg, st, run, t, env);
    }
  }

  lemma MissedUp(cfg: Config, st: State, run: seq<Action>, t: TurnId, env: Conditions, up: bool)
    requires t in st.turns && Misses(cfg, st, run, t, env, up) && !env.lossy
    ensures up
  {}

  lemma MissedOnceOvertaken(cfg: Config, st: State, run: seq<Action>, t: TurnId, env: Conditions)
    requires Consistent(cfg, st) && t in st.turns && st.turns[t].pc == Live && cfg.redisEnabled
    requires Overtakes(cfg, st, run, t, env)
    ensures exists more, up :: Misses(cfg, st, more, t, env, up)
  {
    ConsistentAlways(cfg, st, run);
    LiveBefore(cfg, st, run, t);
    var end := After(cfg, st, run);
    var c := FreshCancel(end.cancels);
    var tail := MarkersTaken(cfg, end, t, c);
    Append(cfg, st, run, tail);
    assert Misses(cfg, st, run + tail, t, env, true) by {
      hide IsCancelled, Consistent;
      assert forall a <- run + tail :: a in run || a in tail;
    }
  }

  /** Two runs one after the other. */
  lemma {:induction false} Append(cfg: Config, st: State, run: seq<Action>, more: seq<Action>)
    requires Legal(cfg, st, run) && Legal(cfg, After(cfg, st, run), more)
    ensures Legal(cfg, st, run + more) && After(cfg, st, run + more) == After(cfg, After(cfg, st, run), more)
    decreases |run|
  {
    if run == [] {
      assert run + more == more;
    } else {
      Append(cfg, Apply(cfg, st, run[0]), run[1..], more);
      assert (run + more)[1..] == run[1..] + more;
    }
  }

  /** No effective SET of another turn of the session occurs in the run. */
  ghost predicate NoOtherSet(cfg: Config, st: State, run: seq<Action>, t: TurnId)
    requires Legal(cfg, st, run)
    decreases |run|
  {
    run == [] || (t in st.turns && !OtherSet(cfg, st, run[0], t) && NoOtherSet(cfg, Apply(cfg, st, run[0]), run[1..], t))
  }

  /** While no other run's SET takes effect, a kept Redis marker of a turn that is not overtaken stays, and so does what is read. */
  lemma {:induction false} MarkerReadWithoutOtherSet(cfg: Config, st: State, run: seq<Action>, t: TurnId, env: Conditions)
    requires Consistent(cfg, st) && Settled(st, t) && MarkedInRedis(cfg, st, t) && !Overtaken(st, t) && !env.lossy
    requires Legal(cfg, st, run) && PermitsAll(env, run, st.turns[t]) && NoOtherSet(cfg, st, run, t)
    ensures var end := After(cfg, st, run);
            t in end.turns && end.turns[t].worker < |end.workers| && IsCancelled(cfg, end, t, true)
    decreases |run|
  {
    if run != [] {
      var a := run[0];
      assert Permits(env, a, st.turns[t]) && forall b <- run[1..] :: b in run;
      ConsistentStep(cfg, st, a);
      SettledStep(cfg, st, a, t);
      MarkerSurvivesStep(cfg, st, a, t);
      OvertakenStep(cfg, st, a, t);
      hide Consistent, Enabled, Apply, Overtaken, MarkedInRedis, IsCancelled, OtherSet;
      MarkerReadWithoutOtherSet(cfg, Apply(cfg, st, a), run[1..], t, env);
    }
  }

  // ---------------------------------------------------------------------------
  // Nothing is stopped that nobody named.

  /** The run a stopping action names: the run of a `cancel` whose local check passes, or the run a `supersede` replaces. */
  function Named(cfg: Config, st: State, a: Action): set<(Session, RunId)>
    requires Enabled(cfg, st, a)
  {
    match a
    case CancelMark(_, w, s, r) => if Holds(st.workers[w].generations, s, r) then {(s, r)} else {}
    case Supersede(w, s, next) => if st.workers[w].Supersedes(s, next) then {(s, st.workers[w].generations[s])} else {}
    case _ => {}
  }

  function AllNamed(cfg: Config, st: State, run: seq<Action>): set<(Session, RunId)>
    requires Legal(cfg, st, run)
    decreases |run|
  {
    if run == [] then {} else Named(cfg, st, run[0]) + AllNamed(cfg, Apply(cfg, st, run[0]), run[1..])
  }

  /** Some slot, key or call in progress carries a stop of this run. */
  predicate Blamed(st: State, s: Session, r: RunId) {
    || (exists w | 0 <= w < |st.workers| :: Holds(st.workers[w].cancelled, s, r))
    || Holds(st.redis.cancelled, s, r)
    || (exists c <- st.cancels :: st.cancels[c].session == s && st.cancels[c].run == r)
  }

  /** A local marker comes only from a naming action. */
  lemma LocalBlame(cfg: Config, st: State, a: Action, w: nat, s: Session, r: RunId)
    requires Enabled(cfg, st, a) && w < |st.workers| && Holds(NextWorkers(cfg, st, a)[w].cancelled, s, r)
    ensures Holds(st.workers[w].cancelled, s, r) || (s, r) in Named(cfg, st, a)
  {}

  /** A Redis marker comes only from a call in progress, and such a call only from a naming action. */
  lemma RedisBlame(cfg: Config, st: State, a: Action, s: Session, r: RunId)
    requires Enabled(cfg, st, a) && Blamed(Apply(cfg, st, a), s, r)
    requires forall w | 0 <= w < |st.workers| :: !Holds(NextWorkers(cfg, st, a)[w].cancelled, s, r)
    ensures Blamed(st, s, r) || (s, r) in Named(cfg, st, a)
  {
    var end := Apply(cfg, st, a);
    if c :| c in end.cancels && end.cancels[c].session == s && end.cancels[c].run == r {
      assert c in st.cancels ==> st.cancels[c].session == s && st.cancels[c].run == r;
    }
  }

  lemma BlamedStep(cfg: Config, st: State, a: Action, s: Session, r: RunId)
    requires Enabled(cfg, st, a) && Blamed(Apply(cfg, st, a), s, r)
    ensures Blamed(st, s, r) || (s, r) in Named(cfg, st, a)
  {
    Identity(cfg, st, a);
    if w :| 0 <= w < |st.workers| && Holds(NextWorkers(cfg, st, a)[w].cancelled, s, r) {
      LocalBlame(cfg, st, a, w, s, r);
    } else {
      RedisBlame(cfg, st, a, s, r);
    }
  }

  lemma {:induction false} BlamedOnlyIfNamed(cfg: Config, st: State, run: seq<Action>, s: Session, r: RunId)
    requires Legal(cfg, st, run) && Blamed(After(cfg, st, run), s, r)
    ensures Blamed(st, s, r) || (s, r) in AllNamed(cfg, st, run)
    decreases |run|
  {
    if run != [] {
      var next := Apply(cfg, st, run[0]);
      BlamedOnlyIfNamed(cfg, next, run[1..], s, r);
      if Blamed(next, s, r) {
        BlamedStep(cfg, st, run[0], s, r);
      }
    }
  }

  /** No stray cancellation: after any run, a turn is told it is cancelled only if some action of the run named exactly it. */
  lemma NoStrayCancellation(cfg: Config, st: State, run: seq<Action>, t: TurnId, up: bool)
    requires Init(cfg, st) && Legal(cfg, st, run)
    requires var end := After(cfg, st, run);
             t in end.turns && end.turns[t].worker < |end.workers| && IsCancelled(cfg, end, t, up)
    ensures var x := After(cfg, st, run).turns[t];
            (x.session, x.run) in AllNamed(cfg, st, run)
  {
    var end := After(cfg, st, run);
    BlamedOnlyIfNamed(cfg, st, run, end.turns[t].session, end.turns[t].run);
    assert forall l <- st.workers :: l.cancelled == map[];
  }

  /** Releasing a turn leaves what every other turn is told about cancellation as it was. */
  lemma ReleaseClearsOnlyItself(cfg: Config, st: State, a: Action, t: TurnId, up: bool)
    requires Sound(st) && Enabled(cfg, st, a) && t in st.turns && OfOtherRelease(a, t)
    ensures t in Apply(cfg, st, a).turns && st.turns[t].worker < |st.workers|
    ensures Apply(cfg, st, a).turns[t] == st.turns[t] && |Apply(cfg, st, a).workers| == |st.workers|
    ensures IsCancelled(cfg, Apply(cfg, st, a), t, up) == IsCancelled(cfg, st, t, up)
  {}

  /** A section of the release of another turn. */
  predicate OfOtherRelease(a: Action, t: TurnId) {
    (a.BeginRelease? || a.GiveUser? || a.GiveGlobal? || a.GiveReservation?) && a.t != t
  }

  /** However many other turns are released, and however their sections interleave or fail, a turn is told the same. */
  lemma {:induction false} ReleasesClearOnlyThemselves(cfg: Config, st: State, run: seq<Action>, t: TurnId, up: bool)
    requires Sound(st) && Legal(cfg, st, run) && t in st.turns && forall a <- run :: OfOtherRelease(a, t)
    ensures var end := After(cfg, st, run);
            && t in end.turns && end.turns[t] == st.turns[t]
            && st.turns[t].worker < |st.workers| && st.turns[t].worker < |end.workers|
            && IsCancelled(cfg, end, t, up) == IsCancelled(cfg, st, t, up)
    decreases |run|
  {
    if run != [] {
      assert run[0] in run && forall a <- run[1..] :: a in run;
      ReleaseClearsOnlyItself(cfg, st, run[0], t, up);
      SoundStep(cfg, st, run[0]);
      hide IsCancelled, Enabled, Apply, Sound;
      ReleasesClearOnlyThemselves(cfg, Apply(cfg, st, run[0]), run[1..], t, up);
    }
  }
}
