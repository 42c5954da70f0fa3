/**
 Ownership of a session: at most one issued lease of a session is current, and exactly when
 a lease that stopped being current becomes current again.
 */
module TurnOwnership {
  import opened TurnProtocol

  /** Turns sit on existing workers and have an id, and no two turns of a session share one. */
  ghost predicate Sound(st: State) {
    && (forall t <- st.turns :: st.turns[t].worker < |st.workers| && st.turns[t].run != "")
    && (forall t1 <- st.turns, t2 <- st.turns ::
          t1 != t2 && st.turns[t1].session == st.turns[t2].session ==> st.turns[t1].run != st.turns[t2].run)
  }

  lemma SoundStep(cfg: Config, st: State, a: Action)
    requires Sound(st) && Enabled(cfg, st, a)
    ensures Sound(Apply(cfg, st, a))
  {
    Identity(cfg, st, a);
    if a.Begin? {
      assert st.FreshRun(a.session, a.run);
    }
    hide Apply;
  }

  lemma {:induction false} SoundAlways(cfg: Config, st: State, run: seq<Action>)
    requires Sound(st) && Legal(cfg, st, run)
    ensures Sound(After(cfg, st, run))
    decreases |run|
  {
    if run != [] {
      SoundStep(cfg, st, run[0]);
      SoundAlways(cfg, Apply(cfg, st, run[0]), run[1..]);
    }
  }

  /** The lease of this turn has been issued at some time, or its `acquire` has failed. */
  predicate Settled(st: State, t: TurnId) {
    t in st.turns && st.turns[t].pc in {Live, ReturnUser, ReturnGlobal, ReturnReservation, Closed}
  }

  predicate LostLocal(st: State, t: TurnId)
    requires t in st.turns && st.turns[t].worker < |st.workers|
  {
    !Holds(st.LocalOf(t).generations, st.turns[t].session, st.turns[t].run)
  }

  predicate LostRedis(st: State, t: TurnId)
    requires t in st.turns
  {
    !Holds(st.redis.generations, st.turns[t].session, st.turns[t].run)
  }

  /** Settled turns keep their identity and stay settled. */
  lemma SettledStep(cfg: Config, st: State, a: Action, t: TurnId)
    requires Settled(st, t) && Enabled(cfg, st, a)
    ensures var end := Apply(cfg, st, a);
            && Settled(end, t)
            && end.turns[t] == st.turns[t].(pc := end.turns[t].pc, reserved := end.turns[t].reserved)
            && (end.turns[t].pc == Live ==> st.turns[t].pc == Live)
            && |end.workers| == |st.workers|
  {
    Identity(cfg, st, a);
    hide NextWorkers, NextRedis, NextCancels;
  }

  /** The only writers of a local generation slot are `Install` and `Supersede`. */
  lemma LocalGenerations(cfg: Config, st: State, a: Action, w: nat, s: Session, r: RunId)
    requires Enabled(cfg, st, a) && w < |st.workers|
    requires Holds(Apply(cfg, st, a).workers[w].generations, s, r)
    ensures || Holds(st.workers[w].generations, s, r)
            || (a.Install? && st.turns[a.t].worker == w && st.turns[a.t].session == s && st.turns[a.t].run == r)
            || (a.Supersede? && a.worker == w && a.session == s && a.next == r)
  {}

  /** The only writer of a Redis generation key is `Publish`. */
  lemma RedisGenerations(cfg: Config, st: State, a: Action, s: Session, r: RunId)
    requires Enabled(cfg, st, a)
    requires Holds(Apply(cfg, st, a).redis.generations, s, r)
    ensures || Holds(st.redis.generations, s, r)
            || (a.Publish? && st.turns[a.t].session == s && st.turns[a.t].run == r)
  {}

  /** A `supersede` on the turn's worker that announces the turn's own run as the next one. */
  predicate Reannounces(a: Action, x: Turn) {
    a.Supersede? && a.worker == x.worker && a.session == x.session && a.next == x.run
  }

  predicate NeverReannounced(run: seq<Action>, x: Turn) {
    forall a <- run :: !Reannounces(a, x)
  }

  /** Such a `supersede` that finds another run to replace. */
  predicate Revives(st: State, a: Action, t: TurnId)
    requires t in st.turns
  {
    Reannounces(a, st.turns[t]) && a.worker < |st.workers| && st.workers[a.worker].Supersedes(a.session, a.next)
  }

  /** What a settled turn has lost stays lost: in Redis always, locally unless its run is announced again. */
  lemma LostStep(cfg: Config, st: State, a: Action, t: TurnId)
    requires Sound(st) && Settled(st, t) && Enabled(cfg, st, a)
    ensures var end := Apply(cfg, st, a);
            && Settled(end, t) && end.turns[t].worker < |end.workers|
            && (LostLocal(st, t) && !Revives(st, a, t) ==> LostLocal(end, t))
            && (LostRedis(st, t) ==> LostRedis(end, t))
  {
    SettledStep(cfg, st, a, t);
    var x, end := st.turns[t], Apply(cfg, st, a);
    if !LostLocal(end, t) {
      LocalGenerations(cfg, st, a, x.worker, x.session, x.run);
    }
    if !LostRedis(end, t) {
      RedisGenerations(cfg, st, a, x.session, x.run);
    }
  }

  /** A `supersede` that revives a turn gives it the local slot back and leaves Redis as it is. */
  lemma RevivedStep(cfg: Config, st: State, a: Action, t: TurnId)
    requires Sound(st) && Settled(st, t) && Enabled(cfg, st, a) && Revives(st, a, t)
    ensures var end := Apply(cfg, st, a);
            && Settled(end, t) && end.turns[t] == st.turns[t] && end.turns[t].worker < |end.workers|
            && !LostLocal(end, t) && end.redis == st.redis
  {}

  predicate Gone(cfg: Config, st: State, t: TurnId)
    requires t in st.turns && st.turns[t].worker < |st.workers|
  {
    LostLocal(st, t) || (cfg.redisEnabled && LostRedis(st, t))
  }

  /**
   Ownership never returns, if nobody announces the run again.  In every run: once the Redis
   key of a session has moved on from a settled turn, it never comes back; once the local
   slot has, it does not come back unless a `supersede` announces the turn's own run.  Either
   way the turn is never current again, with Redis answering or not.
   */
  lemma {:induction false} OwnershipNeverReturns(cfg: Config, st: State, run: seq<Action>, t: TurnId)
    requires Sound(st) && Settled(st, t) && Legal(cfg, st, run)
    ensures var end := After(cfg, st, run);
            && Settled(end, t) && end.turns[t].worker < |end.workers|
            && (LostLocal(st, t) && NeverReannounced(run, st.turns[t]) ==> LostLocal(end, t))
            && (LostRedis(st, t) ==> LostRedis(end, t))
            && forall up: bool ::
                 (LostLocal(st, t) && NeverReannounced(run, st.turns[t])) || (cfg.redisEnabled && LostRedis(st, t))
                 ==> !IsCurrent(cfg, end, t, up)
    decreases |run|
  {
    if run != [] {
      SoundStep(cfg, st, run[0]);
      LostStep(cfg, st, run[0], t);
      SettledStep(cfg, st, run[0], t);
      assert forall a <- run[1..] :: a in run;
      hide Enabled, Apply, Sound;
      OwnershipNeverReturns(cfg, Apply(cfg, st, run[0]), run[1..], t);
    }
  }

  /** At some point of the run the turn is current, with Redis answering. */
  predicate EverCurrent(cfg: Config, st: State, run: seq<Action>, t: TurnId)
    requires Legal(cfg, st, run)
    decreases |run|
  {
    t in st.turns && st.turns[t].worker < |st.workers| &&
    (IsCurrent(cfg, st, t, true) || (run != [] && EverCurrent(cfg, Apply(cfg, st, run[0]), run[1..], t)))
  }

  /** At some point of the run the turn is revived while Redis, if there is one, still holds its generation. */
  predicate EverRevived(cfg: Config, st: State, run: seq<Action>, t: TurnId)
    requires Legal(cfg, st, run)
    decreases |run|
  {
    t in st.turns && run != [] &&
    ((Revives(st, run[0], t) && !(cfg.redisEnabled && LostRedis(st, t))) || EverRevived(cfg, Apply(cfg, st, run[0]), run[1..], t))
  }

  /**
   Exactly when ownership returns: in every run from a state in which a settled turn is not
   current, it becomes current again if and only if some `supersede` on its worker finds
   another run in the slot, announces the turn's own run, and the SET of that other run has
   not reached Redis.
   */
  lemma {:induction false} OwnershipReturnsIff(cfg: Config, st: State, run: seq<Action>, t: TurnId)
    requires Sound(st) && Settled(st, t) && Legal(cfg, st, run) && st.turns[t].worker < |st.workers|
    requires Gone(cfg, st, t)
    ensures EverCurrent(cfg, st, run, t) <==> EverRevived(cfg, st, run, t)
    decreases |run|
  {
    if run != [] {
      var next := Apply(cfg, st, run[0]);
      SoundStep(cfg, st, run[0]);
      LostStep(cfg, st, run[0], t);
      if Revives(st, run[0], t) && !(cfg.redisEnabled && LostRedis(st, t)) {
        RevivedStep(cfg, st, run[0], t);
        hide Sound, Enabled, Apply;
      } else {
        hide Sound, Enabled, Apply;
        OwnershipReturnsIff(cfg, next, run[1..], t);
      }
    }
  }

  /** With Redis, at most one turn of a session is current across all workers; without it, at most one per worker. */
  lemma OneCurrentRun(cfg: Config, st: State, run: seq<Action>, t1: TurnId, t2: TurnId)
    requires Init(cfg, st) && Legal(cfg, st, run)
    requires var end := After(cfg, st, run);
             && t1 in end.turns && t2 in end.turns && t1 != t2
             && end.turns[t1].session == end.turns[t2].session
             && end.turns[t1].worker < |end.workers| && end.turns[t2].worker < |end.workers|
             && (cfg.redisEnabled || end.turns[t1].worker == end.turns[t2].worker)
    ensures var end := After(cfg, st, run);
            forall up1: bool, up2: bool :: !(IsCurrent(cfg, end, t1, up1) && IsCurrent(cfg, end, t2, up2))
  {
    SoundAlways(cfg, st, run);
  }

  /**
   A starting turn displaces the settled turns of its session on its worker at its second
   guard block, before Redis is asked, so even an `acquire` that Redis then rejects displaces
   them; for as long as nobody announces their run again.
   */
  lemma InstallDisplaces(cfg: Config, st: State, a: Action, t: TurnId, run: seq<Action>)
    requires Sound(st) && Settled(st, t) && Enabled(cfg, st, a) && a.Install?
    requires st.turns[a.t].worker == st.turns[t].worker && st.turns[a.t].session == st.turns[t].session
    requires Legal(cfg, Apply(cfg, st, a), run) && NeverReannounced(run, st.turns[t])
    ensures var end := After(cfg, Apply(cfg, st, a), run);
            && t in end.turns && end.turns[t].worker < |end.workers|
            && forall up: bool :: !IsCurrent(cfg, end, t, up)
  {
    SoundStep(cfg, st, a);
    LostStep(cfg, st, a, t);
    SettledStep(cfg, st, a, t);
    OwnershipNeverReturns(cfg, Apply(cfg, st, a), run, t);
  }

  /** A SET that took effect, its answer lost or not, displaces every other settled turn of its session on all workers for good. */
  lemma PublishDisplaces(cfg: Config, st: State, a: Action, t: TurnId, run: seq<Action>)
    requires cfg.redisEnabled && Sound(st) && Settled(st, t) && Enabled(cfg, st, a)
    requires a.Publish? && a.fate != FailedBefore && st.turns[a.t].session == st.turns[t].session
    requires Legal(cfg, Apply(cfg, st, a), run)
    ensures var end := After(cfg, Apply(cfg, st, a), run);
            && t in end.turns && end.turns[t].worker < |end.workers|
            && forall up: bool :: !IsCurrent(cfg, end, t, up)
  {
    SoundStep(cfg, st, a);
    LostStep(cfg, st, a, t);
    OwnershipNeverReturns(cfg, Apply(cfg, st, a), run, t);
  }

  /**
   `supersede` ends the ownership of the settled turns of its session on its worker at once,
   except of the run it announces, and for as long as nobody announces their run again.
   */
  lemma SupersedeRemoves(cfg: Config, st: State, a: Action, t: TurnId, run: seq<Action>)
    requires Sound(st) && Settled(st, t) && a.Supersede? && Enabled(cfg, st, a)
    requires st.turns[t].worker == a.worker && st.turns[t].session == a.session && st.turns[t].run != a.next
    requires Legal(cfg, Apply(cfg, st, a), run) && NeverReannounced(run, st.turns[t])
    ensures var end := After(cfg, Apply(cfg, st, a), run);
            && t in end.turns && end.turns[t].worker < |end.workers|
            && forall up: bool :: !IsCurrent(cfg, end, t, up)
  {
    SoundStep(cfg, st, a);
    LostStep(cfg, st, a, t);
    SettledStep(cfg, st, a, t);
    OwnershipNeverReturns(cfg, Apply(cfg, st, a), run, t);
  }

  /** A turn that takes over the slot starts as the local owner and unmarked there, even if its run was stopped before it began. */
  lemma InstallStartsClean(cfg: Config, st: State, t: TurnId)
    requires Enabled(cfg, st, Install(t))
    ensures var x, end := st.turns[t], Apply(cfg, st, Install(t));
            && x.worker < |end.workers|
            && Holds(end.workers[x.worker].generations, x.session, x.run)
            && !Holds(end.workers[x.worker].cancelled, x.session, x.run)
  {}

  /** When an issued turn is current: its SET, when answered, makes it so if and only if the local slot still names it. */
  lemma SetMakesCurrentIff(cfg: Config, st: State, t: TurnId)
    requires cfg.redisEnabled && Enabled(cfg, st, Publish(t, Answered))
    ensures var end := Apply(cfg, st, Publish(t, Answered));
            && t in end.turns && end.turns[t].worker < |end.workers| && end.turns[t].pc == Live
            && (IsCurrent(cfg, end, t, true) <==> !LostLocal(st, t))
  {
    var x := st.turns[t];
    assert NextWorkers(cfg, st, Publish(t, Answered)) == st.workers[x.worker := st.workers[x.worker]] == st.workers;
  }

  predicate OnlyCancels(run: seq<Action>) {
    forall a <- run :: a.CancelMark? || a.CancelAsk? || a.CancelCleanUp?
  }

  /** No run of `cancel` calls, however interleaved and failing, changes which turns are current. */
  lemma {:induction false} CancelsKeepCurrent(cfg: Config, st: State, run: seq<Action>, t: TurnId, up: bool)
    requires OnlyCancels(run) && Legal(cfg, st, run) && t in st.turns && st.turns[t].worker < |st.workers|
    ensures var end := After(cfg, st, run);
            && end.turns == st.turns && |end.workers| == |st.workers|
            && IsCurrent(cfg, end, t, up) == IsCurrent(cfg, st, t, up)
    decreases |run|
  {
    if run != [] {
      Identity(cfg, st, run[0]);
      CancelKeepsCurrent(cfg, st, run[0], t, up);
      assert OnlyCancels(run[1..]);
      hide IsCurrent, Enabled, Apply;
      CancelsKeepCurrent(cfg, Apply(cfg, st, run[0]), run[1..], t, up);
    }
  }

  /** No part of a `cancel` call changes which turns are current. */
  lemma CancelKeepsCurrent(cfg: Config, st: State, a: Action, t: TurnId, up: bool)
    requires (a.CancelMark? || a.CancelAsk? || a.CancelCleanUp?) && Enabled(cfg, st, a)
    requires t in st.turns && st.turns[t].worker < |st.workers|
    ensures IsCurrent(cfg, Apply(cfg, st, a), t, up) == IsCurrent(cfg, st, t, up)
  {
    var x, w := st.turns[t], st.turns[t].worker;
    assert Apply(cfg, st, a).workers[w].generations == st.workers[w].generations;
  }
}
