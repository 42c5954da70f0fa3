/**
 The coordinator object itself: a class whose methods update the semaphores, the slots and
 the Redis keys in place, as core/concurrency.py does.  Each method states the state it
 leaves, and each takes a ghost protocol state and yields the legal protocol run that it
 performs; so everything proved about runs of the protocol holds of this code.
 */
module TurnCoordinator {
  import opened TurnProtocol

  datatype Reply = Answer(yes: bool) | Error

  function ReplyOf(fate: Fate, yes: bool): Reply {
    if fate == Answered then Answer(yes) else Error
  }

  /** The Redis keys the coordinator uses, with one method per command it sends. */
  class RedisServer {
    var active: nat
    var userActive: map<User, nat>
    var generations: map<Session, RunId>
    var cancelled: map<Session, RunId>

    ghost function View(): Shared
      reads this
    {
      Shared(active, userActive, generations, cancelled)
    }

    constructor ()
      ensures View() == Shared(0, map[], map[], map[])
    {
      active, userActive, generations, cancelled := 0, map[], map[], map[];
    }

    method Admit(cfg: Config, u: User, fate: Fate) returns (reply: Reply)
      modifies this
      ensures View() == Effect(fate, old(View()), old(View()).Reserve(cfg, u))
      ensures reply == ReplyOf(fate, old(View()).Admits(cfg, u))
      ensures fate != Answered ==> reply == Error
      ensures fate == Answered ==>
                var n := if u in old(userActive) then old(userActive)[u] else 0;
                reply == Answer(old(active) < cfg.maxStreams && n < cfg.perUser)
      ensures fate != FailedBefore ==>
                var n := if u in old(userActive) then old(userActive)[u] else 0;
                var one := if old(active) < cfg.maxStreams && n < cfg.perUser then 1 else 0;
                active == old(active) + one && userActive == old(userActive)[u := n + one]
      ensures fate == FailedBefore ==> active == old(active) && userActive == old(userActive)
      ensures generations == old(generations) && cancelled == old(cancelled)
    {
      if fate == FailedBefore { return Error; }
      active := active + 1;
      var g := active;
      userActive := userActive[u := Tally(userActive, u) + 1];
      var n := userActive[u];
      var admitted := true;
      if g > cfg.maxStreams || n > cfg.perUser {
        active := active - 1;
        userActive := userActive[u := userActive[u] - 1];
        admitted := false;
      }
      reply := ReplyOf(fate, admitted);
    }

    method Publish(s: Session, r: RunId, fate: Fate) returns (reply: Reply)
      modifies this
      ensures View() == Effect(fate, old(View()), old(View()).Publish(s, r))
      ensures reply == ReplyOf(fate, true)
      ensures generations == if fate == FailedBefore then old(generations) else old(generations)[s := r]
      ensures active == old(active) && userActive == old(userActive) && cancelled == old(cancelled)
    {
      if fate == FailedBefore { return Error; }
      generations := generations[s := r];
      reply := ReplyOf(fate, true);
    }

    method GiveBack(u: User, fate: Fate)
      modifies this
      ensures View() == Effect(fate, old(View()), old(View()).GiveBack(u))
      ensures active == if fate != FailedBefore && old(active) > 0 then old(active) - 1 else old(active)
      ensures userActive == if fate != FailedBefore && u in old(userActive) && old(userActive)[u] > 0
                            then old(userActive)[u := old(userActive)[u] - 1] else old(userActive)
      ensures generations == old(generations) && cancelled == old(cancelled)
    {
      if fate == FailedBefore { return; }
      if active > 0 { active := active - 1; }
      if u in userActive && userActive[u] > 0 { userActive := userActive[u := userActive[u] - 1]; }
    }

    method CancelIfCurrent(s: Session, r: RunId, fate: Fate) returns (reply: Reply)
      modifies this
      ensures View() == Effect(fate, old(View()), old(View()).CancelIfCurrent(s, r))
      ensures reply == ReplyOf(fate, Holds(old(View()).generations, s, r))
      ensures cancelled == if fate != FailedBefore && s in old(generations) && old(generations)[s] == r
                           then old(cancelled)[s := r] else old(cancelled)
      ensures active == old(active) && userActive == old(userActive) && generations == old(generations)
    {
      if fate == FailedBefore { return Error; }
      var current := Holds(generations, s, r);
      if current { cancelled := cancelled[s := r]; }
      reply := ReplyOf(fate, current);
    }
  }

  datatype Lease = Lease(session: Session, user: User, generation: RunId, redisReserved: bool)

  datatype Outcome = Acquired(lease: Lease) | GlobalSaturated | UserSaturated | RedisRejected | RedisFailed

  datatype Failure = None | Some(value: Outcome)

  class Coordinator {
    const cfg: Config
    const redis: RedisServer?
    var globalFree: nat
    var userFree: map<User, nat>
    var generations: map<Session, RunId>
    var cancelled: map<Session, RunId>

    ghost function View(): Local
      reads this
    {
      Local(globalFree, userFree, generations, cancelled)
    }

    /** This object is worker `w` of the protocol state, and its Redis is the shared one. */
    ghost predicate Plays(st: State, w: nat)
      reads this, redis
    {
      && w < |st.workers| && st.workers[w] == View()
      && cfg.redisEnabled == (redis != null)
      && (redis != null ==> st.redis == redis.View())
    }

    /** `__init__`. */
    constructor (maxStreams: nat, perUser: nat, server: RedisServer?)
      ensures cfg == Config(maxStreams, perUser, server != null) && redis == server
      ensures View() == Local(maxStreams, map[], map[], map[])
    {
      cfg := Config(maxStreams, perUser, server != null);
      redis := server;
      globalFree, userFree, generations, cancelled := maxStreams, map[], map[], map[];
    }

    /** What the shared Redis state is, or `st`'s if there is no Redis. */
    ghost function RedisView(st: State): Shared
      reads this, redis
    {
      if redis == null then st.redis else redis.View()
    }

    /**
     `acquire`, with the fate of each Redis call it may make.  The run id falls back to a
     generated one.  A wait for a semaphore without a free permit times out.
     */
    method Acquire(session: Session, user: User, runId: RunId, generated: RunId,
                   admit: Fate, publish: Fate, giveBack: Fate,
                   ghost st: State, ghost w: nat, ghost t: TurnId)
      returns (outcome: Outcome, ghost run: seq<Action>)
      requires Plays(st, w) && (runId != "" || generated != "")
      modifies this, redis
      // A local timeout leaves the generations, the markers and Redis as they were.
      ensures (outcome == GlobalSaturated) == (old(globalFree) == 0)
      ensures (outcome == UserSaturated) == (old(globalFree) > 0 && old(View()).FreeFor(cfg, user) == 0)
      ensures outcome == GlobalSaturated ==> View() == old(View())
      ensures outcome == UserSaturated ==> View() == old(View()).WithUserFree(user, 0)
      ensures outcome == GlobalSaturated || outcome == UserSaturated ==> RedisView(st) == old(RedisView(st))
      // A lease: one permit of each kind is taken, and the slot is this turn's.
      ensures outcome.Acquired? <==>
                && old(View()).HasBoth(cfg, user)
                && (redis == null || (admit == Answered && old(RedisView(st)).Admits(cfg, user) && publish == Answered))
      ensures outcome.Acquired? ==>
                var r := if runId == "" then generated else runId;
                && outcome.lease == Lease(session, user, r, redis != null)
                && View() == old(View()).TakeBoth(cfg, user).Install(session, r)
      ensures outcome.Acquired? ==>
                RedisView(st) == if redis == null then old(RedisView(st))
                                 else old(RedisView(st)).Reserve(cfg, user).Publish(session, outcome.lease.generation)
      // A failure at Redis returns both permits but has taken over the slot.
      ensures outcome == RedisRejected || outcome == RedisFailed ==>
                View() == old(View()).WithUserFree(user, old(View()).FreeFor(cfg, user))
                            .Install(session, if runId == "" then generated else runId)
      ensures (outcome == RedisRejected) ==
                (old(View()).HasBoth(cfg, user) && redis != null && admit == Answered && !old(RedisView(st)).Admits(cfg, user))
      ensures outcome == RedisRejected ==> RedisView(st) == old(RedisView(st)).Reserve(cfg, user)
      ensures (outcome == RedisFailed) ==
                (old(View()).HasBoth(cfg, user) && redis != null
                 && (admit == Answered ==> old(RedisView(st)).Admits(cfg, user) && publish != Answered))
      ensures outcome == RedisFailed ==>
                var r := if runId == "" then generated else runId;
                RedisView(st) == old(RedisView(st)).Failed(cfg, user, session, r, admit, publish, giveBack)
      // If no turn of the session has used the run id, the call is a run of the protocol.
      ensures Enabled(cfg, st, Begin(t, w, session, user, if runId == "" then generated else runId)) ==>
              Reaches(cfg, st, run,
                Alone(st, t, Turn(w, session, user, if runId == "" then generated else runId,
                                  if outcome.Acquired? then Live else Closed, outcome.Acquired? && redis != null),
                      w, View(), RedisView(st)))
    {
      hide Reaches, Alone, Enabled, Local.Install, Local.TakeBoth, Local.HasBoth, Local.Returned, Local.WithUserFree,
           Shared.Reserve, Shared.Publish, Shared.Admits, Shared.Failed;
      ghost var was := View();
      var r := if runId == "" then generated else runId;
      ghost var x := Turn(w, session, user, r, WantGlobal, false);
      // Any state will do to follow the code in, if the id is not fresh in this one.
      ghost var from := Startable(st, w, t, x);
      run := Started(from, t, x, w);
      var failure;
      failure, run := WaitForPermits(user, from, w, t, x, run);
      if failure.Some? {
        return failure.value, run;
      }
      TakenAndReturned(was, user, session, r);
      x := x.(pc := WantInstall);
      run := TakeSlot(session, r, from, w, t, x, run);
      if redis == null {
        return Acquired(Lease(session, user, r, false)), run;
      }
      x := x.(pc := WantReserve);
      failure, run := EnterRedis(session, user, r, admit, publish, giveBack, from, w, t, x, run);
      outcome := if failure.Some? then failure.value else Acquired(Lease(session, user, r, true));
    }

    /** A failure at Redis leaves the permits as they were, but the slot taken over. */
    lemma TakenAndReturned(was: Local, user: User, session: Session, r: RunId)
      requires was.HasBoth(cfg, user)
      ensures was.TakeBoth(cfg, user).Install(session, r).Returned(user)
           == was.WithUserFree(user, was.FreeFor(cfg, user)).Install(session, r)
    {}

    /** The second guard block. */
    method TakeSlot(session: Session, r: RunId, ghost st: State, ghost w: nat, ghost t: TurnId, ghost x: Turn, ghost run: seq<Action>)
      returns (ghost more: seq<Action>)
      requires w < |st.workers| && x.worker == w && x.session == session && x.run == r && x.pc == WantInstall
      requires Reaches(cfg, st, run, Alone(st, t, x, w, View(), RedisView(st)))
      modifies this
      ensures View() == old(View()).Install(session, r)
      ensures Reaches(cfg, st, more,
                Alone(st, t, x.(pc := if cfg.redisEnabled then WantReserve else Live), w, View(), RedisView(st)))
    {
      hide Reaches;
      more := Did(st, run, t, x, w, Install(t));
      if Holds(cancelled, session, r) { cancelled := cancelled - {session}; }
      generations := generations[session := r];
    }

    /** Both semaphore waits; a user timeout returns the global permit. */
    method WaitForPermits(user: User, ghost st: State, ghost w: nat, ghost t: TurnId, ghost x: Turn, ghost run: seq<Action>)
      returns (failure: Failure, ghost more: seq<Action>)
      requires w < |st.workers| && x.worker == w && x.user == user && x.pc == WantGlobal && !x.reserved
      requires Reaches(cfg, st, run, Alone(st, t, x, w, View(), RedisView(st)))
      modifies this
      ensures failure in {None, Some(GlobalSaturated), Some(UserSaturated)}
      ensures (failure == Some(GlobalSaturated)) == (old(globalFree) == 0)
      ensures (failure == Some(UserSaturated)) == (old(globalFree) > 0 && old(View()).FreeFor(cfg, user) == 0)
      ensures (failure == None) == old(View()).HasBoth(cfg, user)
      ensures View() == if failure == None then old(View()).TakeBoth(cfg, user)
                        else if failure == Some(GlobalSaturated) then old(View())
                        else old(View()).WithUserFree(user, 0)
      ensures Reaches(cfg, st, more,
                Alone(st, t, x.(pc := if failure == None then WantInstall else Closed), w, View(), RedisView(st)))
    {
      hide Reaches;
      if globalFree == 0 {
        more := Did(st, run, t, x, w, GlobalTimeout(t));
        return Some(GlobalSaturated), more;
      }
      more := Did(st, run, t, x, w, TakeGlobal(t));
      globalFree := globalFree - 1;
      failure, more := WaitForUser(user, st, w, t, x.(pc := WantUserLock), more);
    }

    method WaitForUser(user: User, ghost st: State, ghost w: nat, ghost t: TurnId, ghost x: Turn, ghost run: seq<Action>)
      returns (failure: Failure, ghost more: seq<Action>)
      requires w < |st.workers| && x.worker == w && x.user == user && x.pc == WantUserLock && !x.reserved
      requires Reaches(cfg, st, run, Alone(st, t, x, w, View(), RedisView(st)))
      modifies this
      ensures failure == if old(View()).FreeFor(cfg, user) == 0 then Some(UserSaturated) else None
      ensures View() == if failure == None then old(View()).WithUserFree(user, old(View()).FreeFor(cfg, user) - 1)
                        else old(View()).(globalFree := old(globalFree) + 1).WithUserFree(user, 0)
      ensures Reaches(cfg, st, more,
                Alone(st, t, x.(pc := if failure == None then WantInstall else Closed), w, View(), RedisView(st)))
    {
      hide Reaches, Alone;
      more := FindSemaphore(user, st, w, t, x, run);
      if userFree[user] == 0 {
        more := Did(st, more, t, x.(pc := WantUser), w, UserTimeout(t));
        more := Did(st, more, t, x.(pc := UserTimedOut), w, UndoGlobal(t));
        globalFree := globalFree + 1;
        return Some(UserSaturated), more;
      }
      more := Did(st, more, t, x.(pc := WantUser), w, TakeUser(t));
      userFree := userFree[user := userFree[user] - 1];
      failure := None;
    }

    /** The first guard block: a user without a semaphore gets one. */
    method FindSemaphore(user: User, ghost st: State, ghost w: nat, ghost t: TurnId, ghost x: Turn, ghost run: seq<Action>)
      returns (ghost more: seq<Action>)
      requires w < |st.workers| && x.worker == w && x.user == user && x.pc == WantUserLock
      requires Reaches(cfg, st, run, Alone(st, t, x, w, View(), RedisView(st)))
      modifies this`userFree
      ensures View() == old(View()).WithUserFree(user, old(View()).FreeFor(cfg, user))
      ensures Reaches(cfg, st, more, Alone(st, t, x.(pc := WantUser), w, View(), RedisView(st)))
    {
      hide Reaches, Alone;
      more := Did(st, run, t, x, w, FindUserLock(t));
      if user !in userFree { userFree := userFree[user := cfg.perUser]; }
      assert View() == NextLocal(cfg, old(View()), x, FindUserLock(t));
    }

    /** Admission and the SET; every failure returns both permits, and the reservation if there is one. */
    method EnterRedis(session: Session, user: User, r: RunId, admit: Fate, publish: Fate, giveBack: Fate,
                      ghost st: State, ghost w: nat, ghost t: TurnId, ghost x: Turn, ghost run: seq<Action>)
      returns (failure: Failure, ghost more: seq<Action>)
      requires redis != null && cfg.redisEnabled
      requires w < |st.workers| && x == Turn(w, session, user, r, WantReserve, false)
      requires Reaches(cfg, st, run, Alone(st, t, x, w, View(), RedisView(st)))
      modifies this, redis
      ensures failure in {None, Some(RedisRejected), Some(RedisFailed)}
      ensures View() == if failure == None then old(View()) else old(View()).Returned(user)
      ensures (failure == Some(RedisRejected)) == (admit == Answered && !old(redis.View()).Admits(cfg, user))
      ensures (failure == None) == (admit == Answered && old(redis.View()).Admits(cfg, user) && publish == Answered)
      ensures failure == None ==> redis.View() == old(redis.View()).Reserve(cfg, user).Publish(session, r)
      ensures failure == Some(RedisRejected) ==> redis.View() == old(redis.View()).Reserve(cfg, user)
      ensures failure == Some(RedisFailed) ==>
                redis.View() == old(redis.View()).Failed(cfg, user, session, r, admit, publish, giveBack)
      ensures Reaches(cfg, st, more,
                Alone(st, t, if failure == None then x.(pc := Live, reserved := true) else x.(pc := Closed),
                      w, View(), RedisView(st)))
    {
      hide Reaches;
      more := Did(st, run, t, x, w, Reserve(t, admit));
      var reply := redis.Admit(cfg, user, admit);
      if reply != Answer(true) {
        more := ReturnPermits(user, false, giveBack, st, w, t, x.(pc := ReturnUser), more);
        failure := Some(if reply == Error then RedisFailed else RedisRejected);
        return;
      }
      more := Did(st, more, t, x.(pc := WantPublish, reserved := true), w, Publish(t, publish));
      reply := redis.Publish(session, r, publish);
      if reply == Error {
        more := ReturnPermits(user, true, giveBack, st, w, t, x.(pc := ReturnUser, reserved := true), more);
        return Some(RedisFailed), more;
      }
      failure := None;
    }

    /** A state in which this turn can start: `st` if its run id is fresh there, or else `st` without its turns. */
    ghost function Startable(st: State, w: nat, t: TurnId, x: Turn): (from: State)
      requires Plays(st, w) && x.run != "" && x == Turn(w, x.session, x.user, x.run, WantGlobal, false)
      reads this, redis
      ensures Plays(from, w) && from.redis == st.redis
      ensures Enabled(cfg, from, Begin(t, w, x.session, x.user, x.run))
      ensures Enabled(cfg, st, Begin(t, w, x.session, x.user, x.run)) ==> from == st
    {
      if Enabled(cfg, st, Begin(t, w, x.session, x.user, x.run)) then st else st.(turns := map[])
    }

    ghost method Started(st: State, t: TurnId, x: Turn, w: nat) returns (run: seq<Action>)
      requires Plays(st, w) && x.pc == WantGlobal && x.worker == w && !x.reserved
      requires Enabled(cfg, st, Begin(t, w, x.session, x.user, x.run))
      ensures Reaches(cfg, st, run, Alone(st, t, x, w, View(), RedisView(st)))
    {
      Beginning(cfg, st, t, x, w);
      run := [Begin(t, w, x.session, x.user, x.run)];
    }

    /** Announces the section the code is about to execute. */
    ghost method Did(st: State, run: seq<Action>, t: TurnId, x: Turn, w: nat, a: Action) returns (more: seq<Action>)
      requires w < |st.workers| && MovesTurn(a) && !a.Begin? && a.t == t
      requires x.worker == w && x.pc == FromPc(a) && Guard(cfg, View(), x.user, a)
      requires Reaches(cfg, st, run, Alone(st, t, x, w, View(), RedisView(st)))
      ensures var r := RedisView(st);
              Reaches(cfg, st, more,
                      Alone(st, t, x.(pc := NextPc(cfg, r, x, a), reserved := NextReserved(cfg, r, x, a)),
                            w, NextLocal(cfg, View(), x, a), SectionRedis(cfg, r, x, a)))
    {
      Section(cfg, st, run, t, x, w, View(), RedisView(st), a);
      more := run + [a];
    }

    /** The common tail of a failed `acquire` and of `release`. */
    method ReturnPermits(user: User, reserved: bool, giveBack: Fate,
                         ghost st: State, ghost w: nat, ghost t: TurnId, ghost x: Turn, ghost run: seq<Action>)
      returns (ghost more: seq<Action>)
      requires cfg.redisEnabled == (redis != null) && (reserved ==> redis != null)
      requires w < |st.workers| && x.worker == w && x.user == user && x.reserved == reserved && x.pc == ReturnUser
      requires Reaches(cfg, st, run, Alone(st, t, x, w, View(), RedisView(st)))
      modifies this, redis
      ensures View() == old(View()).Returned(user)
      ensures RedisView(st) == if reserved then Effect(giveBack, old(RedisView(st)), old(RedisView(st)).GiveBack(user))
                               else old(RedisView(st))
      ensures Reaches(cfg, st, more, Alone(st, t, x.(pc := Closed, reserved := false), w, View(), RedisView(st)))
    {
      hide Reaches, Alone;
      more := ReturnUserPermit(user, st, w, t, x, run);
      more := Did(st, more, t, x.(pc := ReturnGlobal), w, GiveGlobal(t));
      globalFree := globalFree + 1;
      if reserved {
        more := Did(st, more, t, x.(pc := ReturnReservation), w, GiveReservation(t, giveBack));
        redis.GiveBack(user, giveBack);
      }
    }

    /** The user's semaphore is looked up and, if found, gets its permit back. */
    method ReturnUserPermit(user: User, ghost st: State, ghost w: nat, ghost t: TurnId, ghost x: Turn, ghost run: seq<Action>)
      returns (ghost more: seq<Action>)
      requires w < |st.workers| && x.worker == w && x.user == user && x.pc == ReturnUser
      requires Reaches(cfg, st, run, Alone(st, t, x, w, View(), RedisView(st)))
      modifies this`userFree
      ensures View() == old(View()).GiveUser(user)
      ensures Reaches(cfg, st, more, Alone(st, t, x.(pc := ReturnGlobal), w, View(), RedisView(st)))
    {
      hide Reaches, Alone;
      more := Did(st, run, t, x, w, GiveUser(t));
      if user in userFree { userFree := userFree[user := userFree[user] + 1]; }
      assert View() == NextLocal(cfg, old(View()), x, GiveUser(t));
    }

    /** `release`, of a lease this coordinator issued and has not released. */
    method Release(lease: Lease, giveBack: Fate, ghost st: State, ghost w: nat, ghost t: TurnId)
      returns (ghost run: seq<Action>)
      requires Plays(st, w) && lease.redisReserved == (redis != null)
      requires t in st.turns
      requires st.turns[t] == Turn(w, lease.session, lease.user, lease.generation, Live, lease.redisReserved)
      modifies this, redis
      ensures View() == old(View()).Unmark(lease.session, lease.generation).Returned(lease.user)
      ensures globalFree == old(globalFree) + 1 && generations == old(generations)
      ensures userFree == if lease.user in old(userFree) then old(userFree)[lease.user := old(userFree)[lease.user] + 1] else old(userFree)
      ensures cancelled == if lease.session in old(cancelled) && old(cancelled)[lease.session] == lease.generation
                           then old(cancelled) - {lease.session} else old(cancelled)
      ensures RedisView(st) == if lease.redisReserved then Effect(giveBack, old(RedisView(st)), old(RedisView(st)).GiveBack(lease.user))
                               else old(RedisView(st))
      ensures Reaches(cfg, st, run, Alone(st, t, st.turns[t].(pc := Closed, reserved := false), w, View(), RedisView(st)))
    {
      ghost var x := st.turns[t];
      assert Alone(st, t, x, w, View(), RedisView(st)) == st;
      run := [];
      assert Reaches(cfg, st, run, st);
      hide Reaches;
      run := Did(st, run, t, x, w, BeginRelease(t));
      if Holds(cancelled, lease.session, lease.generation) { cancelled := cancelled - {lease.session}; }
      run := ReturnPermits(lease.user, lease.redisReserved, giveBack, st, w, t, x.(pc := ReturnUser), run);
    }

    /**
     `current_generation`: the run that a `supersede` would replace, the only one that a
     `cancel` here can stop, and the only one of the session that can be current here.
     */
    method CurrentGeneration(session: Session, ghost st: State, ghost w: nat) returns (r: RunId)
      requires Plays(st, w)
      ensures forall next: RunId :: View().Supersedes(session, next) <==> r != "" && next != r
      ensures forall next: RunId | View().Supersedes(session, next) :: Holds(View().Supersede(session, next).cancelled, session, r)
      ensures forall run: RunId | run != "" :: Holds(generations, session, run) <==> run == r
      ensures forall t, up: bool | t in st.turns && st.turns[t].worker == w && st.turns[t].session == session && st.turns[t].run != "" ::
                TurnProtocol.IsCurrent(cfg, st, t, up) ==> st.turns[t].run == r
    {
      r := if session in generations then generations[session] else "";
    }

    /** `supersede`: the replaced run, or "" for None. */
    method Supersede(session: Session, next: RunId, ghost st: State, ghost w: nat) returns (replaced: RunId)
      requires Plays(st, w)
      modifies this
      ensures View() == old(View()).Supersede(session, next)
      ensures replaced == if session in old(generations) && old(generations)[session] != next then old(generations)[session] else ""
      ensures replaced != "" ==>
                cancelled == old(cancelled)[session := replaced] && generations == old(generations)[session := next]
      ensures replaced == "" ==> cancelled == old(cancelled) && generations == old(generations)
      ensures next != "" ==>
                var a := Action.Supersede(w, session, next);
                Enabled(cfg, st, a) && Plays(Apply(cfg, st, a), w)
    {
      if session !in generations || generations[session] == "" || generations[session] == next {
        return "";
      }
      replaced := generations[session];
      cancelled := cancelled[session := replaced];
      generations := generations[session := next];
    }

    /** `cancel`: false for a run that does not hold the slot or is no longer the published generation. */
    method Cancel(session: Session, r: RunId, fate: Fate, ghost st: State, ghost w: nat, ghost c: CancelId)
      returns (stopped: bool, ghost run: seq<Action>)
      requires Plays(st, w) && c !in st.cancels
      modifies this, redis
      ensures stopped == (Holds(old(generations), session, r)
                          && (redis != null && fate == Answered ==> Holds(old(redis.View()).generations, session, r)))
      ensures View() == if !Holds(old(generations), session, r) then old(View())
                        else if stopped then old(View()).Mark(session, r)
                        else old(View()).Mark(session, r).Unmark(session, r)
      ensures generations == old(generations) && globalFree == old(globalFree) && userFree == old(userFree)
      ensures cancelled == if !(session in old(generations) && old(generations)[session] == r) then old(cancelled)
                           else if stopped then old(cancelled)[session := r] else old(cancelled)[session := r] - {session}
      ensures RedisView(st) == if redis != null && Holds(old(generations), session, r)
                               then Effect(fate, old(RedisView(st)), old(RedisView(st)).CancelIfCurrent(session, r))
                               else old(RedisView(st))
      ensures Legal(cfg, st, run)
      ensures After(cfg, st, run) == st.(workers := st.workers[w := View()], redis := RedisView(st))
    {
      run := [CancelMark(c, w, session, r)];
      OneStep(cfg, st, run[0]);
      if !Holds(generations, session, r) {
        return false, run;
      }
      cancelled := cancelled[session := r];
      if redis == null {
        return true, run;
      }
      ghost var marked := Apply(cfg, st, run[0]);
      stopped, run := CancelInRedis(session, r, fate, st, w, c, run);
      assert marked.cancels - {c} == st.cancels;
    }

    /** The Redis half of `cancel`, with the local marker set. */
    method CancelInRedis(session: Session, r: RunId, fate: Fate, ghost st: State, ghost w: nat, ghost c: CancelId, ghost run: seq<Action>)
      returns (stopped: bool, ghost more: seq<Action>)
      requires redis != null && cfg.redisEnabled && w < |st.workers| && c !in st.cancels
      requires Reaches(cfg, st, run, Asking(st, w, c, session, r))
      modifies this`cancelled, redis
      ensures stopped == (fate == Answered ==> Holds(old(redis.View()).generations, session, r))
      ensures cancelled == if stopped then old(cancelled) else old(View()).Unmark(session, r).cancelled
      ensures redis.View() == Effect(fate, old(redis.View()), old(redis.View()).CancelIfCurrent(session, r))
      ensures Reaches(cfg, st, more, st.(workers := st.workers[w := View()], redis := redis.View()))
    {
      ghost var asked := AskedRedis(st, w, c, session, r, fate, run);
      more := run + [CancelAsk(c, fate)];
      var reply := redis.CancelIfCurrent(session, r, fate);
      if reply != Answer(false) {
        return true, more;
      }
      hide Reaches;
      Step(cfg, st, more, asked, CancelCleanUp(c));
      more := more + [CancelCleanUp(c)];
      if Holds(cancelled, session, r) { cancelled := cancelled - {session}; }
      assert asked.cancels - {c} == st.cancels;
      stopped := false;
    }

    /** The protocol state once Redis has been asked. */
    lemma AskedRedis(st: State, w: nat, c: CancelId, session: Session, r: RunId, fate: Fate, run: seq<Action>) returns (asked: State)
      requires redis != null && cfg.redisEnabled && w < |st.workers| && c !in st.cancels
      requires Reaches(cfg, st, run, Asking(st, w, c, session, r))
      ensures Reaches(cfg, st, run + [CancelAsk(c, fate)], asked)
      ensures var before := redis.View();
              var told := fate == Answered && !Holds(before.generations, session, r);
              asked == State(st.workers[w := View()], Effect(fate, before, before.CancelIfCurrent(session, r)), st.turns,
                             if told then st.cancels[c := TurnProtocol.Cancel(w, session, r, CleaningUp)] else st.cancels)
    {
      var now := Asking(st, w, c, session, r);
      assert now.cancels - {c} == st.cancels;
      assert now.cancels[c := now.cancels[c].(stage := CleaningUp)] == st.cancels[c := TurnProtocol.Cancel(w, session, r, CleaningUp)];
      hide Reaches;
      Step(cfg, st, run, now, CancelAsk(c, fate));
      asked := Apply(cfg, now, CancelAsk(c, fate));
    }

    /** The local marker is set and Redis has not been asked. */
    ghost function Asking(st: State, w: nat, c: CancelId, session: Session, r: RunId): State
      requires w < |st.workers|
      reads this, redis
    {
      State(st.workers[w := View()], RedisView(st), st.turns, st.cancels[c := TurnProtocol.Cancel(w, session, r, CancelStage.Asking)])
    }

    /** `is_current`: what the protocol says about the turn. */
    method IsCurrent(lease: Lease, redisUp: bool, ghost st: State, ghost w: nat, ghost t: TurnId) returns (current: bool)
      requires Plays(st, w) && t in st.turns && st.turns[t].worker == w
      requires st.turns[t].session == lease.session && st.turns[t].run == lease.generation
      ensures current == TurnProtocol.IsCurrent(cfg, st, t, redisUp)
      ensures current <==>
                && lease.session in generations && generations[lease.session] == lease.generation
                && (redis == null || (redisUp && lease.session in redis.generations
                                      && redis.generations[lease.session] == lease.generation))
    {
      if !Holds(generations, lease.session, lease.generation) { return false; }
      if redis == null { return true; }
      if !redisUp { return false; }
      current := Holds(redis.generations, lease.session, lease.generation);
    }

    /** `is_cancelled`: what the protocol says about the turn. */
    method IsCancelled(lease: Lease, redisUp: bool, ghost st: State, ghost w: nat, ghost t: TurnId) returns (stopped: bool)
      requires Plays(st, w) && t in st.turns && st.turns[t].worker == w
      requires st.turns[t].session == lease.session && st.turns[t].run == lease.generation
      ensures stopped == TurnProtocol.IsCancelled(cfg, st, t, redisUp)
      ensures stopped <==>
                || (lease.session in cancelled && cancelled[lease.session] == lease.generation)
                || (redis != null && redisUp && lease.session in redis.cancelled
                    && redis.cancelled[lease.session] == lease.generation)
    {
      var local := Holds(cancelled, lease.session, lease.generation);
      if local { return true; }
      if redis == null { return false; }
      if !redisUp { return local; }
      stopped := Holds(redis.cancelled, lease.session, lease.generation);
    }
  }
}
