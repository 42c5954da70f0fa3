/**
 Conservation of permits: the process-local semaphores are exact, and the Redis counters
 never fall below the leases they stand for, whatever Redis calls fail.
 */
module TurnPermits {
  import opened Arithmetic
  import opened Counting
  import opened TurnProtocol

  // ---------------------------------------------------------------------------
  // Kinds of turns.

  predicate HasGlobal(pc: Pc) {
    pc !in {WantGlobal, ReturnReservation, Closed}
  }

  predicate HasUser(pc: Pc) {
    pc in {WantInstall, WantReserve, WantPublish, Live, ReturnUser}
  }

  /** Turns of worker `w` that hold a permit of its global semaphore. */
  function GlobalAt(w: nat): Turn -> bool {
    (x: Turn) => x.worker == w && HasGlobal(x.pc)
  }

  /** Turns of worker `w` that hold a permit of the semaphore of `u`. */
  function UserAt(w: nat, u: User): Turn -> bool {
    (x: Turn) => x.worker == w && x.user == u && HasUser(x.pc)
  }

  function Reserved(): Turn -> bool {
    (x: Turn) => x.reserved
  }

  function ReservedFor(u: User): Turn -> bool {
    (x: Turn) => x.reserved && x.user == u
  }

  function Issued(): Turn -> bool {
    (x: Turn) => x.pc == Live
  }

  function IssuedAt(w: nat): Turn -> bool {
    (x: Turn) => x.worker == w && x.pc == Live
  }

  function IssuedTo(u: User): Turn -> bool {
    (x: Turn) => x.pc == Live && x.user == u
  }

  // ---------------------------------------------------------------------------
  // The local semaphores.

  ghost predicate GlobalExact(cfg: Config, st: State, w: nat)
    requires w < |st.workers|
  {
    st.workers[w].globalFree + Count(st.turns, GlobalAt(w)) == cfg.maxStreams
  }

  ghost predicate UserExact(cfg: Config, st: State, w: nat, u: User)
    requires w < |st.workers|
  {
    st.workers[w].FreeFor(cfg, u) + Count(st.turns, UserAt(w, u)) == cfg.perUser
  }

  /** A turn that waits for or holds a user permit finds its user's semaphore. */
  ghost predicate LocksKnown(st: State) {
    forall t <- st.turns :: st.turns[t].worker < |st.workers| && (NeedsLock(st.turns[t].pc) ==> st.turns[t].user in st.LocalOf(t).userFree)
  }

  lemma SemaphoresStay(cfg: Config, st: State, a: Action, w: nat)
    requires Enabled(cfg, st, a) && w < |st.workers|
    ensures w < |NextWorkers(cfg, st, a)| && st.workers[w].userFree.Keys <= NextWorkers(cfg, st, a)[w].userFree.Keys
    ensures a.FindUserLock? && st.turns[a.t].worker == w ==> st.turns[a.t].user in NextWorkers(cfg, st, a)[w].userFree
  {}

  predicate NeedsLock(pc: Pc) {
    pc == WantUser || HasUser(pc)
  }

  lemma NeedsLockStep(cfg: Config, st: State, a: Action, t: TurnId)
    requires Enabled(cfg, st, a) && t in Apply(cfg, st, a).turns && NeedsLock(Apply(cfg, st, a).turns[t].pc)
    ensures t in st.turns && (NeedsLock(st.turns[t].pc) || (a.FindUserLock? && a.t == t))
  {}

  lemma LocksStep(cfg: Config, st: State, a: Action)
    requires LocksKnown(st) && Enabled(cfg, st, a)
    ensures LocksKnown(Apply(cfg, st, a))
  {
    Identity(cfg, st, a);
    var next := Apply(cfg, st, a);
    hide NextWorkers, NextTurn, NextRedis, NextCancels, NeedsLock;
    forall t <- next.turns
      ensures next.turns[t].worker < |next.workers|
      ensures NeedsLock(next.turns[t].pc) ==> next.turns[t].user in next.LocalOf(t).userFree
    {
      SemaphoresStay(cfg, st, a, next.turns[t].worker);
      if NeedsLock(next.turns[t].pc) {
        NeedsLockStep(cfg, st, a, t);
      }
    }
  }

  /** Semaphores are never removed, so `release` always finds the one it returns a permit to. */
  lemma {:induction false} LocksAlwaysKnown(cfg: Config, st: State, run: seq<Action>)
    requires LocksKnown(st) && Legal(cfg, st, run)
    ensures LocksKnown(After(cfg, st, run))
    decreases |run|
  {
    if run != [] {
      LocksStep(cfg, st, run[0]);
      LocksAlwaysKnown(cfg, Apply(cfg, st, run[0]), run[1..]);
    }
  }

  /** Free permits and permits held add up to the bound, for every semaphore of every worker. */
  ghost predicate PermitsExact(cfg: Config, st: State) {
    && (forall w: nat | w < |st.workers| :: GlobalExact(cfg, st, w))
    && (forall w: nat, u: User | w < |st.workers| :: UserExact(cfg, st, w, u))
  }

  /** How one action changes a count. */
  lemma CountStep(cfg: Config, st: State, a: Action, p: Turn -> bool)
    requires Enabled(cfg, st, a)
    ensures var next := Apply(cfg, st, a).turns;
            if MovesTurn(a) then
              && a.t in next
              && Count(next, p) == Count(st.turns, p)
                   - (if a.t in st.turns && p(st.turns[a.t]) then 1 else 0) + (if p(next[a.t]) then 1 else 0)
            else next == st.turns
  {
    var next := Apply(cfg, st, a).turns;
    if MovesTurn(a) {
      CountUpdate(st.turns, a.t, NextTurn(cfg, st, a), p);
    }
  }

  predicate Ready(cfg: Config, l: Local, x: Turn, a: Action) {
    MovesTurn(a) && !a.Begin? && x.pc == FromPc(a) && Guard(cfg, l, x.user, a)
  }

  /** A section takes or returns a global permit exactly when the turn starts or stops holding one. */
  lemma GlobalBalance(cfg: Config, redis: Shared, l: Local, x: Turn, a: Action)
    requires Ready(cfg, l, x, a)
    ensures NextLocal(cfg, l, x, a).globalFree + (if HasGlobal(NextPc(cfg, redis, x, a)) then 1 else 0)
         == l.globalFree + (if HasGlobal(x.pc) then 1 else 0)
  {}

  /** The same for the permits of each user. */
  lemma UserBalance(cfg: Config, redis: Shared, l: Local, x: Turn, a: Action, u: User)
    requires Ready(cfg, l, x, a) && (a.GiveUser? ==> x.user in l.userFree)
    ensures NextLocal(cfg, l, x, a).FreeFor(cfg, u) + (if u == x.user && HasUser(NextPc(cfg, redis, x, a)) then 1 else 0)
         == l.FreeFor(cfg, u) + (if u == x.user && HasUser(x.pc) then 1 else 0)
  {}

  lemma GlobalStep(cfg: Config, st: State, a: Action, w: nat)
    requires w < |st.workers| && GlobalExact(cfg, st, w) && Enabled(cfg, st, a)
    ensures GlobalExact(cfg, Apply(cfg, st, a), w)
  {
    CountStep(cfg, st, a, GlobalAt(w));
    if MovesTurn(a) && !a.Begin? {
      GlobalBalance(cfg, st.redis, st.LocalOf(a.t), st.turns[a.t], a);
    }
  }

  lemma UserStep(cfg: Config, st: State, a: Action, w: nat, u: User)
    requires w < |st.workers| && UserExact(cfg, st, w, u) && LocksKnown(st) && Enabled(cfg, st, a)
    ensures UserExact(cfg, Apply(cfg, st, a), w, u)
  {
    CountStep(cfg, st, a, UserAt(w, u));
    if MovesTurn(a) && !a.Begin? {
      UserBalance(cfg, st.redis, st.LocalOf(a.t), st.turns[a.t], a, u);
    }
  }

  lemma PermitsStep(cfg: Config, st: State, a: Action)
    requires PermitsExact(cfg, st) && LocksKnown(st) && Enabled(cfg, st, a)
    ensures PermitsExact(cfg, Apply(cfg, st, a))
  {
    var next := Apply(cfg, st, a);
    assert |next.workers| == |st.workers|;
    forall w: nat | w < |next.workers|
      ensures GlobalExact(cfg, next, w)
    {
      GlobalStep(cfg, st, a, w);
    }
    forall w: nat, u: User | w < |next.workers|
      ensures UserExact(cfg, next, w, u)
    {
      UserStep(cfg, st, a, w, u);
    }
  }

  /** In every run, whatever times out, is rejected, fails or expires. */
  lemma {:induction false} PermitsConservedFrom(cfg: Config, st: State, run: seq<Action>)
    requires PermitsExact(cfg, st) && LocksKnown(st) && Legal(cfg, st, run)
    ensures PermitsExact(cfg, After(cfg, st, run))
    decreases |run|
  {
    if run != [] {
      PermitsStep(cfg, st, run[0]);
      LocksStep(cfg, st, run[0]);
      PermitsConservedFrom(cfg, Apply(cfg, st, run[0]), run[1..]);
    }
  }

  lemma NoneHeld(p: Turn -> bool)
    ensures Count<TurnId, Turn>(map[], p) == 0
  {
    assert Matching<TurnId, Turn>(map[], p) == {};
  }

  lemma PermitsInit(cfg: Config, st: State)
    requires Init(cfg, st)
    ensures PermitsExact(cfg, st)
  {
    forall w: nat | w < |st.workers| ensures GlobalExact(cfg, st, w) {
      assert st.workers[w] in st.workers;
      NoneHeld(GlobalAt(w));
    }
    forall w: nat, u: User | w < |st.workers| ensures UserExact(cfg, st, w, u) {
      assert st.workers[w] in st.workers;
      NoneHeld(UserAt(w, u));
    }
  }

  /**
   After every run, on each worker: permits held equal the turns between taking and
   returning them, so no bound is exceeded, and if no turn is in progress all permits are back.
   */
  lemma PermitsConserved(cfg: Config, st: State, run: seq<Action>, w: nat, u: User)
    requires Init(cfg, st) && Legal(cfg, st, run) && w < |After(cfg, st, run).workers|
    ensures var end := After(cfg, st, run);
            var free, freeFor := end.workers[w].globalFree, end.workers[w].FreeFor(cfg, u);
            && free + Count(end.turns, GlobalAt(w)) == cfg.maxStreams
            && freeFor + Count(end.turns, UserAt(w, u)) == cfg.perUser
            && Count(end.turns, IssuedAt(w)) <= cfg.maxStreams
            && ((forall t <- end.turns :: end.turns[t].pc == Closed) ==> free == cfg.maxStreams && freeFor == cfg.perUser)
  {
    PermitsInit(cfg, st);
    PermitsConservedFrom(cfg, st, run);
    var end := After(cfg, st, run);
    assert GlobalExact(cfg, end, w) && UserExact(cfg, end, w, u);
    CountMonotone(end.turns, IssuedAt(w), GlobalAt(w));
    if forall t <- end.turns :: end.turns[t].pc == Closed {
      assert Matching(end.turns, GlobalAt(w)) == {};
      assert Matching(end.turns, UserAt(w, u)) == {};
    }
  }

  // ---------------------------------------------------------------------------
  // The Redis counters.

  /** Which program points know of a reservation. */
  predicate Fits(cfg: Config, x: Turn) {
    match x.pc
    case WantPublish => x.reserved
    case ReturnReservation => x.reserved
    case Live => x.reserved == cfg.redisEnabled
    case ReturnUser => true
    case ReturnGlobal => true
    case _ => !x.reserved
  }

  ghost predicate AllFit(cfg: Config, st: State) {
    forall t <- st.turns :: Fits(cfg, st.turns[t])
  }

  lemma FitStep(cfg: Config, st: State, a: Action)
    requires AllFit(cfg, st) && Enabled(cfg, st, a)
    requires a.Reserve? || a.Publish? || a.GiveReservation? ==> cfg.redisEnabled
    ensures AllFit(cfg, Apply(cfg, st, a))
  {
    if MovesTurn(a) {
      assert Fits(cfg, NextTurn(cfg, st, a));
    }
  }

  /** A counter key expires only while no turn holds a reservation of that counter; the other keys may expire at any time. */
  ghost predicate Harmless(st: State, a: Action) {
    && (a == Expire(ActiveKey) ==> forall t <- st.turns :: !st.turns[t].reserved)
    && (a.Expire? && a.key.UserKey? ==> forall t <- st.turns :: st.turns[t].user == a.key.u ==> !st.turns[t].reserved)
  }

  ghost predicate AllHarmless(cfg: Config, st: State, run: seq<Action>)
    requires Legal(cfg, st, run)
    decreases |run|
  {
    run == [] || (Harmless(st, run[0]) && AllHarmless(cfg, Apply(cfg, st, run[0]), run[1..]))
  }

  /** A permit of the global counter that an action loses: a failed call whose answer or effect went missing. */
  function Leak(cfg: Config, st: State, a: Action): nat
    requires Enabled(cfg, st, a)
  {
    match a
    case Reserve(t, fate) => if fate == FailedAfter && st.redis.Admits(cfg, st.turns[t].user) then 1 else 0
    case GiveReservation(t, fate) => if fate == FailedBefore then 1 else 0
    case _ => 0
  }

  function LeakFor(cfg: Config, st: State, a: Action, u: User): nat
    requires Enabled(cfg, st, a)
  {
    if (a.Reserve? || a.GiveReservation?) && st.turns[a.t].user == u then Leak(cfg, st, a) else 0
  }

  /** Permits lost and not recovered after one more action: an expiry of the counter recovers them all. */
  function Lost(cfg: Config, st: State, a: Action, lost: nat): nat
    requires Enabled(cfg, st, a)
  {
    if a == Expire(ActiveKey) then 0 else lost + Leak(cfg, st, a)
  }

  function LostFor(cfg: Config, st: State, a: Action, u: User, lost: nat): nat
    requires Enabled(cfg, st, a)
  {
    if a == Expire(UserKey(u)) then 0 else lost + LeakFor(cfg, st, a, u)
  }

  /** Permits lost and not recovered after a run, in all or for one user. */
  function Leaks(cfg: Config, st: State, run: seq<Action>, lost: nat): nat
    requires Legal(cfg, st, run)
    decreases |run|
  {
    if run == [] then lost else Leaks(cfg, Apply(cfg, st, run[0]), run[1..], Lost(cfg, st, run[0], lost))
  }

  function LeaksFor(cfg: Config, st: State, run: seq<Action>, u: User, lost: nat): nat
    requires Legal(cfg, st, run)
    decreases |run|
  {
    if run == [] then lost else LeaksFor(cfg, Apply(cfg, st, run[0]), run[1..], u, LostFor(cfg, st, run[0], u, lost))
  }

  ghost predicate CounterExact(cfg: Config, st: State, lost: nat) {
    Count(st.turns, Reserved()) + lost == st.redis.active <= cfg.maxStreams
  }

  ghost predicate UserCounterExact(cfg: Config, st: State, u: User, lost: nat) {
    Count(st.turns, ReservedFor(u)) + lost == Tally(st.redis.userActive, u) <= cfg.perUser
  }

  /** The reservation an action gains (or, if negative, gives back) for its turn. */
  function Gain(cfg: Config, st: State, a: Action): int
    requires Enabled(cfg, st, a)
  {
    if MovesTurn(a) then
      (if NextTurn(cfg, st, a).reserved then 1 else 0) - (if a.t in st.turns && st.turns[a.t].reserved then 1 else 0)
    else 0
  }

  /** The global counter moves by the reservation gained and the permit lost. */
  lemma CounterBalance(cfg: Config, st: State, a: Action)
    requires AllFit(cfg, st) && Enabled(cfg, st, a) && a != Expire(ActiveKey)
    requires a.GiveReservation? ==> st.redis.active > 0
    ensures var next := NextRedis(cfg, st, a).active;
            next == st.redis.active + Gain(cfg, st, a) + Leak(cfg, st, a) && (next > st.redis.active ==> next <= cfg.maxStreams)
  {
    if MovesTurn(a) && !a.Begin? {
      assert Fits(cfg, st.turns[a.t]);
    }
  }

  /** No action moves the counter of a user other than its turn's. */
  lemma OtherCounter(cfg: Config, st: State, a: Action, u: User)
    requires Enabled(cfg, st, a) && a != Expire(UserKey(u)) && (MovesTurn(a) && !a.Begin? ==> st.turns[a.t].user != u)
    ensures Tally(NextRedis(cfg, st, a).userActive, u) == Tally(st.redis.userActive, u)
  {}

  /** The same for one user's counter. */
  lemma UserCounterBalance(cfg: Config, st: State, a: Action, u: User)
    requires AllFit(cfg, st) && Enabled(cfg, st, a) && a != Expire(UserKey(u))
    requires a.GiveReservation? && st.turns[a.t].user == u ==> Tally(st.redis.userActive, u) > 0
    ensures var before, next := Tally(st.redis.userActive, u), Tally(NextRedis(cfg, st, a).userActive, u);
            var gain := if MovesTurn(a) && NextTurn(cfg, st, a).user == u then Gain(cfg, st, a) else 0;
            next == before + gain + LeakFor(cfg, st, a, u) && (next > before ==> next <= cfg.perUser)
  {
    if MovesTurn(a) && !a.Begin? && st.turns[a.t].user == u {
      assert Fits(cfg, st.turns[a.t]);
      hide AllFit;
    } else {
      OtherCounter(cfg, st, a, u);
      hide NextRedis, AllFit, Fits;
    }
  }

  lemma NoneMatch(turns: map<TurnId, Turn>, p: Turn -> bool)
    ensures Count(turns, p) == 0 <==> forall t <- turns :: !p(turns[t])
  {
    if t :| t in turns && p(turns[t]) {
      assert t in Matching(turns, p);
    } else {
      assert Matching(turns, p) == {};
    }
  }

  lemma CounterStep(cfg: Config, st: State, a: Action, lost: nat)
    requires AllFit(cfg, st) && Enabled(cfg, st, a) && Harmless(st, a) && CounterExact(cfg, st, lost)
    ensures CounterExact(cfg, Apply(cfg, st, a), Lost(cfg, st, a, lost))
  {
    if a == Expire(ActiveKey) {
      NoneMatch(st.turns, Reserved());
    } else {
      CountStep(cfg, st, a, Reserved());
      if a.GiveReservation? {
        assert Fits(cfg, st.turns[a.t]);
        assert a.t in Matching(st.turns, Reserved());
      }
      CounterBalance(cfg, st, a);
      hide Leak, NextRedis, NextWorkers, NextCancels;
    }
  }

  lemma UserExpiryStep(cfg: Config, st: State, u: User, lost: nat)
    requires Harmless(st, Expire(UserKey(u))) && UserCounterExact(cfg, st, u, lost)
    ensures UserCounterExact(cfg, Apply(cfg, st, Expire(UserKey(u))), u, 0)
  {
    NoneMatch(st.turns, ReservedFor(u));
  }

  lemma UserCounterStep(cfg: Config, st: State, a: Action, u: User, lost: nat)
    requires AllFit(cfg, st) && Enabled(cfg, st, a) && Harmless(st, a) && UserCounterExact(cfg, st, u, lost)
    ensures UserCounterExact(cfg, Apply(cfg, st, a), u, LostFor(cfg, st, a, u, lost))
  {
    if a == Expire(UserKey(u)) {
      UserExpiryStep(cfg, st, u, lost);
    } else {
      hide Harmless;
      CountStep(cfg, st, a, ReservedFor(u));
      if a.GiveReservation? {
        assert Fits(cfg, st.turns[a.t]);
        assert st.turns[a.t].user == u ==> a.t in Matching(st.turns, ReservedFor(u));
      }
      UserCounterBalance(cfg, st, a, u);
      hide LeakFor, NextRedis, NextWorkers, NextCancels;
    }
  }

  /**
   Exactly which expiries do no harm: after an expiry of the global counter it still stands
   for all reservations if and only if there were none, and then all lost permits are back.
   */
  lemma ExpiryHarmlessIff(cfg: Config, st: State, lost: nat)
    requires CounterExact(cfg, st, lost)
    ensures var end := Apply(cfg, st, Expire(ActiveKey));
            && (Count(end.turns, Reserved()) <= end.redis.active <==> Harmless(st, Expire(ActiveKey)))
            && (Harmless(st, Expire(ActiveKey)) ==> CounterExact(cfg, end, 0))
  {
    NoneMatch(st.turns, Reserved());
  }

  lemma {:induction false} CountersConservedFrom(cfg: Config, st: State, run: seq<Action>, u: User, lost: nat, lostFor: nat)
    requires cfg.redisEnabled && AllFit(cfg, st) && Legal(cfg, st, run)
    requires CounterExact(cfg, st, lost) && UserCounterExact(cfg, st, u, lostFor)
    requires AllHarmless(cfg, st, run)
    ensures var end := After(cfg, st, run);
            && AllFit(cfg, end)
            && CounterExact(cfg, end, Leaks(cfg, st, run, lost))
            && UserCounterExact(cfg, end, u, LeaksFor(cfg, st, run, u, lostFor))
    decreases |run|
  {
    if run != [] {
      var a := run[0];
      FitStep(cfg, st, a);
      CounterStep(cfg, st, a, lost);
      UserCounterStep(cfg, st, a, u, lostFor);
      CountersConservedFrom(cfg, Apply(cfg, st, a), run[1..], u, Lost(cfg, st, a, lost), LostFor(cfg, st, a, u, lostFor));
    }
  }

  /**
   Cross-worker admission fails safe.  In every run in which no counter expires while a turn
   holds a reservation of it, and with any Redis call failing before or after its effect,
   each counter exceeds the reservations it stands for by exactly the permits lost to failed
   calls since its last expiry.  So the issued leases of all workers together stay within
   the caps.
   */
  lemma CapsHold(cfg: Config, st: State, run: seq<Action>, u: User)
    requires cfg.redisEnabled && Init(cfg, st) && Legal(cfg, st, run)
    requires AllHarmless(cfg, st, run)
    ensures var end := After(cfg, st, run);
            && Count(end.turns, Reserved()) + Leaks(cfg, st, run, 0) == end.redis.active
            && Count(end.turns, ReservedFor(u)) + LeaksFor(cfg, st, run, u, 0) == Tally(end.redis.userActive, u)
            && Count(end.turns, Issued()) <= end.redis.active <= cfg.maxStreams
            && Count(end.turns, IssuedTo(u)) <= Tally(end.redis.userActive, u) <= cfg.perUser
  {
    NoneHeld(Reserved());
    NoneHeld(ReservedFor(u));
    CountersConservedFrom(cfg, st, run, u, 0, 0);
    var end := After(cfg, st, run);
    CountMonotone(end.turns, Issued(), Reserved());
    CountMonotone(end.turns, IssuedTo(u), ReservedFor(u));
  }

  /**
   Admission is exact.  In every such run, an answered admission is refused if and only if
   reservations and lost permits together have used up the global cap or the user's.
   */
  lemma RefusedIff(cfg: Config, st: State, run: seq<Action>, t: TurnId)
    requires cfg.redisEnabled && Init(cfg, st) && Legal(cfg, st, run) && AllHarmless(cfg, st, run)
    requires Enabled(cfg, After(cfg, st, run), Reserve(t, Answered))
    ensures var before, u := After(cfg, st, run), After(cfg, st, run).turns[t].user;
            var end := Apply(cfg, before, Reserve(t, Answered));
            && end.turns[t].pc in {ReturnUser, WantPublish}
            && (end.turns[t].pc == ReturnUser <==>
                  || Count(before.turns, Reserved()) + Leaks(cfg, st, run, 0) == cfg.maxStreams
                  || Count(before.turns, ReservedFor(u)) + LeaksFor(cfg, st, run, u, 0) == cfg.perUser)
  {
    var before := After(cfg, st, run);
    CapsHold(cfg, st, run, before.turns[t].user);
    hide Count, Legal, After, Leaks, LeaksFor, AllHarmless;
  }

  // ---------------------------------------------------------------------------
  // When counters expire.

  function AtWorker(q: Turn -> bool, w: nat): Turn -> bool {
    (x: Turn) => q(x) && x.worker == w
  }

  function BelowWorker(q: Turn -> bool, n: nat): Turn -> bool {
    (x: Turn) => q(x) && x.worker < n
  }

  lemma {:induction false} SumOverWorkers(turns: map<TurnId, Turn>, q: Turn -> bool, n: nat, b: nat)
    requires forall w: nat | w < n :: Count(turns, AtWorker(q, w)) <= b
    ensures Count(turns, BelowWorker(q, n)) <= n * b
  {
    if n == 0 {
      assert Matching(turns, BelowWorker(q, 0)) == {};
    } else {
      SumOverWorkers(turns, q, n - 1, b);
      OneMoreWorker(turns, q, n - 1);
      DistributeLeft(n, 1, b);
      hide Matching, BelowWorker, AtWorker;
    }
  }

  lemma OneMoreWorker(turns: map<TurnId, Turn>, q: Turn -> bool, w: nat)
    ensures Count(turns, BelowWorker(q, w + 1)) == Count(turns, BelowWorker(q, w)) + Count(turns, AtWorker(q, w))
  {
    var below, at := Matching(turns, BelowWorker(q, w)), Matching(turns, AtWorker(q, w));
    forall t ensures t in Matching(turns, BelowWorker(q, w + 1)) <==> t in below + at {
    }
    assert Matching(turns, BelowWorker(q, w + 1)) == below + at && below !! at;
  }

  /**
   Without any assumption on expiry the local semaphores still bound the issued leases: by
   the caps times the number of workers.
   */
  lemma WorkersBound(cfg: Config, st: State, run: seq<Action>, u: User)
    requires Init(cfg, st) && Legal(cfg, st, run)
    ensures var end := After(cfg, st, run);
            && Count(end.turns, Issued()) <= |st.workers| * cfg.maxStreams
            && Count(end.turns, IssuedTo(u)) <= |st.workers| * cfg.perUser
  {
    PermitsInit(cfg, st);
    PermitsConservedFrom(cfg, st, run);
    LocksAlwaysKnown(cfg, st, run);
    WorkersStay(cfg, st, run);
    var end, n := After(cfg, st, run), |st.workers|;
    forall w: nat | w < n
      ensures Count(end.turns, AtWorker(Issued(), w)) <= cfg.maxStreams
      ensures Count(end.turns, AtWorker(IssuedTo(u), w)) <= cfg.perUser
    {
      assert GlobalExact(cfg, end, w) && UserExact(cfg, end, w, u);
      CountMonotone(end.turns, AtWorker(Issued(), w), GlobalAt(w));
      CountMonotone(end.turns, AtWorker(IssuedTo(u), w), UserAt(w, u));
    }
    hide PermitsExact, Init, Legal, After;
    SumOverWorkers(end.turns, Issued(), n, cfg.maxStreams);
    SumOverWorkers(end.turns, IssuedTo(u), n, cfg.perUser);
    CountMonotone(end.turns, Issued(), BelowWorker(Issued(), n));
    CountMonotone(end.turns, IssuedTo(u), BelowWorker(IssuedTo(u), n));
  }

  lemma {:induction false} WorkersStay(cfg: Config, st: State, run: seq<Action>)
    requires Legal(cfg, st, run)
    ensures |After(cfg, st, run).workers| == |st.workers|
    decreases |run|
  {
    if run != [] {
      Identity(cfg, st, run[0]);
      WorkersStay(cfg, Apply(cfg, st, run[0]), run[1..]);
    }
  }
}
