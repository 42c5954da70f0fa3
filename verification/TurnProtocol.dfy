/**
 The turn coordinator of core/concurrency.py as a state machine.

 Several workers run the same coordinator code.  Each worker owns a process-local part
 (semaphores, generation slots, cancellation slots), and all of them share one Redis
 state.  Every atomic section of the code -- a semaphore operation, a block under the
 guard lock, one Lua script, one SET -- is one action here, so that actions of other
 calls and other workers can come between any two sections of the same call.
 */
module TurnProtocol {

  type Session = string
  type User = string
  type RunId = string
  type TurnId = nat
  type CancelId = nat

  /** `dict.get(key) == value`, for a value that is not None. */
  predicate Holds(m: map<string, string>, key: string, value: string) {
    key in m && m[key] == value
  }

  /** A Redis counter, where a missing key counts as zero. */
  function Tally(m: map<User, nat>, u: User): nat {
    if u in m then m[u] else 0
  }

  datatype Config = Config(maxStreams: nat, perUser: nat, redisEnabled: bool)

  // ---------------------------------------------------------------------------
  // The process-local part of one worker, and its sections under the guard lock.

  datatype Local = Local(
    globalFree: nat,
    userFree: map<User, nat>,
    generations: map<Session, RunId>,
    cancelled: map<Session, RunId>)
  {
    /** Free permits of a user; a user without a semaphore would get a full one. */
    function FreeFor(cfg: Config, u: User): nat {
      if u in userFree then userFree[u] else cfg.perUser
    }

    function WithUserFree(u: User, n: nat): Local {
      this.(userFree := userFree[u := n])
    }

    predicate HasBoth(cfg: Config, u: User) {
      globalFree > 0 && FreeFor(cfg, u) > 0
    }

    function TakeBoth(cfg: Config, u: User): Local
      requires HasBoth(cfg, u)
    {
      this.(globalFree := globalFree - 1).WithUserFree(u, FreeFor(cfg, u) - 1)
    }

    /** A user permit goes back to the user's semaphore, if there is one. */
    function GiveUser(u: User): Local {
      if u in userFree then WithUserFree(u, userFree[u] + 1) else this
    }

    function Returned(u: User): Local {
      GiveUser(u).(globalFree := globalFree + 1)
    }

    /** Second guard block of `acquire`. */
    function Install(s: Session, r: RunId): Local {
      Unmark(s, r).(generations := generations[s := r])
    }

    /** Pops the marker of `s` if it names `r`. */
    function Unmark(s: Session, r: RunId): Local {
      if Holds(cancelled, s, r) then this.(cancelled := cancelled - {s}) else this
    }

    /** Guard block of `cancel`, for a run that holds the local slot. */
    function Mark(s: Session, r: RunId): Local {
      this.(cancelled := cancelled[s := r])
    }

    /** Whether `supersede` finds a run to replace. */
    predicate Supersedes(s: Session, next: RunId) {
      s in generations && generations[s] != "" && generations[s] != next
    }

    /** `supersede`, a single guard block. */
    function Supersede(s: Session, next: RunId): Local {
      if Supersedes(s, next)
      then this.(cancelled := cancelled[s := generations[s]], generations := generations[s := next])
      else this
    }
  }

  // ---------------------------------------------------------------------------
  // The shared Redis state and the commands sent to it.

  datatype Shared = Shared(
    active: nat,
    userActive: map<User, nat>,
    generations: map<Session, RunId>,
    cancelled: map<Session, RunId>)
  {
    predicate Admits(cfg: Config, u: User) {
      active + 1 <= cfg.maxStreams && Tally(userActive, u) + 1 <= cfg.perUser
    }

    /** The admission script: both counters go up, or neither does. */
    function Reserve(cfg: Config, u: User): Shared {
      if Admits(cfg, u)
      then this.(active := active + 1, userActive := userActive[u := Tally(userActive, u) + 1])
      else this.(userActive := userActive[u := Tally(userActive, u)])
    }

    /** The teardown script: each counter goes down unless it is already zero. */
    function GiveBack(u: User): Shared {
      this.(active := if active > 0 then active - 1 else 0,
            userActive := if Tally(userActive, u) > 0 then userActive[u := Tally(userActive, u) - 1] else userActive)
    }

    function Publish(s: Session, r: RunId): Shared {
      this.(generations := generations[s := r])
    }

    /** The cancel script: marks `r` only while it is the published generation. */
    function CancelIfCurrent(s: Session, r: RunId): Shared {
      if Holds(generations, s, r) then this.(cancelled := cancelled[s := r]) else this
    }

    /** What an `acquire` leaves that fails at Redis: at the admission, or at the SET with the reservation given back. */
    function Failed(cfg: Config, u: User, s: Session, r: RunId, admit: Fate, publish: Fate, giveBack: Fate): Shared {
      if admit == Answered then
        var published := Effect(publish, Reserve(cfg, u), Reserve(cfg, u).Publish(s, r));
        Effect(giveBack, published, published.GiveBack(u))
      else Effect(admit, this, Reserve(cfg, u))
    }

    function Expire(k: Key): Shared {
      match k
      case ActiveKey => this.(active := 0)
      case UserKey(u) => this.(userActive := userActive - {u})
      case GenerationKey(s) => this.(generations := generations - {s})
      case CancelKey(s) => this.(cancelled := cancelled - {s})
    }
  }

  datatype Key = ActiveKey | UserKey(u: User) | GenerationKey(s: Session) | CancelKey(s: Session)

  /** What a caller of Redis sees: an answer, or an error raised before or after the command took effect. */
  datatype Fate = Answered | FailedBefore | FailedAfter

  /** What the sections under the guard lock do to the slots: to the session they are about, and to nothing else. */
  lemma SlotsMean(l: Local, s: Session, r: RunId, x: Session, y: RunId)
    ensures Holds(l.Install(s, r).generations, x, y) <==> if x == s then y == r else Holds(l.generations, x, y)
    ensures Holds(l.Install(s, r).cancelled, x, y) <==> Holds(l.cancelled, x, y) && !(x == s && y == r)
    ensures Holds(l.Unmark(s, r).cancelled, x, y) <==> Holds(l.cancelled, x, y) && !(x == s && y == r)
    ensures Holds(l.Mark(s, r).cancelled, x, y) <==> if x == s then y == r else Holds(l.cancelled, x, y)
    ensures l.Unmark(s, r).generations == l.generations == l.Mark(s, r).generations
    ensures var found := s in l.generations && l.generations[s] != "" && l.generations[s] != r;
            && (Holds(l.Supersede(s, r).generations, x, y) <==> if found && x == s then y == r else Holds(l.generations, x, y))
            && (Holds(l.Supersede(s, r).cancelled, x, y) <==>
                  if found && x == s then y == l.generations[s] else Holds(l.cancelled, x, y))
  {}

  /** What taking and returning permits does, to the user it is about and to every other one. */
  lemma PermitsMean(cfg: Config, l: Local, u: User, v: User)
    ensures l.FreeFor(cfg, u) == if u in l.userFree then l.userFree[u] else cfg.perUser
    ensures l.HasBoth(cfg, u) <==> l.globalFree > 0 && l.FreeFor(cfg, u) > 0
    ensures l.HasBoth(cfg, u) ==>
              && l.TakeBoth(cfg, u).globalFree == l.globalFree - 1
              && l.TakeBoth(cfg, u).FreeFor(cfg, v) == l.FreeFor(cfg, v) - (if v == u then 1 else 0)
              && l.TakeBoth(cfg, u).generations == l.generations && l.TakeBoth(cfg, u).cancelled == l.cancelled
    ensures l.Returned(u).globalFree == l.globalFree + 1
    ensures l.Returned(u).FreeFor(cfg, v) == l.FreeFor(cfg, v) + (if v == u && u in l.userFree then 1 else 0)
    ensures l.Returned(u).generations == l.generations && l.Returned(u).cancelled == l.cancelled
  {}

  /** What the Redis commands do, to the keys they are about and to no others. */
  lemma CommandsMean(cfg: Config, k: Shared, u: User, v: User, s: Session, r: RunId, x: Session, y: RunId)
    ensures k.Admits(cfg, u) <==> k.active < cfg.maxStreams && Tally(k.userActive, u) < cfg.perUser
    ensures var one := if k.active < cfg.maxStreams && Tally(k.userActive, u) < cfg.perUser then 1 else 0;
            && k.Reserve(cfg, u).active == k.active + one
            && Tally(k.Reserve(cfg, u).userActive, v) == Tally(k.userActive, v) + (if v == u then one else 0)
    ensures k.GiveBack(u).active == if k.active > 0 then k.active - 1 else 0
    ensures Tally(k.GiveBack(u).userActive, v)
         == if v == u && Tally(k.userActive, u) > 0 then Tally(k.userActive, u) - 1 else Tally(k.userActive, v)
    ensures Holds(k.Publish(s, r).generations, x, y) <==> if x == s then y == r else Holds(k.generations, x, y)
    ensures Holds(k.CancelIfCurrent(s, r).cancelled, x, y) <==>
              if x == s && Holds(k.generations, s, r) then y == r else Holds(k.cancelled, x, y)
    ensures Tally(k.userActive, v) == if v in k.userActive then k.userActive[v] else 0
  {}

  // ---------------------------------------------------------------------------
  // Calls in progress.

  /** Where one turn stands between the start of `acquire` and the end of `release`. */
  datatype Pc =
    | WantGlobal          // waits for the global semaphore
    | WantUserLock        // looks up the user's semaphore
    | WantUser            // waits for the user's semaphore
    | UserTimedOut        // has to return the global permit
    | WantInstall         // takes over the local generation slot
    | WantReserve         // sends the admission script
    | WantPublish         // sends the SET of the generation key
    | Live                // the lease is issued
    | ReturnUser          // returns the user permit (failed acquire, or release)
    | ReturnGlobal        // returns the global permit
    | ReturnReservation   // sends the teardown script
    | Closed

  datatype Turn = Turn(worker: nat, session: Session, user: User, run: RunId, pc: Pc, reserved: bool)

  datatype CancelStage = Asking | CleaningUp

  /** A `cancel` call that has set the local marker and still has to talk to Redis or to undo the marker. */
  datatype Cancel = Cancel(worker: nat, session: Session, run: RunId, stage: CancelStage)

  datatype State = State(
    workers: seq<Local>,
    redis: Shared,
    turns: map<TurnId, Turn>,
    cancels: map<CancelId, Cancel>)
  {
    predicate At(t: TurnId, pc: Pc) {
      t in turns && turns[t].pc == pc && turns[t].worker < |workers|
    }

    function LocalOf(t: TurnId): Local
      requires t in turns && turns[t].worker < |workers|
    {
      workers[turns[t].worker]
    }

    /** No turn of this session has used the run id yet. */
    predicate FreshRun(s: Session, r: RunId) {
      forall t <- turns :: turns[t].session == s ==> turns[t].run != r
    }
  }

  datatype Action =
    | Begin(t: TurnId, worker: nat, session: Session, user: User, run: RunId)
    | TakeGlobal(t: TurnId)
    | GlobalTimeout(t: TurnId)
    | FindUserLock(t: TurnId)
    | TakeUser(t: TurnId)
    | UserTimeout(t: TurnId)
    | UndoGlobal(t: TurnId)
    | Install(t: TurnId)
    | Reserve(t: TurnId, fate: Fate)
    | Publish(t: TurnId, fate: Fate)
    | BeginRelease(t: TurnId)
    | GiveUser(t: TurnId)
    | GiveGlobal(t: TurnId)
    | GiveReservation(t: TurnId, fate: Fate)
    | CancelMark(c: CancelId, worker: nat, session: Session, run: RunId)
    | CancelAsk(c: CancelId, fate: Fate)
    | CancelCleanUp(c: CancelId)
    | Supersede(worker: nat, session: Session, next: RunId)
    | Expire(key: Key)

  // ---------------------------------------------------------------------------
  // Which actions can happen, and what they do.

  /** The program point at which a turn takes an action. */
  function FromPc(a: Action): Pc {
    match a
    case TakeGlobal(_) => WantGlobal
    case GlobalTimeout(_) => WantGlobal
    case FindUserLock(_) => WantUserLock
    case TakeUser(_) => WantUser
    case UserTimeout(_) => WantUser
    case UndoGlobal(_) => UserTimedOut
    case Install(_) => WantInstall
    case Reserve(_, _) => WantReserve
    case Publish(_, _) => WantPublish
    case BeginRelease(_) => Live
    case GiveUser(_) => ReturnUser
    case GiveGlobal(_) => ReturnGlobal
    case GiveReservation(_, _) => ReturnReservation
    case _ => Closed
  }

  /** A semaphore hands out a permit if it has one; a wait times out only when it finds none. */
  predicate Guard(cfg: Config, l: Local, u: User, a: Action) {
    match a
    case TakeGlobal(_) => l.globalFree > 0
    case GlobalTimeout(_) => l.globalFree == 0
    case TakeUser(_) => l.FreeFor(cfg, u) > 0
    case UserTimeout(_) => l.FreeFor(cfg, u) == 0
    case _ => true
  }

  /**
   A turn starts with an id that no turn of its session has used.  A supersede may announce
   any non-empty id, also one that a turn already uses.
   */
  predicate Enabled(cfg: Config, st: State, a: Action) {
    match a
    case Begin(t, w, s, u, r) => t !in st.turns && w < |st.workers| && r != "" && st.FreshRun(s, r)
    case CancelMark(c, w, s, r) => c !in st.cancels && w < |st.workers|
    case CancelAsk(c, _) => c in st.cancels && st.cancels[c].stage == Asking
    case CancelCleanUp(c) => c in st.cancels && st.cancels[c].stage == CleaningUp && st.cancels[c].worker < |st.workers|
    case Supersede(w, s, next) => w < |st.workers| && next != ""
    case Expire(_) => true
    case _ => st.At(a.t, FromPc(a)) && Guard(cfg, st.LocalOf(a.t), st.turns[a.t].user, a)
  }

  /** Whether an action moves a turn, namely `a.t`. */
  predicate MovesTurn(a: Action) {
    !a.CancelMark? && !a.CancelAsk? && !a.CancelCleanUp? && !a.Supersede? && !a.Expire?
  }

  /** Where a turn goes next. */
  function NextPc(cfg: Config, redis: Shared, x: Turn, a: Action): Pc {
    match a
    case Begin(_, _, _, _, _) => WantGlobal
    case TakeGlobal(_) => WantUserLock
    case GlobalTimeout(_) => Closed
    case FindUserLock(_) => WantUser
    case TakeUser(_) => WantInstall
    case UserTimeout(_) => UserTimedOut
    case UndoGlobal(_) => Closed
    case Install(_) => if cfg.redisEnabled then WantReserve else Live
    case Reserve(_, fate) => if fate == Answered && redis.Admits(cfg, x.user) then WantPublish else ReturnUser
    case Publish(_, fate) => if fate == Answered then Live else ReturnUser
    case BeginRelease(_) => ReturnUser
    case GiveUser(_) => ReturnGlobal
    case GiveGlobal(_) => if x.reserved then ReturnReservation else Closed
    case _ => Closed
  }

  /** Whether the code knows of a Redis reservation it has to give back. */
  function NextReserved(cfg: Config, redis: Shared, x: Turn, a: Action): bool {
    match a
    case Reserve(_, fate) => fate == Answered && redis.Admits(cfg, x.user)
    case GiveReservation(_, _) => false
    case _ => x.reserved
  }

  function NextTurn(cfg: Config, st: State, a: Action): Turn
    requires Enabled(cfg, st, a) && MovesTurn(a)
  {
    if a.Begin? then Turn(a.worker, a.session, a.user, a.run, WantGlobal, false)
    else
      var x := st.turns[a.t];
      x.(pc := NextPc(cfg, st.redis, x, a), reserved := NextReserved(cfg, st.redis, x, a))
  }

  /** The effect of a turn's own section on the process-local state of its worker. */
  function NextLocal(cfg: Config, l: Local, x: Turn, a: Action): Local
    requires Guard(cfg, l, x.user, a)
  {
    match a
    case TakeGlobal(_) => l.(globalFree := l.globalFree - 1)
    case FindUserLock(_) => l.WithUserFree(x.user, l.FreeFor(cfg, x.user))
    case TakeUser(_) => l.WithUserFree(x.user, l.FreeFor(cfg, x.user) - 1)
    case UndoGlobal(_) => l.(globalFree := l.globalFree + 1)
    case Install(_) => l.Install(x.session, x.run)
    case BeginRelease(_) => l.Unmark(x.session, x.run)
    case GiveUser(_) => l.GiveUser(x.user)
    case GiveGlobal(_) => l.(globalFree := l.globalFree + 1)
    case _ => l
  }

  function NextWorkers(cfg: Config, st: State, a: Action): seq<Local>
    requires Enabled(cfg, st, a)
  {
    match a
    case Begin(_, _, _, _, _) => st.workers
    case Expire(_) => st.workers
    case CancelAsk(_, _) => st.workers
    case CancelMark(_, w, s, r) =>
      if Holds(st.workers[w].generations, s, r) then st.workers[w := st.workers[w].Mark(s, r)] else st.workers
    case CancelCleanUp(c) =>
      var x := st.cancels[c];
      st.workers[x.worker := st.workers[x.worker].Unmark(x.session, x.run)]
    case Supersede(w, s, next) => st.workers[w := st.workers[w].Supersede(s, next)]
    case _ =>
      var x := st.turns[a.t];
      st.workers[x.worker := NextLocal(cfg, st.workers[x.worker], x, a)]
  }

  /** What a Redis call leaves behind: nothing if it failed before taking effect. */
  function Effect(fate: Fate, before: Shared, after: Shared): Shared {
    if fate == FailedBefore then before else after
  }

  function NextRedis(cfg: Config, st: State, a: Action): Shared
    requires Enabled(cfg, st, a)
  {
    match a
    case Reserve(t, fate) => Effect(fate, st.redis, st.redis.Reserve(cfg, st.turns[t].user))
    case Publish(t, fate) => Effect(fate, st.redis, st.redis.Publish(st.turns[t].session, st.turns[t].run))
    case GiveReservation(t, fate) => Effect(fate, st.redis, st.redis.GiveBack(st.turns[t].user))
    case CancelAsk(c, fate) => Effect(fate, st.redis, st.redis.CancelIfCurrent(st.cancels[c].session, st.cancels[c].run))
    case Expire(key) => st.redis.Expire(key)
    case _ => st.redis
  }

  /** An answer of 0 leaves the call with its marker to undo; an error or an answer of 1 ends it. */
  function NextCancels(cfg: Config, st: State, a: Action): map<CancelId, Cancel>
    requires Enabled(cfg, st, a)
  {
    match a
    case CancelMark(c, w, s, r) =>
      if cfg.redisEnabled && Holds(st.workers[w].generations, s, r)
      then st.cancels[c := Cancel(w, s, r, Asking)] else st.cancels
    case CancelAsk(c, fate) =>
      var x := st.cancels[c];
      if fate == Answered && !Holds(st.redis.generations, x.session, x.run)
      then st.cancels[c := x.(stage := CleaningUp)] else st.cancels - {c}
    case CancelCleanUp(c) => st.cancels - {c}
    case _ => st.cancels
  }

  function Apply(cfg: Config, st: State, a: Action): State
    requires Enabled(cfg, st, a)
  {
    State(
      NextWorkers(cfg, st, a),
      NextRedis(cfg, st, a),
      if MovesTurn(a) then st.turns[a.t := NextTurn(cfg, st, a)] else st.turns,
      NextCancels(cfg, st, a))
  }

  /** A turn keeps its worker, session, user and run id. */
  predicate SameTurn(x: Turn, y: Turn) {
    x.worker == y.worker && x.session == y.session && x.user == y.user && x.run == y.run
  }

  /** What no action changes: the workers there are, and whose turn a turn is. */
  lemma Identity(cfg: Config, st: State, a: Action)
    requires Enabled(cfg, st, a)
    ensures var end := Apply(cfg, st, a);
            && |end.workers| == |st.workers|
            && (if a.Begin?
                then end.turns == st.turns[a.t := Turn(a.worker, a.session, a.user, a.run, WantGlobal, false)]
                else end.turns.Keys == st.turns.Keys && forall t <- st.turns :: SameTurn(st.turns[t], end.turns[t]))
  {}

  // ---------------------------------------------------------------------------
  // Runs.

  predicate Init(cfg: Config, st: State) {
    && (forall l <- st.workers :: l == Local(cfg.maxStreams, map[], map[], map[]))
    && st.redis == Shared(0, map[], map[], map[])
    && st.turns == map[]
    && st.cancels == map[]
  }

  predicate Legal(cfg: Config, st: State, run: seq<Action>)
    decreases |run|
  {
    run == [] || (Enabled(cfg, st, run[0]) && Legal(cfg, Apply(cfg, st, run[0]), run[1..]))
  }

  function After(cfg: Config, st: State, run: seq<Action>): State
    requires Legal(cfg, st, run)
    decreases |run|
  {
    if run == [] then st else After(cfg, Apply(cfg, st, run[0]), run[1..])
  }

  /** A run can be extended at its end. */
  lemma {:induction false} Extend(cfg: Config, st: State, run: seq<Action>, a: Action)
    requires Legal(cfg, st, run) && Enabled(cfg, After(cfg, st, run), a)
    ensures Legal(cfg, st, run + [a])
    ensures After(cfg, st, run + [a]) == Apply(cfg, After(cfg, st, run), a)
    decreases |run|
  {
    if run == [] {
      assert (run + [a])[1..] == [];
    } else {
      Extend(cfg, Apply(cfg, st, run[0]), run[1..], a);
      assert (run + [a])[1..] == run[1..] + [a];
    }
  }

  lemma OneStep(cfg: Config, st: State, a: Action)
    requires Enabled(cfg, st, a)
    ensures Legal(cfg, st, [a]) && After(cfg, st, [a]) == Apply(cfg, st, a)
  {
    Extend(cfg, st, [], a);
    assert [] + [a] == [a];
  }

  ghost predicate Reaches(cfg: Config, st: State, run: seq<Action>, end: State) {
    Legal(cfg, st, run) && After(cfg, st, run) == end
  }

  lemma Step(cfg: Config, st: State, run: seq<Action>, mid: State, a: Action)
    requires Reaches(cfg, st, run, mid) && Enabled(cfg, mid, a)
    ensures Reaches(cfg, st, run + [a], Apply(cfg, mid, a))
  {
    Extend(cfg, st, run, a);
  }

  // ---------------------------------------------------------------------------
  // One call running on its own, seen from the state in which it began.

  /** `st` after turn `t` of worker `w` alone has changed it. */
  function Alone(st: State, t: TurnId, x: Turn, w: nat, l: Local, r: Shared): State
    requires w < |st.workers|
  {
    State(st.workers[w := l], r, st.turns[t := x], st.cancels)
  }

  /** A call begins. */
  lemma Beginning(cfg: Config, st: State, t: TurnId, x: Turn, w: nat)
    requires x == Turn(w, x.session, x.user, x.run, WantGlobal, false)
    requires Enabled(cfg, st, Begin(t, w, x.session, x.user, x.run))
    ensures Reaches(cfg, st, [Begin(t, w, x.session, x.user, x.run)], Alone(st, t, x, w, st.workers[w], st.redis))
  {
    OneStep(cfg, st, Begin(t, w, x.session, x.user, x.run));
  }

  /** What a section of a turn does to Redis. */
  function SectionRedis(cfg: Config, r: Shared, x: Turn, a: Action): Shared {
    match a
    case Reserve(_, fate) => Effect(fate, r, r.Reserve(cfg, x.user))
    case Publish(_, fate) => Effect(fate, r, r.Publish(x.session, x.run))
    case GiveReservation(_, fate) => Effect(fate, r, r.GiveBack(x.user))
    case _ => r
  }

  lemma SectionEffect(cfg: Config, st: State, t: TurnId, x: Turn, w: nat, l: Local, r: Shared, a: Action)
    requires w < |st.workers| && MovesTurn(a) && !a.Begin? && a.t == t
    requires x.worker == w && x.pc == FromPc(a) && Guard(cfg, l, x.user, a)
    ensures var now := Alone(st, t, x, w, l, r);
            && Enabled(cfg, now, a)
            && Apply(cfg, now, a)
            == Alone(st, t, x.(pc := NextPc(cfg, r, x, a), reserved := NextReserved(cfg, r, x, a)),
                     w, NextLocal(cfg, l, x, a), SectionRedis(cfg, r, x, a))
  {
    var now := Alone(st, t, x, w, l, r);
    assert now.turns[t] == x && now.LocalOf(t) == l;
    assert NextWorkers(cfg, now, a) == st.workers[w := NextLocal(cfg, l, x, a)];
  }

  /** A section extends the run of its call. */
  lemma Section(cfg: Config, st: State, run: seq<Action>, t: TurnId, x: Turn, w: nat, l: Local, r: Shared, a: Action)
    requires w < |st.workers| && MovesTurn(a) && !a.Begin? && a.t == t
    requires x.worker == w && x.pc == FromPc(a) && Guard(cfg, l, x.user, a)
    requires Reaches(cfg, st, run, Alone(st, t, x, w, l, r))
    ensures Reaches(cfg, st, run + [a],
                    Alone(st, t, x.(pc := NextPc(cfg, r, x, a), reserved := NextReserved(cfg, r, x, a)),
                          w, NextLocal(cfg, l, x, a), SectionRedis(cfg, r, x, a)))
  {
    SectionEffect(cfg, st, t, x, w, l, r, a);
    Step(cfg, st, run, Alone(st, t, x, w, l, r), a);
  }

  // ---------------------------------------------------------------------------
  // What the worker of a live turn is told about it.

  /** `is_current`: fails closed when Redis does not answer. */
  predicate IsCurrent(cfg: Config, st: State, t: TurnId, redisUp: bool)
    requires t in st.turns && st.turns[t].worker < |st.workers|
  {
    var x := st.turns[t];
    && Holds(st.LocalOf(t).generations, x.session, x.run)
    && (cfg.redisEnabled ==> redisUp && Holds(st.redis.generations, x.session, x.run))
  }

  /** `is_cancelled`: only the local marker counts when Redis does not answer. */
  predicate IsCancelled(cfg: Config, st: State, t: TurnId, redisUp: bool)
    requires t in st.turns && st.turns[t].worker < |st.workers|
  {
    var x := st.turns[t];
    || Holds(st.LocalOf(t).cancelled, x.session, x.run)
    || (cfg.redisEnabled && redisUp && Holds(st.redis.cancelled, x.session, x.run))
  }
}
