/**
 Runs the coordinator's code allows: why the cap theorem needs counters that do not expire,
 and how a stop can be undone, by a stale clean-up or by a duplicate request.
 */
module TurnScenarios {
  import opened Arithmetic
  import opened Counting
  import opened TurnProtocol
  import opened TurnPermits
  import opened TurnCancellation

  lemma {:induction false} Then(cfg: Config, st: State, run: seq<Action>, mid: State, more: seq<Action>, end: State)
    requires Reaches(cfg, st, run, mid) && Reaches(cfg, mid, more, end)
    ensures Reaches(cfg, st, run + more, end)
    decreases |run|
  {
    if run == [] {
      assert run + more == more;
    } else {
      Then(cfg, Apply(cfg, st, run[0]), run[1..], mid, more, end);
      assert (run + more)[1..] == run[1..] + more;
    }
  }

  /** No `cancel`, no `supersede` and no expiry. */
  predicate OnlyMoves(run: seq<Action>) {
    forall a <- run :: MovesTurn(a)
  }

  /** The local sections of an `acquire` that finds both permits: it owns the local slot and has not asked Redis. */
  lemma LocalAcquire(cfg: Config, st: State, t: TurnId, w: nat, s: Session, u: User, r: RunId)
    returns (run: seq<Action>, end: State)
    requires cfg.redisEnabled && Enabled(cfg, st, Begin(t, w, s, u, r)) && st.workers[w].HasBoth(cfg, u)
    ensures Reaches(cfg, st, run, end) && OnlyMoves(run)
    ensures end == Alone(st, t, Turn(w, s, u, r, WantReserve, false), w, st.workers[w].TakeBoth(cfg, u).Install(s, r), st.redis)
  {
    var x, l, k := Turn(w, s, u, r, WantGlobal, false), st.workers[w], st.redis;
    Beginning(cfg, st, t, x, w);
    run := [Begin(t, w, s, u, r)];
    hide Reaches, Enabled, Apply, Alone;
    Section(cfg, st, run, t, x, w, l, k, TakeGlobal(t));
    var l1 := l.(globalFree := l.globalFree - 1);
    Section(cfg, st, run + [TakeGlobal(t)], t, x.(pc := WantUserLock), w, l1, k, FindUserLock(t));
    var l2 := l1.WithUserFree(u, l1.FreeFor(cfg, u));
    assert l2.WithUserFree(u, l2.FreeFor(cfg, u) - 1) == l.TakeBoth(cfg, u) && l2.FreeFor(cfg, u) > 0;
    hide Local.WithUserFree, Local.FreeFor, Local.TakeBoth, Local.Install;
    run, end := LocalFinish(cfg, st, run + [TakeGlobal(t)] + [FindUserLock(t)], t, x.(pc := WantUser), w, l2);
  }

  lemma LocalFinish(cfg: Config, st: State, run: seq<Action>, t: TurnId, x: Turn, w: nat, l: Local)
    returns (more: seq<Action>, end: State)
    requires w < |st.workers| && cfg.redisEnabled && x.worker == w && x.pc == WantUser && l.FreeFor(cfg, x.user) > 0
    requires Reaches(cfg, st, run, Alone(st, t, x, w, l, st.redis)) && OnlyMoves(run)
    ensures Reaches(cfg, st, more, end) && OnlyMoves(more)
    ensures end == Alone(st, t, x.(pc := WantReserve), w,
                         l.WithUserFree(x.user, l.FreeFor(cfg, x.user) - 1).Install(x.session, x.run), st.redis)
  {
    hide Reaches, Alone;
    Section(cfg, st, run, t, x, w, l, st.redis, TakeUser(t));
    var l' := l.WithUserFree(x.user, l.FreeFor(cfg, x.user) - 1);
    Section(cfg, st, run + [TakeUser(t)], t, x.(pc := WantInstall), w, l', st.redis, Install(t));
    more := run + [TakeUser(t)] + [Install(t)];
    end := Alone(st, t, x.(pc := WantReserve), w, l'.Install(x.session, x.run), st.redis);
  }

  /** The Redis calls of an `acquire` that is admitted. */
  lemma Admission(cfg: Config, st: State, t: TurnId) returns (run: seq<Action>, end: State)
    requires st.At(t, WantReserve) && st.redis.Admits(cfg, st.turns[t].user)
    ensures Reaches(cfg, st, run, end) && OnlyMoves(run)
    ensures var x := st.turns[t];
            end == Alone(st, t, x.(pc := Live, reserved := true), x.worker, st.LocalOf(t),
                         st.redis.Reserve(cfg, x.user).Publish(x.session, x.run))
  {
    var x, w, l := st.turns[t], st.turns[t].worker, st.LocalOf(t);
    run := [];
    assert st == Alone(st, t, x, w, l, st.redis);
    Section(cfg, st, run, t, x, w, l, st.redis, Reserve(t, Answered));
    hide Reaches, Alone;
    var k := st.redis.Reserve(cfg, x.user);
    run, x := run + [Reserve(t, Answered)], x.(pc := WantPublish, reserved := true);
    Section(cfg, st, run, t, x, w, l, k, Publish(t, Answered));
    run, x := run + [Publish(t, Answered)], x.(pc := Live);
    end := Alone(st, t, x, w, l, k.Publish(x.session, x.run));
  }

  /** With permits everywhere and no interference, an `acquire` issues its lease. */
  lemma Acquired(cfg: Config, st: State, t: TurnId, w: nat, s: Session, u: User, r: RunId)
    returns (run: seq<Action>, end: State)
    requires cfg.redisEnabled && Enabled(cfg, st, Begin(t, w, s, u, r))
    requires st.workers[w].HasBoth(cfg, u) && st.redis.Admits(cfg, u)
    ensures Reaches(cfg, st, run, end) && OnlyMoves(run)
    ensures end == Alone(st, t, Turn(w, s, u, r, Live, true), w, st.workers[w].TakeBoth(cfg, u).Install(s, r),
                         st.redis.Reserve(cfg, u).Publish(s, r))
  {
    var run1, mid := LocalAcquire(cfg, st, t, w, s, u, r);
    var run2;
    run2, end := Admission(cfg, mid, t);
    Then(cfg, st, run1, mid, run2, end);
    run := run1 + run2;
  }

  // ---------------------------------------------------------------------------
  // Expiring counters.

  /** A text of `k + 1` letters. */
  function Name(k: nat): (s: string)
    ensures |s| == k + 1
  {
    if k == 0 then "x" else Name(k - 1) + "x"
  }

  /** Turn ids from `k` on, and names longer than `k`, are not in use. */
  ghost predicate Unused(st: State, k: nat) {
    && (forall t <- st.turns :: t < k && |st.turns[t].session| <= k)
    && (forall w, u | 0 <= w < |st.workers| && u in st.workers[w].userFree :: |u| <= k)
    && forall u <- st.redis.userActive :: |u| <= k
  }

  /** One more lease on a worker with a free permit, once the global counter has expired. */
  lemma OneMore(cfg: Config, st: State, w: nat, k: nat) returns (run: seq<Action>, end: State)
    requires cfg.redisEnabled && cfg.maxStreams > 0 && cfg.perUser > 0
    requires w < |st.workers| && Unused(st, k) && st.workers[w].globalFree > 0
    ensures Reaches(cfg, st, run, end) && Unused(end, k + 1)
    ensures |end.workers| == |st.workers| && end.workers[w].globalFree == st.workers[w].globalFree - 1
    ensures forall i | 0 <= i < |st.workers| && i != w :: end.workers[i] == st.workers[i]
    ensures Count(end.turns, Issued()) == Count(st.turns, Issued()) + 1
  {
    var name := Name(k);
    var mid := Apply(cfg, st, Expire(ActiveKey));
    OneStep(cfg, st, Expire(ActiveKey));
    assert k !in st.turns && name !in st.workers[w].userFree && name !in st.redis.userActive;
    assert mid == st.(redis := st.redis.(active := 0));
    hide OnlyMoves, Reaches, Issued;
    var more;
    more, end := Acquired(cfg, mid, k, w, name, name, name);
    Then(cfg, st, [Expire(ActiveKey)], mid, more, end);
    run := [Expire(ActiveKey)] + more;
    OneMoreIssued(cfg, st, end, w, k);
  }

  /** What one more lease with a new name changes. */
  lemma OneMoreIssued(cfg: Config, st: State, end: State, w: nat, k: nat)
    requires w < |st.workers| && Unused(st, k) && st.workers[w].HasBoth(cfg, Name(k))
    requires var name := Name(k);
             end == Alone(st, k, Turn(w, name, name, name, Live, true), w, st.workers[w].TakeBoth(cfg, name).Install(name, name),
                          st.redis.(active := 0).Reserve(cfg, name).Publish(name, name))
    ensures Unused(end, k + 1) && Count(end.turns, Issued()) == Count(st.turns, Issued()) + 1
  {
    assert k !in st.turns;
    CountUpdate(st.turns, k, end.turns[k], Issued());
  }

  ghost predicate OthersSame(st: State, end: State, w: nat) {
    |end.workers| == |st.workers| && forall i | 0 <= i < |st.workers| && i != w :: end.workers[i] == st.workers[i]
  }

  /** All free permits of one worker. */
  lemma {:induction false} FillWorker(cfg: Config, st: State, w: nat, k: nat, m: nat) returns (run: seq<Action>, end: State)
    requires cfg.redisEnabled && cfg.maxStreams > 0 && cfg.perUser > 0
    requires w < |st.workers| && Unused(st, k) && st.workers[w].globalFree == m
    ensures Reaches(cfg, st, run, end) && Unused(end, k + m)
    ensures OthersSame(st, end, w)
    ensures Count(end.turns, Issued()) == Count(st.turns, Issued()) + m
    decreases m
  {
    if m == 0 {
      run, end := [], st;
    } else {
      var run1, mid := OneMore(cfg, st, w, k);
      hide Unused, Reaches;
      var run2;
      run2, end := FillWorker(cfg, mid, w, k + 1, m - 1);
      Then(cfg, st, run1, mid, run2, end);
      run := run1 + run2;
    }
  }

  ghost predicate FreeFrom(cfg: Config, st: State, w: nat) {
    forall i | w <= i < |st.workers| :: st.workers[i].globalFree == cfg.maxStreams
  }

  lemma OthersFree(cfg: Config, st: State, mid: State, m: nat)
    requires 0 < m <= |st.workers| && FreeFrom(cfg, st, |st.workers| - m) && OthersSame(st, mid, |st.workers| - m)
    ensures |mid.workers| == |st.workers| && FreeFrom(cfg, mid, |mid.workers| - (m - 1))
  {}

  lemma FreeAt(cfg: Config, st: State, w: nat)
    requires w < |st.workers| && FreeFrom(cfg, st, w)
    ensures st.workers[w].globalFree == cfg.maxStreams
  {}

  /** The next worker of those still free. */
  lemma FillNext(cfg: Config, st: State, m: nat, k: nat) returns (run: seq<Action>, end: State)
    requires cfg.redisEnabled && cfg.maxStreams > 0 && cfg.perUser > 0
    requires 0 < m <= |st.workers| && Unused(st, k) && FreeFrom(cfg, st, |st.workers| - m)
    ensures Reaches(cfg, st, run, end) && Unused(end, k + cfg.maxStreams)
    ensures |end.workers| == |st.workers| && FreeFrom(cfg, end, |end.workers| - (m - 1))
    ensures Count(end.turns, Issued()) == Count(st.turns, Issued()) + cfg.maxStreams
  {
    hide *;
    FreeAt(cfg, st, |st.workers| - m);
    run, end := FillWorker(cfg, st, |st.workers| - m, k, cfg.maxStreams);
    OthersFree(cfg, st, end, m);
  }

  lemma FillNone(cfg: Config, st: State)
    ensures Reaches(cfg, st, [], st) && Times(0, cfg.maxStreams) == 0
  {}

  /** All permits of the last `m` workers. */
  lemma {:induction false} FillLast(cfg: Config, st: State, m: nat, k: nat) returns (run: seq<Action>, end: State)
    requires cfg.redisEnabled && cfg.maxStreams > 0 && cfg.perUser > 0
    requires m <= |st.workers| && Unused(st, k) && FreeFrom(cfg, st, |st.workers| - m)
    ensures Reaches(cfg, st, run, end)
    ensures Count(end.turns, Issued()) == Count(st.turns, Issued()) + Times(m, cfg.maxStreams)
    decreases m
  {
    if m == 0 {
      run, end := [], st;
      FillNone(cfg, st);
      hide *;
    } else {
      hide *;
      var run1, mid := FillNext(cfg, st, m, k);
      var run2;
      run2, end := FillLast(cfg, mid, m - 1, k + cfg.maxStreams);
      Then(cfg, st, run1, mid, run2, end);
      run := run1 + run2;
      TimesStep(m, cfg.maxStreams);
    }
  }

  /**
   With expiring counters the cap is lost as far as it can be: whatever the caps and the
   number of workers, some run ends with every local permit of every worker in use, which is
   the bound that `WorkersBound` proves.
   */
  lemma ExpiryBreaksCap(cfg: Config, st: State) returns (run: seq<Action>)
    requires cfg.redisEnabled && cfg.maxStreams > 0 && cfg.perUser > 0 && Init(cfg, st)
    ensures Legal(cfg, st, run)
    ensures Count(After(cfg, st, run).turns, Issued()) == |st.workers| * cfg.maxStreams
  {
    forall w | 0 <= w < |st.workers| ensures st.workers[w] == Local(cfg.maxStreams, map[], map[], map[]) {
      assert st.workers[w] in st.workers;
    }
    NoneHeld(Issued());
    var end;
    run, end := FillLast(cfg, st, |st.workers|, 0);
    TimesIsProduct(|st.workers|, cfg.maxStreams);
  }

  // ---------------------------------------------------------------------------
  // Full admission.

  /** Whose lease number `k` is: everybody has one, or one user has them all. */
  function UserOf(one: bool, k: nat): User {
    if one then "u" else Name(k)
  }

  /** `k` leases of the first worker are live, with nothing lost, and there is room for more. */
  ghost predicate Holding(cfg: Config, st: State, one: bool, k: nat) {
    && |st.workers| > 0 && (forall t <- st.turns :: t < k && |st.turns[t].session| <= k)
    && st.workers[0].globalFree + k == cfg.maxStreams && st.redis.active == k
    && Count(st.turns, Issued()) == k
    && (one ==>
          && st.workers[0].FreeFor(cfg, "u") + k == cfg.perUser && Tally(st.redis.userActive, "u") == k
          && Count(st.turns, IssuedTo("u")) == k)
    && (!one ==>
          && (forall u <- st.workers[0].userFree :: |u| <= k) && forall u <- st.redis.userActive :: |u| <= k)
  }

  lemma OneMoreAdmitted(cfg: Config, st: State, one: bool, k: nat) returns (run: seq<Action>, end: State)
    requires cfg.redisEnabled && k < cfg.maxStreams && cfg.perUser > 0 && (one ==> k < cfg.perUser) && Holding(cfg, st, one, k)
    ensures Reaches(cfg, st, run, end) && OnlyMoves(run) && Holding(cfg, end, one, k + 1)
  {
    var name, u := Name(k), UserOf(one, k);
    RoomForOneMore(cfg, st, one, k);
    hide Reaches, OnlyMoves, Holding;
    run, end := Acquired(cfg, st, k, 0, name, u, name);
    CountsGrow(st, end, one, k);
    HoldingNext(cfg, st, end, one, k);
  }

  lemma RoomForOneMore(cfg: Config, st: State, one: bool, k: nat)
    requires cfg.redisEnabled && k < cfg.maxStreams && cfg.perUser > 0 && (one ==> k < cfg.perUser) && Holding(cfg, st, one, k)
    ensures |st.workers| > 0 && Enabled(cfg, st, Begin(k, 0, Name(k), UserOf(one, k), Name(k)))
    ensures st.workers[0].HasBoth(cfg, UserOf(one, k)) && st.redis.Admits(cfg, UserOf(one, k))
  {
    assert k !in st.turns;
  }

  lemma CountsGrow(st: State, end: State, one: bool, k: nat)
    requires k !in st.turns && end.turns == st.turns[k := Turn(0, Name(k), UserOf(one, k), Name(k), Live, true)]
    ensures Count(end.turns, Issued()) == Count(st.turns, Issued()) + 1
    ensures one ==> Count(end.turns, IssuedTo("u")) == Count(st.turns, IssuedTo("u")) + 1
  {
    CountUpdate(st.turns, k, end.turns[k], Issued());
    CountUpdate(st.turns, k, end.turns[k], IssuedTo("u"));
  }

  lemma HoldingNext(cfg: Config, st: State, end: State, one: bool, k: nat)
    requires k < cfg.maxStreams && (one ==> k < cfg.perUser) && Holding(cfg, st, one, k)
    requires var name, u := Name(k), UserOf(one, k);
             && st.workers[0].HasBoth(cfg, u) && st.redis.Admits(cfg, u)
             && end == Alone(st, k, Turn(0, name, u, name, Live, true), 0, st.workers[0].TakeBoth(cfg, u).Install(name, name),
                             st.redis.Reserve(cfg, u).Publish(name, name))
    requires Count(end.turns, Issued()) == Count(st.turns, Issued()) + 1
    requires one ==> Count(end.turns, IssuedTo("u")) == Count(st.turns, IssuedTo("u")) + 1
    ensures Holding(cfg, end, one, k + 1)
  {
    hide Count, Issued, IssuedTo;
  }

  /** With no expiry and no failure, `n` leases are issued one after another, for every `n` within the caps. */
  lemma {:induction false} FillAdmissions(cfg: Config, st: State, one: bool, n: nat) returns (run: seq<Action>, end: State)
    requires cfg.redisEnabled && n <= cfg.maxStreams && cfg.perUser > 0 && (one ==> n <= cfg.perUser)
    requires Init(cfg, st) && |st.workers| > 0
    ensures Reaches(cfg, st, run, end) && OnlyMoves(run) && Holding(cfg, end, one, n)
    decreases n
  {
    if n == 0 {
      run, end := [], st;
      assert st.workers[0] in st.workers;
      NoneHeld(Issued());
      NoneHeld(IssuedTo("u"));
    } else {
      hide Reaches, Init, Holding;
      var run1, mid := FillAdmissions(cfg, st, one, n - 1);
      var run2;
      run2, end := OneMoreAdmitted(cfg, mid, one, n - 1);
      Then(cfg, st, run1, mid, run2, end);
      run := run1 + run2;
    }
  }

  /** The global cap is reached without any expiry: some run issues exactly that many leases. */
  lemma GlobalCapReached(cfg: Config, st: State) returns (run: seq<Action>)
    requires cfg.redisEnabled && cfg.perUser > 0 && Init(cfg, st) && |st.workers| > 0
    ensures Legal(cfg, st, run) && OnlyMoves(run)
    ensures Count(After(cfg, st, run).turns, Issued()) == cfg.maxStreams
  {
    var end;
    run, end := FillAdmissions(cfg, st, false, cfg.maxStreams);
  }

  /** And so is the cap of a user, if the global one leaves room for it. */
  lemma UserCapReached(cfg: Config, st: State) returns (run: seq<Action>)
    requires cfg.redisEnabled && 0 < cfg.perUser <= cfg.maxStreams && Init(cfg, st) && |st.workers| > 0
    ensures Legal(cfg, st, run) && OnlyMoves(run)
    ensures Count(After(cfg, st, run).turns, IssuedTo("u")) == cfg.perUser
  {
    var end;
    run, end := FillAdmissions(cfg, st, true, cfg.perUser);
  }

  // ---------------------------------------------------------------------------
  // Stops that are undone.

  /** A `cancel` that reaches Redis between the local sections and the SET of its run is told 0. */
  lemma EarlyCancel(cfg: Config, st: State, c: CancelId, w: nat, s: Session, r: RunId)
    returns (run: seq<Action>, end: State)
    requires cfg.redisEnabled && Enabled(cfg, st, CancelMark(c, w, s, r))
    requires Holds(st.workers[w].generations, s, r) && !Holds(st.redis.generations, s, r)
    ensures Reaches(cfg, st, run, end)
    ensures end == st.(workers := st.workers[w := st.workers[w].Mark(s, r)],
                       cancels := st.cancels[c := Cancel(w, s, r, CleaningUp)])
  {
    OneStep(cfg, st, CancelMark(c, w, s, r));
    var mid := Apply(cfg, st, CancelMark(c, w, s, r));
    Step(cfg, st, [CancelMark(c, w, s, r)], mid, CancelAsk(c, Answered));
    run := [CancelMark(c, w, s, r)] + [CancelAsk(c, Answered)];
    end := Apply(cfg, mid, CancelAsk(c, Answered));
  }

  /** A `cancel` that gets an error from Redis reports success, and a pending clean-up then pops its marker. */
  lemma UndoneCancel(cfg: Config, st: State, c: CancelId, stale: CancelId, w: nat, s: Session, r: RunId)
    returns (run: seq<Action>, end: State)
    requires cfg.redisEnabled && w < |st.workers| && Holds(st.workers[w].generations, s, r)
    requires st.cancels == map[stale := Cancel(w, s, r, CleaningUp)] && c != stale
    ensures run == [CancelMark(c, w, s, r)] + [CancelAsk(c, FailedBefore)] + [CancelCleanUp(stale)]
    ensures Reaches(cfg, st, run, end)
    ensures end == st.(workers := st.workers[w := st.workers[w].Mark(s, r).Unmark(s, r)], cancels := map[])
  {
    OneStep(cfg, st, CancelMark(c, w, s, r));
    var st1 := Apply(cfg, st, CancelMark(c, w, s, r));
    Step(cfg, st, [CancelMark(c, w, s, r)], st1, CancelAsk(c, FailedBefore));
    var st2 := Apply(cfg, st1, CancelAsk(c, FailedBefore));
    assert st2 == st.(workers := st.workers[w := st.workers[w].Mark(s, r)]);
    run := [CancelMark(c, w, s, r)] + [CancelAsk(c, FailedBefore)];
    Step(cfg, st, run, st2, CancelCleanUp(stale));
    run := run + [CancelCleanUp(stale)];
    end := Apply(cfg, st2, CancelCleanUp(stale));
  }

  /**
   A stop that is undone: a first `cancel` reaches Redis before the turn's SET and is told
   0; then the lease is issued; a second `cancel` gets an error from Redis and so reports
   success; then the first one pops the marker, and the turn is seen running.
   */
  lemma StaleCleanUpUndoesStop(cfg: Config, st: State) returns (before: seq<Action>, stop: seq<Action>)
    requires cfg == Config(1, 1, true) && Init(cfg, st) && |st.workers| == 1
    ensures stop == [CancelMark(1, 0, "s", "r")] + [CancelAsk(1, FailedBefore)] + [CancelCleanUp(0)]
    ensures Legal(cfg, st, before) && Legal(cfg, After(cfg, st, before), stop)
    ensures SeenRunning(cfg, After(cfg, After(cfg, st, before), stop), 0, true, true)
  {
    assert st.workers[0] in st.workers;
    var run1, st1 := LocalAcquire(cfg, st, 0, 0, "s", "u", "r");
    var run2, st2 := EarlyCancel(cfg, st1, 0, 0, "s", "r");
    var run3, st3 := Admission(cfg, st2, 0);
    Then(cfg, st, run1, st1, run2, st2);
    Then(cfg, st, run1 + run2, st2, run3, st3);
    before := run1 + run2 + run3;
    var end;
    stop, end := UndoneCancel(cfg, st3, 1, 0, 0, "s", "r");
  }

  /**
   A superseded run that becomes current again: a run is live, the request of the next run
   supersedes it, and a late duplicate of the first request announces the first run again
   before its run id is refused.  The marker now names the next run.
   */
  lemma DuplicateRequestRevives(cfg: Config, st: State) returns (before: seq<Action>, next: Action, duplicate: Action)
    requires cfg.redisEnabled && cfg.maxStreams > 0 && cfg.perUser > 0 && Init(cfg, st) && |st.workers| > 0
    ensures next == Supersede(0, "s", "r2") && duplicate == Supersede(0, "s", "r1")
    ensures Legal(cfg, st, before) && Legal(cfg, After(cfg, st, before), [next]) && Legal(cfg, After(cfg, st, before), [next] + [duplicate])
    ensures var live := After(cfg, st, before);
            var replaced, revived := After(cfg, live, [next]), After(cfg, live, [next] + [duplicate]);
            && SeenRunning(cfg, live, 0, true, true) && live.turns[0].run == "r1"
            && 0 in replaced.turns && replaced.turns[0].worker < |replaced.workers| && !IsCurrent(cfg, replaced, 0, true)
            && SeenRunning(cfg, revived, 0, true, true)
  {
    assert st.workers[0] in st.workers;
    var live;
    before, live := Acquired(cfg, st, 0, 0, "s", "u", "r1");
    next, duplicate := Supersede(0, "s", "r2"), Supersede(0, "s", "r1");
    OneStep(cfg, live, next);
    Step(cfg, live, [next], Apply(cfg, live, next), duplicate);
  }

  /**
   The order in which the runner reads misses a stop wherever another run of the session can
   start while the lease is live: given a free permit of each kind on any worker, and an
   admission, a lease with both markers can be read as not cancelled later, with no key
   expiring, no read failing and the lease's own run never announced again.
   */
  lemma StopMissedAfterSet(cfg: Config, st: State, t: TurnId, next: TurnId, w: nat, u: User, r: RunId)
    requires cfg.redisEnabled && Consistent(cfg, st) && t in st.turns && st.turns[t].pc == Live && t != next
    requires Enabled(cfg, st, Begin(next, w, st.turns[t].session, u, r))
    requires st.workers[w].HasBoth(cfg, u) && st.redis.Admits(cfg, u)
    ensures exists run, up :: Misses(cfg, st, run, t, Conditions(false, false), up)
  {
    var x := st.turns[t];
    var run, end := Acquired(cfg, st, next, w, x.session, u, r);
    assert st.FreshRun(x.session, r);
    assert Overtaken(end, t);
    hide Consistent, Enabled;
    assert Overtakes(cfg, st, run, t, Conditions(false, false));
    MissedOnceOvertaken(cfg, st, run, t, Conditions(false, false));
  }

  /**
   Nobody need be current: two turns of a session take the local slot one after the other,
   and their SETs come in the other order.  Both leases are issued and neither is current.
   */
  lemma NobodyCurrent(cfg: Config, st: State) returns (run: seq<Action>)
    requires cfg.redisEnabled && cfg.maxStreams > 1 && cfg.perUser > 1 && Init(cfg, st) && |st.workers| > 0
    ensures Legal(cfg, st, run) && OnlyMoves(run)
    ensures var end := After(cfg, st, run);
            && 0 in end.turns && 1 in end.turns && end.turns[0].session == end.turns[1].session
            && end.turns[0].pc == Live && end.turns[1].pc == Live
            && end.turns[0].worker < |end.workers| && end.turns[1].worker < |end.workers|
            && !IsCurrent(cfg, end, 0, true) && !IsCurrent(cfg, end, 1, true)
  {
    assert st.workers[0] in st.workers;
    var run1, st1 := LocalAcquire(cfg, st, 0, 0, "s", "u", "r1");
    var run2, st2 := LocalAcquire(cfg, st1, 1, 0, "s", "u", "r2");
    var run3, st3 := Admission(cfg, st2, 1);
    var run4, st4 := Admission(cfg, st3, 0);
    Then(cfg, st, run1, st1, run2, st2);
    Then(cfg, st, run1 + run2, st2, run3, st3);
    Then(cfg, st, run1 + run2 + run3, st3, run4, st4);
    run := run1 + run2 + run3 + run4;
  }
}
