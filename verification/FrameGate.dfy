/**
 The handler of `state` frames in frontend/src/hooks/useChatActions.ts: which frames of a
 send it applies, and what it leaves in the store.
 */
module FrameGate {

  /** A frame; an absent profile is "" and an absent version is 0, as the handler reads them. */
  datatype StateFrame = StateFrame(
    runId: string, seqNo: int, scope: string, profile: string,
    branchVersion: nat, expertBranchVersion: nat, switched: bool, content: string, status: string)

  /** What a send fixes: its run id, context scope and profile. */
  datatype Send = Send(runId: string, scope: string, profile: string)

  /** The handler's variables and the part of the store it reads and writes. */
  datatype View = View(latestSeq: int, branches: map<string, nat>, switched: bool, content: string, status: string)

  function BranchKey(f: StateFrame): string {
    if f.profile == "" then "__unbound__" else f.profile
  }

  function Known(v: View, key: string): nat {
    if key in v.branches then v.branches[key] else 0
  }

  /** The frame is one of this send's. */
  predicate Belongs(send: Send, f: StateFrame) {
    f.runId == send.runId && f.scope == send.scope && f.profile == send.profile
  }

  /** The frame is numbered above all applied ones, and its branch version is not below the stored one. */
  predicate StillAhead(v: View, f: StateFrame) {
    f.seqNo > v.latestSeq && (f.branchVersion == 0 || f.branchVersion >= Known(v, BranchKey(f)))
  }

  /** The gate in front of the handler's work. */
  predicate Passes(send: Send, v: View, f: StateFrame) {
    Belongs(send, f) && StillAhead(v, f)
  }

  function Applied(v: View, f: StateFrame): View {
    View(f.seqNo, v.branches[BranchKey(f) := f.expertBranchVersion], v.switched || f.switched, f.content, f.status)
  }

  class StateHandler {
    const send: Send
    var latestStateSeq: int
    var profileBranches: map<string, nat>
    var profileSwitchedDuringRun: bool
    var content: string
    var generationStatus: string

    ghost function Now(): View
      reads this
    {
      View(latestStateSeq, profileBranches, profileSwitchedDuringRun, content, generationStatus)
    }

    constructor (send: Send, branches: map<string, nat>, content: string, status: string)
      ensures this.send == send && Now() == View(-1, branches, false, content, status)
    {
      this.send := send;
      latestStateSeq, profileBranches, profileSwitchedDuringRun := -1, branches, false;
      this.content, generationStatus := content, status;
    }

    /** The `state` branch of `onEvent`. */
    method OnState(f: StateFrame)
      modifies this
      ensures Now() == Handle(send, old(Now()), f)
      ensures f.runId != send.runId || f.scope != send.scope || f.profile != send.profile ==> Now() == old(Now())
      ensures var key := if f.profile == "" then "__unbound__" else f.profile;
              var known := if key in old(profileBranches) then old(profileBranches)[key] else 0;
              if f.runId == send.runId && f.scope == send.scope && f.profile == send.profile
                 && f.seqNo > old(latestStateSeq) && (f.branchVersion == 0 || f.branchVersion >= known)
              then
                && latestStateSeq == f.seqNo && profileBranches == old(profileBranches)[key := f.expertBranchVersion]
                && profileSwitchedDuringRun == (old(profileSwitchedDuringRun) || f.switched)
                && content == f.content && generationStatus == f.status
              else Now() == old(Now())
      ensures latestStateSeq >= old(latestStateSeq)
      ensures f.seqNo <= old(latestStateSeq) ==> Now() == old(Now())
      ensures latestStateSeq != old(latestStateSeq) ==> content == f.content && generationStatus == f.status
    {
      if f.runId != send.runId || f.seqNo <= latestStateSeq {
        return;
      }
      if f.scope != send.scope || f.profile != send.profile {
        return;
      }
      var key := BranchKey(f);
      var known := if key in profileBranches then profileBranches[key] else 0;
      if f.branchVersion != 0 && f.branchVersion < known {
        return;
      }
      latestStateSeq := f.seqNo;
      profileSwitchedDuringRun := profileSwitchedDuringRun || f.switched;
      profileBranches := profileBranches[key := f.expertBranchVersion];
      content := f.content;
      generationStatus := f.status;
    }
  }

  // ---------------------------------------------------------------------------
  // Whole streams of frames.

  function Handle(send: Send, v: View, f: StateFrame): View {
    if Passes(send, v, f) then Applied(v, f) else v
  }

  function HandleAll(send: Send, v: View, fs: seq<StateFrame>): View
    decreases |fs|
  {
    if fs == [] then v else HandleAll(send, Handle(send, v, fs[0]), fs[1..])
  }

  /** The frames of a stream that are applied. */
  function Accepted(send: Send, v: View, fs: seq<StateFrame>): seq<StateFrame>
    decreases |fs|
  {
    if fs == [] then []
    else (if Passes(send, v, fs[0]) then [fs[0]] else []) + Accepted(send, Handle(send, v, fs[0]), fs[1..])
  }

  /** The frames of a stream that carry the send's run id, scope and profile. */
  function Own(send: Send, fs: seq<StateFrame>): seq<StateFrame>
    decreases |fs|
  {
    if fs == [] then []
    else
      (if fs[0].runId == send.runId && fs[0].scope == send.scope && fs[0].profile == send.profile then [fs[0]] else [])
      + Own(send, fs[1..])
  }

  /** Frames of another run, scope or profile never make a difference, wherever they come. */
  lemma {:induction false} OnlyOwnFramesCount(send: Send, v: View, fs: seq<StateFrame>)
    ensures HandleAll(send, v, fs) == HandleAll(send, v, Own(send, fs))
    ensures forall f :: f in Own(send, fs) <==> f in fs && f.runId == send.runId && f.scope == send.scope && f.profile == send.profile
    decreases |fs|
  {
    if fs != [] {
      assert fs == [fs[0]] + fs[1..];
      OnlyOwnFramesCount(send, Handle(send, v, fs[0]), fs[1..]);
      if fs[0].runId == send.runId && fs[0].scope == send.scope && fs[0].profile == send.profile {
        assert Own(send, fs) == [fs[0]] + Own(send, fs[1..]);
        assert Own(send, fs)[1..] == Own(send, fs[1..]);
      } else {
        assert Own(send, fs) == Own(send, fs[1..]);
      }
    }
  }

  predicate Increasing(from: int, fs: seq<StateFrame>) {
    forall i | 0 <= i < |fs| :: fs[i].seqNo > (if i == 0 then from else fs[i - 1].seqNo)
  }

  /**
   Applied frames have strictly increasing numbers, and what the handler leaves is the
   content and number of the highest applied one.
   */
  lemma {:induction false} AppliedIncrease(send: Send, v: View, fs: seq<StateFrame>)
    ensures var applied, end := Accepted(send, v, fs), HandleAll(send, v, fs);
            && Increasing(v.latestSeq, applied)
            && (forall f <- applied :: v.latestSeq < f.seqNo <= end.latestSeq)
            && (if applied == [] then end == v
                else
                  var top := applied[|applied| - 1];
                  end.latestSeq == top.seqNo && end.content == top.content && end.status == top.status)
    decreases |fs|
  {
    if fs != [] {
      var next := Handle(send, v, fs[0]);
      AppliedIncrease(send, next, fs[1..]);
      var later := Accepted(send, next, fs[1..]);
      if Passes(send, v, fs[0]) {
        assert Accepted(send, v, fs) == [fs[0]] + later;
      } else {
        assert Accepted(send, v, fs) == later;
      }
    }
  }

  lemma {:induction false} HandleConcat(send: Send, v: View, a: seq<StateFrame>, b: seq<StateFrame>)
    ensures HandleAll(send, v, a + b) == HandleAll(send, HandleAll(send, v, a), b)
    decreases |a|
  {
    if a == [] {
      assert a + b == b;
    } else {
      HandleConcat(send, Handle(send, v, a[0]), a[1..], b);
      assert (a + b)[1..] == a[1..] + b;
    }
  }

  /** Inserting a frame that is no newer than what has been applied, anywhere in a stream, changes nothing. */
  lemma StaleFrameIgnored(send: Send, v: View, a: seq<StateFrame>, f: StateFrame, b: seq<StateFrame>)
    requires f.seqNo <= HandleAll(send, v, a).latestSeq
    ensures HandleAll(send, v, a + [f] + b) == HandleAll(send, v, a + b)
  {
    HandleConcat(send, v, a + [f], b);
    HandleConcat(send, v, a, [f]);
    HandleConcat(send, v, a, b);
    assert HandleAll(send, HandleAll(send, v, a), [f]) == HandleAll(send, v, a);
  }

  /** In particular a second copy of an applied frame changes nothing. */
  lemma AppliedCopyIgnored(send: Send, v: View, a: seq<StateFrame>, f: StateFrame, b: seq<StateFrame>)
    requires f in Accepted(send, v, a)
    ensures HandleAll(send, v, a + [f] + b) == HandleAll(send, v, a + b)
  {
    AppliedIncrease(send, v, a);
    StaleFrameIgnored(send, v, a, f, b);
  }

  /** The frame's own version and the version stored when it is applied agree. */
  predicate VersionsAgree(f: StateFrame) {
    f.branchVersion != 0 && f.branchVersion == f.expertBranchVersion
  }

  /** If they agree in every frame, the known version of the send's branch never falls, so a refused frame stays refused. */
  lemma {:induction false} RefusedStaysRefused(send: Send, v: View, fs: seq<StateFrame>, f: StateFrame)
    requires forall g <- fs :: VersionsAgree(g)
    requires !Passes(send, v, f)
    ensures !Passes(send, HandleAll(send, v, fs), f)
    decreases |fs|
  {
    if fs != [] {
      assert VersionsAgree(fs[0]) by { assert fs[0] in fs; }
      assert !Passes(send, Handle(send, v, fs[0]), f);
      RefusedStaysRefused(send, Handle(send, v, fs[0]), fs[1..], f);
    }
  }

  /** A frame that still gets through after the stream it was in had been refused there, for a branch version too low then. */
  lemma RefusedThen(send: Send, v: View, a: seq<StateFrame>, i: nat)
    requires i < |a| && Belongs(send, a[i]) && StillAhead(HandleAll(send, v, a), a[i])
    ensures a[i].branchVersion != 0
    ensures Known(HandleAll(send, v, a[..i]), BranchKey(a[i])) > a[i].branchVersion
    ensures Known(HandleAll(send, v, a), BranchKey(a[i])) <= a[i].branchVersion
  {
    var before, after := a[..i], a[i + 1..];
    assert a == before + ([a[i]] + after);
    HandleConcat(send, v, before, [a[i]] + after);
    var mid := HandleAll(send, v, before);
    assert ([a[i]] + after)[1..] == after;
    AppliedIncrease(send, Handle(send, mid, a[i]), after);
    AppliedIncrease(send, mid, [a[i]] + after);
  }

  /**
   StateFrame `i` was refused for its branch version when it came, the stored version has fallen to
   its own or below since, and no frame with its number or a higher one has been applied.
   */
  predicate Readmitted(send: Send, v: View, a: seq<StateFrame>, i: nat)
    requires i < |a|
  {
    var f, earlier, now := a[i], HandleAll(send, v, a[..i]), HandleAll(send, v, a);
    && Belongs(send, f) && f.seqNo > now.latestSeq
    && f.branchVersion != 0
    && Known(now, BranchKey(f)) <= f.branchVersion < Known(earlier, BranchKey(f))
  }

  /**
   Replay immunity, exactly: a second copy of an earlier frame of the stream changes nothing,
   whatever follows, if and only if the frame has not become admissible since it was refused.
   */
  lemma CopyIgnoredIff(send: Send, v: View, a: seq<StateFrame>, i: nat)
    requires i < |a|
    ensures (forall b: seq<StateFrame> :: HandleAll(send, v, a + [a[i]] + b) == HandleAll(send, v, a + b))
            <==> !Readmitted(send, v, a, i)
  {
    var f, end := a[i], HandleAll(send, v, a);
    if Belongs(send, f) && StillAhead(end, f) {
      RefusedThen(send, v, a, i);
    }
    assert Passes(send, end, f) == Readmitted(send, v, a, i);
    HandleConcat(send, v, a, [f]);
    assert HandleAll(send, end, [f]) == Handle(send, end, f);
    if Passes(send, end, f) {
      assert a + [f] + [] == a + [f] && a + [] == a;
      assert HandleAll(send, v, a + [f] + []).latestSeq == f.seqNo != HandleAll(send, v, a + []).latestSeq;
    } else {
      forall b: seq<StateFrame> ensures HandleAll(send, v, a + [f] + b) == HandleAll(send, v, a + b) {
        HandleConcat(send, v, a + [f], b);
        HandleConcat(send, v, a, b);
      }
    }
  }

  /** The numbers of a stream go up, as those of one response of the server do. */
  predicate NumberedUp(a: seq<StateFrame>) {
    forall j, k | 0 <= j < k < |a| :: a[j].seqNo < a[k].seqNo
  }

  lemma {:induction false} AcceptedFromStream(send: Send, v: View, fs: seq<StateFrame>)
    ensures forall f <- Accepted(send, v, fs) :: f in fs
    decreases |fs|
  {
    if fs != [] {
      AcceptedFromStream(send, Handle(send, v, fs[0]), fs[1..]);
      assert fs == [fs[0]] + fs[1..];
    }
  }

  /** In a stream numbered upwards no frame ever becomes admissible again, whatever the versions. */
  lemma NeverReadmitted(send: Send, v: View, a: seq<StateFrame>, i: nat)
    requires i < |a| && NumberedUp(a)
    ensures !Readmitted(send, v, a, i)
  {
    var before, after := a[..i], a[i + 1..];
    var mid := HandleAll(send, v, before);
    var met := Handle(send, mid, a[i]);
    assert a == before + ([a[i]] + after);
    HandleConcat(send, v, before, [a[i]] + after);
    assert ([a[i]] + after)[1..] == after;
    AppliedIncrease(send, met, after);
    AcceptedFromStream(send, met, after);
    if f :| f in Accepted(send, met, after) {
      var k :| 0 <= k < |after| && after[k] == f;
      assert a[i].seqNo < a[i + 1 + k].seqNo;
    }
  }

  /**
   Replay immunity of one response: in a stream numbered upwards, a second copy of any frame,
   applied or refused, inserted anywhere after it, changes nothing.
   */
  lemma OrderedCopyIgnored(send: Send, v: View, a: seq<StateFrame>, i: nat, b: seq<StateFrame>)
    requires i < |a| && NumberedUp(a)
    ensures HandleAll(send, v, a + [a[i]] + b) == HandleAll(send, v, a + b)
  {
    NeverReadmitted(send, v, a, i);
    CopyIgnoredIff(send, v, a, i);
  }

  /** When the versions agree in every frame, every copy is ignored in any order of frames. */
  lemma CopyIgnored(send: Send, v: View, a: seq<StateFrame>, f: StateFrame, b: seq<StateFrame>)
    requires f in a && forall g <- a :: VersionsAgree(g)
    ensures HandleAll(send, v, a + [f] + b) == HandleAll(send, v, a + b)
  {
    var i :| 0 <= i < |a| && a[i] == f;
    var before, after := a[..i], a[i + 1..];
    assert a == before + ([f] + after);
    HandleConcat(send, v, before, [f] + after);
    var mid := HandleAll(send, v, before);
    assert ([f] + after)[1..] == after;
    RefusedStaysRefused(send, Handle(send, mid, f), after, f);
    assert before == a[..i] && HandleAll(send, v, a) == HandleAll(send, Handle(send, mid, f), after);
    CopyIgnoredIff(send, v, a, i);
  }

  /**
   Without that, a copy can get through: a frame refused for its old branch version is
   applied when it comes again after a frame that lowered the stored version, in every send.
   */
  lemma RefusedCopyApplied(send: Send) returns (v: View, f: StateFrame, g: StateFrame)
    ensures Accepted(send, v, [f, g]) == [g]
    ensures HandleAll(send, v, [f, g]).content == g.content != f.content
    ensures HandleAll(send, v, [f, g] + [f]).content == f.content
  {
    f := StateFrame(send.runId, 10, send.scope, send.profile, 4, 4, false, "old", "streaming");
    v := View(-1, map[BranchKey(f) := 5], false, "", "");
    g := StateFrame(send.runId, 2, send.scope, send.profile, 0, 3, false, "new", "streaming");
    var v1 := Applied(v, g);
    assert [f, g][1..] == [g] && [g][1..] == [];
    assert Handle(send, v, f) == v && Handle(send, v, g) == v1;
    assert HandleAll(send, v, [f, g]) == HandleAll(send, v, [g]) == HandleAll(send, v1, [g][1..]) == v1;
    assert Accepted(send, v, [f, g]) == Accepted(send, v, [g]) == [g] + Accepted(send, v1, [g][1..]) == [g];
    HandleConcat(send, v, [f, g], [f]);
    assert HandleAll(send, v1, [f]) == Applied(v1, f);
  }

  // ---------------------------------------------------------------------------
  // Streams in order.

  /** The number and the version that frame `i` meets if all frames before it are applied. */
  function MetSeq(v: View, fs: seq<StateFrame>, i: nat): int
    requires i < |fs|
  {
    if i == 0 then v.latestSeq else fs[i - 1].seqNo
  }

  function MetVersion(send: Send, v: View, fs: seq<StateFrame>, i: nat): nat
    requires i < |fs|
  {
    if i == 0 then Known(v, if send.profile == "" then "__unbound__" else send.profile) else fs[i - 1].expertBranchVersion
  }

  predicate Follows(send: Send, f: StateFrame, metSeq: int, metVersion: nat) {
    Belongs(send, f) && f.seqNo > metSeq && (f.branchVersion == 0 || f.branchVersion >= metVersion)
  }

  /** The frames are the send's own, numbered upwards, and none carries a version below the one stored with its predecessor. */
  predicate InOrder(send: Send, v: View, fs: seq<StateFrame>) {
    forall i | 0 <= i < |fs| :: Follows(send, fs[i], MetSeq(v, fs, i), MetVersion(send, v, fs, i))
  }

  /** Exactly which streams are applied whole: no newer frame is lost. */
  lemma {:induction false} AppliedWholeIff(send: Send, v: View, fs: seq<StateFrame>)
    ensures Accepted(send, v, fs) == fs <==> InOrder(send, v, fs)
    decreases |fs|
  {
    if fs != [] {
      var next, rest := Handle(send, v, fs[0]), fs[1..];
      assert fs == [fs[0]] + rest;
      AcceptedSize(send, next, rest);
      assert Passes(send, v, fs[0]) == Follows(send, fs[0], MetSeq(v, fs, 0), MetVersion(send, v, fs, 0));
      if Passes(send, v, fs[0]) {
        AppliedWholeIff(send, next, rest);
        assert Accepted(send, v, fs) == [fs[0]] + Accepted(send, next, rest);
        assert Accepted(send, v, fs) == fs <==> Accepted(send, next, rest) == rest;
        InOrderRest(send, v, fs);
      } else {
        assert |Accepted(send, v, fs)| < |fs|;
      }
    }
  }

  lemma {:induction false} AcceptedSize(send: Send, v: View, fs: seq<StateFrame>)
    ensures |Accepted(send, v, fs)| <= |fs|
    decreases |fs|
  {
    if fs != [] {
      AcceptedSize(send, Handle(send, v, fs[0]), fs[1..]);
    }
  }

  lemma InOrderRest(send: Send, v: View, fs: seq<StateFrame>)
    requires fs != [] && Passes(send, v, fs[0])
    ensures InOrder(send, v, fs) <==> InOrder(send, Applied(v, fs[0]), fs[1..])
  {
    var next, rest := Applied(v, fs[0]), fs[1..];
    forall i | 0 <= i < |rest|
      ensures Follows(send, rest[i], MetSeq(next, rest, i), MetVersion(send, next, rest, i))
         <==> Follows(send, fs[i + 1], MetSeq(v, fs, i + 1), MetVersion(send, v, fs, i + 1))
    {
    }
    assert Follows(send, fs[0], MetSeq(v, fs, 0), MetVersion(send, v, fs, 0));
    hide Follows, MetSeq, MetVersion;
    if InOrder(send, next, rest) {
      forall i | 0 <= i < |fs| ensures Follows(send, fs[i], MetSeq(v, fs, i), MetVersion(send, v, fs, i)) {
        if i > 0 {
          assert Follows(send, rest[i - 1], MetSeq(next, rest, i - 1), MetVersion(send, next, rest, i - 1));
          assert Follows(send, fs[i - 1 + 1], MetSeq(v, fs, i - 1 + 1), MetVersion(send, v, fs, i - 1 + 1));
        }
      }
    }
  }

  /** Two frames of one send in order, of which the newer one is lost. */
  lemma NewestLost(send: Send) returns (v: View, f: StateFrame, g: StateFrame)
    ensures Belongs(send, f) && Belongs(send, g) && f.seqNo < g.seqNo
    ensures HandleAll(send, v, [f, g]).content == f.content != g.content
  {
    f := StateFrame(send.runId, 1, send.scope, send.profile, 4, 5, false, "first", "streaming");
    g := StateFrame(send.runId, 2, send.scope, send.profile, 4, 5, false, "second", "completed");
    v := View(-1, map[], false, "", "");
    assert [f, g][1..] == [g] && [g][1..] == [];
    var v1 := Applied(v, f);
    assert Handle(send, v, f) == v1 && Handle(send, v1, g) == v1;
    assert HandleAll(send, v, [f, g]) == HandleAll(send, v1, [g]) == HandleAll(send, v1, [g][1..]) == v1;
  }
}
