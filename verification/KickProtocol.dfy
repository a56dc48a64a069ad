/** The receive direction with its interrupts: the guest announces buffers and
    then kicks; the firmware handles one kick at a time by draining the ring.
    The kick counters are 32-bit and wrap. */
module KickProtocol {
  import opened Vring
  import opened RingProtocol

  const KICK_RANGE := 0x1_0000_0000

  datatype Rx = Rx(s: State, kicks: nat, processed: nat, draining: bool)

  /** Beside the ring's history: all kicks ever sent and handled, and how many
      buffers had been announced when the last kick was sent. */
  datatype RxHistory = RxHistory(h: History, sent: nat, handled: nat, kickedAt: nat)

  datatype RxAction =
    | OnRing(a: Action)
    | Kick
    | TaskBegin
    | TaskEnd

  /** The firmware takes buffers only inside a drain, and does not write them. */
  ghost predicate RxEnabled(r: Rx, g: RxHistory, a: RxAction) {
    match a
    case OnRing(b) => Enabled(r.s, b) && (b.FwGet? ==> r.draining) && !b.FwFill?
    case Kick => g.sent - g.handled < KICK_RANGE - 1
    case TaskBegin => !r.draining && r.kicks != r.processed
    case TaskEnd => r.draining && r.s.fw.Idle? && !Available(r.s.ring)
  }

  ghost function RxNext(r: Rx, g: RxHistory, a: RxAction): (Rx, RxHistory)
    requires Typed(r.s) && RxEnabled(r, g, a)
  {
    match a
    case OnRing(b) => (r.(s := Next(r.s, b)), g.(h := Log(g.h, r.s, b)))
    case Kick => (r.(kicks := (r.kicks + 1) % KICK_RANGE), g.(sent := g.sent + 1, kickedAt := |g.h.added|))
    case TaskBegin => (r.(processed := (r.processed + 1) % KICK_RANGE, draining := true), g.(handled := g.handled + 1))
    case TaskEnd => (r.(draining := false), g)
  }

  ghost predicate Counters(r: Rx, g: RxHistory) {
    && g.handled <= g.sent < g.handled + KICK_RANGE
    && r.kicks == g.sent % KICK_RANGE && r.processed == g.handled % KICK_RANGE
  }

  ghost predicate RxInv(r: Rx, g: RxHistory) {
    && Inv(r.s, g.h)
    && Counters(r, g)
    && g.kickedAt <= |g.h.added|
    && (!r.draining ==> r.s.fw.Idle?)
    && (!r.draining && g.handled == g.sent ==> g.kickedAt <= Got(g.h))
  }

  /** With fewer than 2^32 kicks unhandled, the counters differ exactly when
      there is one. */
  lemma CounterEquality(handled: nat, sent: nat)
    requires handled <= sent < handled + 0x1_0000_0000
    ensures handled % 0x1_0000_0000 == sent % 0x1_0000_0000 <==> handled == sent
    ensures (sent % KICK_RANGE + 1) % KICK_RANGE == (sent + 1) % KICK_RANGE
    ensures (handled % KICK_RANGE + 1) % KICK_RANGE == (handled + 1) % KICK_RANGE
  {}

  lemma QueueEmpty(s: State, h: History)
    requires Inv(s, h)
    ensures Got(h) <= |h.added| && (!Available(s.ring) ==> Got(h) == |h.added|)
  {
    IndexEquality(Got(h), |h.added|);
  }

  lemma TakenGrows(s: State, h: History, a: Action)
    requires Inv(s, h) && Enabled(s, a)
    ensures |h.added| <= |Log(h, s, a).added| && Got(h) <= Got(Log(h, s, a))
    ensures a.FwGet? || Got(h) == Got(Log(h, s, a))
    ensures a.FwGet? || (s.fw.Idle? ==> Next(s, a).fw.Idle?)
  {}

  lemma RxStepKeepsInv(r: Rx, g: RxHistory, a: RxAction)
    requires RxInv(r, g) && RxEnabled(r, g, a)
    ensures RxInv(RxNext(r, g, a).0, RxNext(r, g, a).1)
  {
    hide Inv, Next, Log;
    CounterEquality(g.handled, g.sent);
    QueueEmpty(r.s, g.h);
    if a.OnRing? {
      StepKeepsInv(r.s, g.h, a.a);
      TakenGrows(r.s, g.h, a.a);
    }
  }

  ghost predicate RxRuns(r: Rx, g: RxHistory, run: seq<RxAction>)
    decreases |run|
  {
    run != [] ==>
      && Typed(r.s) && RxEnabled(r, g, run[0])
      && RxRuns(RxNext(r, g, run[0]).0, RxNext(r, g, run[0]).1, run[1..])
  }

  ghost function RxAfter(r: Rx, g: RxHistory, run: seq<RxAction>): (Rx, RxHistory)
    requires RxRuns(r, g, run)
    decreases |run|
  {
    if run == [] then (r, g) else RxAfter(RxNext(r, g, run[0]).0, RxNext(r, g, run[0]).1, run[1..])
  }

  lemma {:induction false} RxRunKeepsInv(r: Rx, g: RxHistory, run: seq<RxAction>)
    requires RxInv(r, g) && RxRuns(r, g, run)
    ensures RxInv(RxAfter(r, g, run).0, RxAfter(r, g, run).1)
    decreases |run|
  {
    hide RxInv, RxNext;
    if run != [] {
      RxStepKeepsInv(r, g, run[0]);
      RxRunKeepsInv(RxNext(r, g, run[0]).0, RxNext(r, g, run[0]).1, run[1..]);
    }
  }

  ghost predicate RxStart(r: Rx) {
    Start(r.s) && r.kicks == r.processed == 0 && !r.draining
  }

  const QUIET := RxHistory(NOTHING, 0, 0, 0)

  /** No kick is lost: whenever the firmware is outside a drain and sees its two
      counters equal, it has found every message that was announced before the
      last kick, in the order in which they were offered. */
  lemma NoLostKick(r: Rx, run: seq<RxAction>)
    requires RxStart(r) && RxRuns(r, QUIET, run)
    ensures var (r', g) := RxAfter(r, QUIET, run);
      && g.h.found <= g.h.offered
      && (!r'.draining && r'.kicks == r'.processed ==> g.kickedAt <= |g.h.found|)
  {
    StartInv(r.s);
    RxRunKeepsInv(r, QUIET, run);
    var (r', g) := RxAfter(r, QUIET, run);
    CounterEquality(g.handled, g.sent);
  }

  lemma KickedAtGrows(r: Rx, g: RxHistory, a: RxAction)
    requires RxInv(r, g) && RxEnabled(r, g, a)
    ensures g.kickedAt <= RxNext(r, g, a).1.kickedAt
    ensures a.Kick? ==> RxNext(r, g, a).1.kickedAt == |g.h.added|
  {
    hide Inv, Next, Log;
  }

  lemma {:induction false} LaterKickedAt(r: Rx, g: RxHistory, run: seq<RxAction>)
    requires RxInv(r, g) && RxRuns(r, g, run)
    ensures g.kickedAt <= RxAfter(r, g, run).1.kickedAt
    decreases |run|
  {
    hide RxInv, RxNext, RxEnabled;
    if run != [] {
      KickedAtGrows(r, g, run[0]);
      RxStepKeepsInv(r, g, run[0]);
      LaterKickedAt(RxNext(r, g, run[0]).0, RxNext(r, g, run[0]).1, run[1..]);
    }
  }

  lemma {:induction false} RunSplits(r: Rx, g: RxHistory, run: seq<RxAction>, rest: seq<RxAction>)
    requires RxRuns(r, g, run + rest)
    ensures RxRuns(r, g, run) && RxRuns(RxAfter(r, g, run).0, RxAfter(r, g, run).1, rest)
    ensures RxAfter(r, g, run + rest) == RxAfter(RxAfter(r, g, run).0, RxAfter(r, g, run).1, rest)
    decreases |run|
  {
    hide RxNext, RxEnabled, Typed;
    if run == [] {
      assert run + rest == rest;
    } else {
      assert (run + rest)[1..] == run[1..] + rest;
      RunSplits(RxNext(r, g, run[0]).0, RxNext(r, g, run[0]).1, run[1..], rest);
    }
  }

  /** The same of every single kick in the run: all that had been announced when it
      was sent has been found once the firmware is outside a drain with equal
      counters. */
  lemma EveryKickHandled(r: Rx, before: seq<RxAction>, rest: seq<RxAction>)
    requires RxStart(r) && RxRuns(r, QUIET, before + ([Kick] + rest))
    ensures RxRuns(r, QUIET, before)
    ensures var announced := |RxAfter(r, QUIET, before).1.h.added|;
      var (r', g) := RxAfter(r, QUIET, before + ([Kick] + rest));
      !r'.draining && r'.kicks == r'.processed ==> announced <= |g.h.found|
  {
    hide RxInv, RxNext, RxEnabled;
    NoLostKick(r, before + ([Kick] + rest));
    StartInv(r.s);
    QuietInv(r);
    RunSplits(r, QUIET, before, [Kick] + rest);
    RxRunKeepsInv(r, QUIET, before);
    var (r1, g1) := RxAfter(r, QUIET, before);
    assert ([Kick] + rest)[0] == Kick && ([Kick] + rest)[1..] == rest;
    KickedAtGrows(r1, g1, Kick);
    RxStepKeepsInv(r1, g1, Kick);
    LaterKickedAt(RxNext(r1, g1, Kick).0, RxNext(r1, g1, Kick).1, rest);
  }

  lemma QuietInv(r: Rx)
    requires RxStart(r)
    ensures RxInv(r, QUIET)
  {
    StartInv(r.s);
  }

  // ---------- What the firmware does on its own ----------

  /** The steps of the firmware outside interrupts. */
  predicate ByFirmware(a: RxAction) {
    a.TaskBegin? || a.TaskEnd? || (a.OnRing? && (a.a.FwGet? || a.a.FwEntry? || a.a.FwPublish?))
  }

  ghost predicate FirmwareRun(r: Rx, g: RxHistory, run: seq<RxAction>, r': Rx, g': RxHistory) {
    && (forall i :: 0 <= i < |run| ==> ByFirmware(run[i]))
    && RxRuns(r, g, run) && RxAfter(r, g, run) == (r', g')
  }

  /** Some run of firmware steps leads from one state to the other. */
  ghost predicate Reaches(r: Rx, g: RxHistory, r': Rx, g': RxHistory) {
    exists run :: FirmwareRun(r, g, run, r', g')
  }

  lemma ReachesItself(r: Rx, g: RxHistory)
    ensures Reaches(r, g, r, g)
  {
    assert FirmwareRun(r, g, [], r, g);
  }

  lemma {:induction false} Joined(r: Rx, g: RxHistory, run: seq<RxAction>, r1: Rx, g1: RxHistory,
                                  rest: seq<RxAction>, r2: Rx, g2: RxHistory)
    requires FirmwareRun(r, g, run, r1, g1) && FirmwareRun(r1, g1, rest, r2, g2)
    ensures FirmwareRun(r, g, run + rest, r2, g2)
    decreases |run|
  {
    hide RxNext, RxEnabled, Typed, ByFirmware;
    if run == [] {
      assert run + rest == rest;
    } else {
      var next := RxNext(r, g, run[0]);
      assert FirmwareRun(next.0, next.1, run[1..], r1, g1);
      Joined(next.0, next.1, run[1..], r1, g1, rest, r2, g2);
      assert (run + rest)[1..] == run[1..] + rest;
    }
  }

  lemma ReachesOn(r: Rx, g: RxHistory, r1: Rx, g1: RxHistory, r2: Rx, g2: RxHistory)
    requires Reaches(r, g, r1, g1) && Reaches(r1, g1, r2, g2)
    ensures Reaches(r, g, r2, g2)
  {
    hide FirmwareRun;
    var run :| FirmwareRun(r, g, run, r1, g1);
    var rest :| FirmwareRun(r1, g1, rest, r2, g2);
    Joined(r, g, run, r1, g1, rest, r2, g2);
  }

  lemma ReachesNext(r: Rx, g: RxHistory, a: RxAction)
    requires Typed(r.s) && RxEnabled(r, g, a) && ByFirmware(a)
    ensures Reaches(r, g, RxNext(r, g, a).0, RxNext(r, g, a).1)
  {
    hide RxNext, RxEnabled, Typed, ByFirmware;
    var next := RxNext(r, g, a);
    assert [a][0] == a && [a][1..] == [];
    assert RxRuns(next.0, next.1, []) && RxAfter(next.0, next.1, []) == next;
    assert RxRuns(r, g, [a]) && RxAfter(r, g, [a]) == next;
    assert FirmwareRun(r, g, [a], next.0, next.1);
  }

  /** Steps of the firmware on the ring, taken inside a drain. */
  lemma {:induction false} RingRunReaches(r: Rx, g: RxHistory, run: seq<Action>)
    requires r.draining && Runs(r.s, g.h, run) && forall i :: 0 <= i < |run| ==> ByFirmware(OnRing(run[i]))
    ensures var (s', h') := After(r.s, g.h, run);
      Reaches(r, g, r.(s := s'), g.(h := h'))
    decreases |run|
  {
    if run == [] {
      ReachesItself(r, g);
    } else {
      var (r1, g1) := RxNext(r, g, OnRing(run[0]));
      ReachesNext(r, g, OnRing(run[0]));
      RingRunReaches(r1, g1, run[1..]);
      var (s', h') := After(r.s, g.h, run);
      ReachesOn(r, g, r1, g1, r.(s := s'), g.(h := h'));
    }
  }

  lemma ReachedKeepsInv(r: Rx, g: RxHistory, r': Rx, g': RxHistory)
    requires RxInv(r, g) && Reaches(r, g, r', g')
    ensures RxInv(r', g')
  {
    var run :| FirmwareRun(r, g, run, r', g');
    RxRunKeepsInv(r, g, run);
  }
}
