/** The calls of `__send_message` and `block_send_message` step by step, with steps
    of the guest anywhere between: what Linux collects is what the callers asked to
    send. */
module Sending {
  import opened Common
  import opened Vring
  import opened RingProtocol
  import opened Remoteproc

  /** The arguments of a call, and the message it puts into its buffer. */
  datatype Call = Call(src: nat, dst: nat, data: seq<byte>)

  function MessageOf(c: Call): Message {
    Cut(c.src, c.dst, c.data)
  }

  /** Where the firmware is: outside a call, which includes waiting for a buffer,
      or inside one, before filling, announcing or publishing the buffer it took. */
  datatype Phase = Outside | Took(c: Call) | Filled(c: Call) | Entered(c: Call)

  datatype SendAction =
    | ByLinux(a: Action)
    | Begin(c: Call)
    | Fill
    | Enter
    | Publish

  /** The program counter, the ring, its history, and the calls that returned. */
  datatype Sender = Sender(phase: Phase, s: State, h: History, done: seq<Call>)

  ghost predicate InOrder(p: Phase, a: SendAction) {
    match a
    case ByLinux(b) => ByGuest(b)
    case Begin(_) => p.Outside?
    case Fill => p.Took?
    case Enter => p.Filled?
    case Publish => p.Entered?
  }

  ghost function OnRing(p: Phase, a: SendAction): Action
    requires InOrder(p, a)
  {
    match a
    case ByLinux(b) => b
    case Begin(_) => FwGet
    case Fill => FwFill(MessageOf(p.c))
    case Enter => FwEntry
    case Publish => FwPublish
  }

  ghost predicate SendEnabled(x: Sender, a: SendAction) {
    InOrder(x.phase, a) && Typed(x.s) && Enabled(x.s, OnRing(x.phase, a))
  }

  ghost function PhaseAfter(p: Phase, a: SendAction): Phase
    requires InOrder(p, a)
  {
    match a
    case ByLinux(_) => p
    case Begin(c) => Took(c)
    case Fill => Filled(p.c)
    case Enter => Entered(p.c)
    case Publish => Outside
  }

  ghost function SendNext(x: Sender, a: SendAction): Sender
    requires SendEnabled(x, a)
  {
    var b := OnRing(x.phase, a);
    Sender(PhaseAfter(x.phase, a), Next(x.s, b), Log(x.h, x.s, b), if a.Publish? then x.done + [x.phase.c] else x.done)
  }

  ghost function MessagesOf(calls: seq<Call>): (ms: seq<Message>)
    ensures |ms| == |calls| && forall i :: 0 <= i < |ms| ==> ms[i] == MessageOf(calls[i])
  {
    seq(|calls|, i requires 0 <= i < |calls| => MessageOf(calls[i]))
  }

  /** The program counter fits the firmware's state on the ring. */
  ghost predicate InStep(p: Phase, fw: Firmware) {
    match p
    case Outside => fw.Idle?
    case Took(_) => fw.Holding?
    case Filled(c) => fw.Holding? && fw.m == MessageOf(c)
    case Entered(c) => fw.EntryWritten? && fw.m == MessageOf(c)
  }

  ghost predicate SendInv(x: Sender) {
    Inv(x.s, x.h) && InStep(x.phase, x.s.fw) && x.h.sent == MessagesOf(x.done)
  }

  lemma SendStepKeepsInv(x: Sender, a: SendAction)
    requires SendInv(x) && SendEnabled(x, a)
    ensures SendInv(SendNext(x, a))
  {
    hide Inv, Cut, Typed;
    StepKeepsInv(x.s, x.h, OnRing(x.phase, a));
    if a.Publish? {
      assert MessagesOf(x.done + [x.phase.c]) == MessagesOf(x.done) + [MessageOf(x.phase.c)];
    }
  }

  ghost predicate SendRuns(x: Sender, run: seq<SendAction>)
    decreases |run|
  {
    run != [] ==> SendEnabled(x, run[0]) && SendRuns(SendNext(x, run[0]), run[1..])
  }

  ghost function SendAfter(x: Sender, run: seq<SendAction>): Sender
    requires SendRuns(x, run)
    decreases |run|
  {
    if run == [] then x else SendAfter(SendNext(x, run[0]), run[1..])
  }

  /** A run of calls is a run of the ring protocol. */
  lemma {:induction false} SendIsRingRun(x: Sender, run: seq<SendAction>) returns (ring: seq<Action>)
    requires SendInv(x) && SendRuns(x, run)
    ensures SendInv(SendAfter(x, run))
    ensures Runs(x.s, x.h, ring) && After(x.s, x.h, ring) == (SendAfter(x, run).s, SendAfter(x, run).h)
    decreases |run|
  {
    hide SendInv, Next, Log, Enabled, Typed;
    if run == [] {
      ring := [];
    } else {
      var a := OnRing(x.phase, run[0]);
      SendStepKeepsInv(x, run[0]);
      var rest := SendIsRingRun(SendNext(x, run[0]), run[1..]);
      OneStep(x.s, x.h, a, rest);
      ring := [a] + rest;
    }
  }

  ghost function Before(s: State): Sender { Sender(Outside, s, NOTHING, []) }

  /** In every interleaving of calls and guest steps, however often the indices
      wrap, Linux collects exactly the source, destination and cut data of the
      calls, in their order; and once it sees its ring empty, all of them. */
  lemma CallsDelivered(s: State, run: seq<SendAction>)
    requires Start(s) && SendRuns(Before(s), run)
    ensures var x := SendAfter(Before(s), run);
      && |x.h.collected| <= |x.done|
      && (forall i :: 0 <= i < |x.h.collected| ==>
            && x.h.collected[i].src == x.done[i].src && x.h.collected[i].dst == x.done[i].dst
            && x.h.collected[i].payload == if |x.done[i].data| <= 496 then x.done[i].data else x.done[i].data[..496])
      && |x.done| - |x.h.collected| <= VRING_SIZE
      && (x.s.lastUsed == x.s.ring.usedIdx <==> |x.h.collected| == |x.done|)
  {
    StartInv(s);
    var ring := SendIsRingRun(Before(s), run);
    Delivery(s, ring);
    DeliveryComplete(s, ring);
  }
}
