/** Kernel, firmware and the messages between them, in every order of steps.
    Requests and responses under way are named by the number of the request,
    counted without bound; on the wire a request only carries that number modulo
    2^32.  Both kinds of message may overtake each other. */
module Protocol {
  import opened Common
  import opened Config
  import opened RpmsgLink
  import opened Numerals

  datatype System<T> = System(k: Kernel<T>, st: Store)

  /** `issued[n]` is request n with the transaction that sent it, `toServe` the
      requests under way, `replies` the responses under way, `completed` the
      requests whose response has been delivered.  `servedAt[n]` is the store in
      which request n was served, `result[n]` its transaction on completion. */
  datatype History<T> = History(
    issued: seq<(T, Msg)>, toServe: set<nat>, replies: map<nat, Msg>, completed: set<nat>,
    servedAt: map<nat, Store>, result: map<nat, Trans>)

  datatype Action<T> =
    | Issue(t: T, index: int, acc: Access, parsed: Option<int>)
    | IssueCount(t: T)
    | Serve(n: nat)
    | Deliver(n: nat)
    | TakeTrans(t: T)
    | GiveBack(t: T)
    | Edit(t: T, tr: Trans)
    | Firmware(op: StoreOp)

  ghost predicate Outstanding<T>(h: History<T>, n: nat) {
    n in h.toServe || n in h.replies
  }

  /** Client code uses only transactions it has taken and not given back, and the
      sequence numbers do not lap an outstanding request. */
  ghost predicate Owned<T>(s: System<T>, t: T) {
    t in s.k.trans && t !in s.k.pending && t !in s.k.unused
  }

  ghost predicate NoLap<T>(h: History<T>) {
    forall n: nat :: Outstanding(h, n) ==> |h.issued| < n + SEQ_RANGE
  }

  ghost predicate Enabled<T>(s: System<T>, h: History<T>, a: Action<T>) {
    match a
    case Issue(t, _, acc, parsed) => Owned(s, t) && CanRequest(s.k.trans[t], acc, parsed) && NoLap(h)
    case IssueCount(t) => Owned(s, t) && NoLap(h)
    case Serve(n) => n in h.toServe
    case Deliver(n) => n in h.replies
    case TakeTrans(t) => CanAlloc(s.k, t)
    case GiveBack(t) => Owned(s, t)
    case Edit(t, tr) => Owned(s, t) && tr.seqNr == s.k.trans[t].seqNr
    case Firmware(op) => !op.Request?
  }

  ghost predicate Ready<T>(s: System<T>, h: History<T>) {
    && Healthy(s.st)
    && (forall t :: t in s.k.pending ==> t in s.k.trans)
    && (forall n :: n in h.toServe ==> n < |h.issued|)
    && (forall n :: n in h.replies ==>
          n < |h.issued| && h.issued[n].0 in s.k.trans && |h.replies[n].data| == MSG_DATA_SIZE)
  }

  ghost function RequestOf<T>(s: System<T>, a: Action<T>): Msg
    requires a.IssueCount? || (a.Issue? && a.t in s.k.trans && CanRequest(s.k.trans[a.t], a.acc, a.parsed))
  {
    if a.IssueCount? then CountRequest(s.k.nextSeq)
    else RequestFor(s.k.nextSeq, s.k.trans[a.t], a.index, a.acc, a.parsed)
  }

  ghost function Next<T>(s: System<T>, h: History<T>, a: Action<T>): System<T>
    requires Ready(s, h) && Enabled(s, h, a)
  {
    match a
    case Issue(t, _, _, _) => s.(k := Submit(s.k, t))
    case IssueCount(t) => s.(k := Submit(s.k, t))
    case Serve(n) => s.(st := Handle(s.st, h.issued[n].1))
    case Deliver(n) => s.(k := Complete(s.k, h.replies[n]))
    case TakeTrans(t) => s.(k := Alloc(s.k, t))
    case GiveBack(t) => s.(k := Return(s.k, t))
    case Edit(t, tr) => s.(k := s.k.(trans := s.k.trans[t := tr]))
    case Firmware(op) => s.(st := Perform(s.st, op))
  }

  ghost function Log<T>(h: History<T>, s: System<T>, a: Action<T>): History<T>
    requires Ready(s, h) && Enabled(s, h, a)
  {
    match a
    case Issue(t, _, _, _) =>
      h.(issued := h.issued + [(t, RequestOf(s, a))], toServe := h.toServe + {|h.issued|})
    case IssueCount(t) =>
      h.(issued := h.issued + [(t, RequestOf(s, a))], toServe := h.toServe + {|h.issued|})
    case Serve(n) =>
      h.(toServe := h.toServe - {n}, replies := h.replies[n := Handle(s.st, h.issued[n].1).rep],
         servedAt := h.servedAt[n := s.st])
    case Deliver(n) =>
      var t := h.issued[n].0;
      h.(replies := h.replies - {n}, completed := h.completed + {n},
         result := h.result[n := Next(s, h, a).k.trans[t]])
    case _ => h
  }

  // ---------- The invariant ----------

  /** Each request is at one stage: under way, answered, or completed. */
  ghost predicate Stages<T>(h: History<T>) {
    && (forall n :: n in h.toServe ==> n !in h.replies && n !in h.completed)
    && (forall n :: n in h.replies ==> n !in h.completed)
    && (forall n: nat :: n < |h.issued| <==> n in h.toServe || n in h.replies || n in h.completed)
    && (forall n :: n in h.servedAt <==> n in h.replies || n in h.completed)
    && (forall n :: n in h.result <==> n in h.completed)
  }

  /** Pending transactions and outstanding requests match one to one. */
  ghost predicate Matched<T>(s: System<T>, h: History<T>) {
    && s.k.nextSeq == |h.issued| % SEQ_RANGE
    && (forall n :: 0 <= n < |h.issued| ==> h.issued[n].1.seqNr == n % SEQ_RANGE)
    && (forall n: nat :: Outstanding(h, n) ==> n < |h.issued| <= n + SEQ_RANGE)
    && (forall n: nat :: Outstanding(h, n) ==>
          h.issued[n].0 in s.k.pending && h.issued[n].0 in s.k.trans && s.k.trans[h.issued[n].0].seqNr == n % SEQ_RANGE)
    && (forall n: nat, m: nat :: Outstanding(h, n) && Outstanding(h, m) && n != m ==> h.issued[n].0 != h.issued[m].0)
    && (forall t :: t in s.k.pending ==> exists n: nat :: Outstanding(h, n) && h.issued[n].0 == t)
  }

  /** Every response is the firmware's answer to its own request. */
  ghost predicate Answers<T>(h: History<T>) {
    && (forall n :: n in h.servedAt ==> n < |h.issued| && Healthy(h.servedAt[n]))
    && (forall n :: n in h.replies ==> n in h.servedAt && h.replies[n] == Handle(h.servedAt[n], h.issued[n].1).rep)
  }

  /** Every completed transaction was filled from the answer to its own request. */
  ghost predicate Results<T>(h: History<T>)
    requires Answers(h)
  {
    forall n :: n in h.result ==> n in h.servedAt && FilledFrom(h.result[n], Handle(h.servedAt[n], h.issued[n].1).rep)
  }

  ghost predicate FilledFrom(tr: Trans, rep: Msg) {
    |rep.data| == MSG_DATA_SIZE && exists before: Trans :: tr == Fill(before, rep)
  }

  ghost predicate Inv<T(!new)>(s: System<T>, h: History<T>) {
    && KernelInv(s.k) && Healthy(s.st)
    && Stages(h) && Matched(s, h) && Answers(h) && Results(h)
  }

  lemma SameNumber(n: nat, m: nat, top: nat)
    requires n < top <= n + SEQ_RANGE && m < top <= m + SEQ_RANGE && n % SEQ_RANGE == m % SEQ_RANGE
    ensures n == m
  {}

  /** The search by sequence number finds the transaction that issued request n. */
  lemma FindsIssuer<T(!new)>(s: System<T>, h: History<T>, n: nat)
    requires KernelInv(s.k) && Matched(s, h) && Outstanding(h, n)
    ensures var i := Find(s.k, n % SEQ_RANGE);
      i < |s.k.pending| && s.k.pending[i] == h.issued[n].0
  {
    var i := Find(s.k, n % SEQ_RANGE);
    var t := h.issued[n].0;
    var j :| 0 <= j < |s.k.pending| && s.k.pending[j] == t;
    assert i <= j;
    var u := s.k.pending[i];
    assert u in s.k.pending;
    var m: nat :| Outstanding(h, m) && h.issued[m].0 == u;
    SameNumber(n, m, |h.issued|);
  }

  /** A free transaction has no outstanding request. */
  lemma OwnedIsIdle<T(!new)>(s: System<T>, h: History<T>, t: T)
    requires Matched(s, h) && t !in s.k.pending
    ensures forall n: nat :: Outstanding(h, n) ==> h.issued[n].0 != t
  {}

  lemma InvReady<T(!new)>(s: System<T>, h: History<T>)
    requires Inv(s, h)
    ensures Ready(s, h)
  {
    forall n | n in h.replies ensures |h.replies[n].data| == MSG_DATA_SIZE {
      HandleKeeps(h.servedAt[n], h.issued[n].1);
    }
    assert forall n: nat :: n in h.toServe ==> Outstanding(h, n);
    assert forall n: nat :: n in h.replies ==> Outstanding(h, n);
  }

  // ---------- Each kind of step ----------

  ghost function Issued<T>(h: History<T>, t: T, m: Msg): History<T> {
    h.(issued := h.issued + [(t, m)], toServe := h.toServe + {|h.issued|})
  }

  lemma KeepIssue<T(!new)>(s: System<T>, h: History<T>, t: T, m: Msg)
    requires Inv(s, h) && Owned(s, t) && NoLap(h) && m.seqNr == s.k.nextSeq
    ensures Inv(s.(k := Submit(s.k, t)), Issued(h, t, m))
  {
    SubmitKeeps(s.k, t);
    IssueStages(h, t, m);
    IssueMatched(s, h, t, m);
  }

  lemma IssueStages<T(!new)>(h: History<T>, t: T, m: Msg)
    requires Stages(h) && Answers(h) && Results(h)
    ensures Stages(Issued(h, t, m)) && Answers(Issued(h, t, m)) && Results(Issued(h, t, m))
  {}

  lemma IssueMatched<T(!new)>(s: System<T>, h: History<T>, t: T, m: Msg)
    requires KernelInv(s.k) && Matched(s, h) && Owned(s, t) && NoLap(h) && m.seqNr == s.k.nextSeq
    ensures Matched(s.(k := Submit(s.k, t)), Issued(h, t, m))
  {
    OwnedIsIdle(s, h, t);
    var s', h' := s.(k := Submit(s.k, t)), Issued(h, t, m);
    assert forall n: nat :: Outstanding(h', n) <==> Outstanding(h, n) || n == |h.issued|;
    forall u | u in s'.k.pending ensures exists n: nat :: Outstanding(h', n) && h'.issued[n].0 == u {
      if u == t {
        assert Outstanding(h', |h.issued|) && h'.issued[|h.issued|].0 == u;
      } else {
        var n: nat :| Outstanding(h, n) && h.issued[n].0 == u;
        assert Outstanding(h', n) && h'.issued[n].0 == u;
      }
    }
  }

  lemma KeepServe<T(!new)>(s: System<T>, h: History<T>, n: nat)
    requires Inv(s, h) && n in h.toServe
    requires Ready(s, h)
    ensures Inv(Next(s, h, Serve(n)), Log(h, s, Serve(n)))
  {
    HandleKeeps(s.st, h.issued[n].1);
    ServeMatched(s, h, n);
    ServeHistory(s, h, n);
  }

  lemma ServeMatched<T(!new)>(s: System<T>, h: History<T>, n: nat)
    requires Matched(s, h) && Stages(h) && Ready(s, h) && n in h.toServe
    ensures Matched(Next(s, h, Serve(n)), Log(h, s, Serve(n)))
  {
    var h' := Log(h, s, Serve(n));
    assert forall m: nat :: Outstanding(h', m) <==> Outstanding(h, m);
    forall t | t in s.k.pending ensures exists m: nat :: Outstanding(h', m) && h'.issued[m].0 == t {
      var m: nat :| Outstanding(h, m) && h.issued[m].0 == t;
      assert Outstanding(h', m) && h'.issued[m].0 == t;
    }
  }

  lemma ServeHistory<T(!new)>(s: System<T>, h: History<T>, n: nat)
    requires Stages(h) && Answers(h) && Results(h) && Ready(s, h) && n in h.toServe
    ensures var h' := Log(h, s, Serve(n)); Stages(h') && Answers(h') && Results(h')
  {}

  lemma KeepDeliver<T(!new)>(s: System<T>, h: History<T>, n: nat)
    requires Inv(s, h) && n in h.replies
    requires Ready(s, h)
    ensures Inv(Next(s, h, Deliver(n)), Log(h, s, Deliver(n)))
  {
    CompleteKeeps(s.k, h.replies[n]);
    DeliverEffect(s, h, n);
    DeliverMatched(s, h, n);
    DeliverHistory(s, h, n);
  }

  /** A response completes exactly the transaction that issued its request: that
      one leaves the pending list and is filled; no other transaction changes. */
  lemma DeliverEffect<T(!new)>(s: System<T>, h: History<T>, n: nat)
    requires Inv(s, h) && n in h.replies
    requires Ready(s, h)
    ensures var k', t := Next(s, h, Deliver(n)).k, h.issued[n].0;
      && t in s.k.pending && t in s.k.trans
      && k'.trans == s.k.trans[t := Fill(s.k.trans[t], h.replies[n])]
      && (forall u :: u in k'.pending <==> u in s.k.pending && u != t)
      && k'.nextSeq == s.k.nextSeq && k'.unused == s.k.unused
  {
    assert Outstanding(h, n);
    HandleAnswers(h.servedAt[n], h.issued[n].1);
    FindsIssuer(s, h, n);
    CompleteKeeps(s.k, h.replies[n]);
  }

  lemma MatchedMinus<T(!new)>(s: System<T>, h: History<T>, s': System<T>, h': History<T>, n: nat)
    requires Matched(s, h) && Outstanding(h, n)
    requires h'.issued == h.issued && s'.k.nextSeq == s.k.nextSeq
    requires forall m: nat :: Outstanding(h', m) <==> Outstanding(h, m) && m != n
    requires forall u :: u in s'.k.pending <==> u in s.k.pending && u != h.issued[n].0
    requires forall u :: u in s.k.trans && u != h.issued[n].0 ==> u in s'.k.trans && s'.k.trans[u] == s.k.trans[u]
    ensures Matched(s', h')
  {
    forall u | u in s'.k.pending ensures exists m: nat :: Outstanding(h', m) && h'.issued[m].0 == u {
      var m: nat :| Outstanding(h, m) && h.issued[m].0 == u;
      assert Outstanding(h', m) && h'.issued[m].0 == u;
    }
  }

  lemma DeliverMatched<T(!new)>(s: System<T>, h: History<T>, n: nat)
    requires Inv(s, h) && n in h.replies
    requires Ready(s, h)
    ensures Matched(Next(s, h, Deliver(n)), Log(h, s, Deliver(n)))
  {
    hide Complete, Fill, Handle, Healthy, Answers, Results, Matched;
    DeliverEffect(s, h, n);
    MatchedMinus(s, h, Next(s, h, Deliver(n)), Log(h, s, Deliver(n)), n);
  }

  lemma DeliverHistory<T(!new)>(s: System<T>, h: History<T>, n: nat)
    requires Inv(s, h) && n in h.replies
    requires Ready(s, h)
    ensures var h' := Log(h, s, Deliver(n)); Stages(h') && Answers(h') && Results(h')
  {
    hide Complete, Fill, Handle, Healthy, Matched, KernelInv, Results;
    DeliverEffect(s, h, n);
    DeliverResults(s, h, n);
  }

  lemma DeliverResults<T(!new)>(s: System<T>, h: History<T>, n: nat)
    requires Inv(s, h) && n in h.replies
    requires Ready(s, h)
    ensures var h' := Log(h, s, Deliver(n)); Answers(h') && Results(h')
  {
    hide Complete, Fill, Handle, Healthy, Matched, KernelInv;
    DeliverEffect(s, h, n);
    assert FilledFrom(Log(h, s, Deliver(n)).result[n], h.replies[n]);
  }

  lemma KeepOwned<T(!new)>(s: System<T>, h: History<T>, k': Kernel<T>, t: T)
    requires Inv(s, h) && KernelInv(k') && t !in s.k.pending
    requires k'.pending == s.k.pending && k'.nextSeq == s.k.nextSeq
    requires forall u :: u in s.k.trans && u != t ==> u in k'.trans && k'.trans[u] == s.k.trans[u]
    ensures Inv(s.(k := k'), h)
  {
    OwnedIsIdle(s, h, t);
  }

  /** Every step keeps the invariant. */
  lemma StepKeepsInv<T(!new)>(s: System<T>, h: History<T>, a: Action<T>)
    requires Inv(s, h) && Ready(s, h) && Enabled(s, h, a)
    ensures Inv(Next(s, h, a), Log(h, s, a))
  {
    hide Inv, Ready, Handle, Complete, Healthy, Perform;
    InvKernel(s, h);
    match a
    case Issue(t, _, _, _) => KeepIssue(s, h, t, RequestOf(s, a));
    case IssueCount(t) => KeepIssue(s, h, t, RequestOf(s, a));
    case Serve(n) => KeepServe(s, h, n);
    case Deliver(n) => KeepDeliver(s, h, n);
    case TakeTrans(t) =>
      AllocKeeps(s.k, t);
      KeepOwned(s, h, Alloc(s.k, t), t);
    case GiveBack(t) =>
      ReturnKeeps(s.k, t);
      KeepOwned(s, h, Return(s.k, t), t);
    case Edit(t, tr) =>
      KeepOwned(s, h, s.k.(trans := s.k.trans[t := tr]), t);
    case Firmware(op) =>
      KeepFirmware(s, h, op);
  }

  lemma InvKernel<T(!new)>(s: System<T>, h: History<T>)
    requires Inv(s, h)
    ensures KernelInv(s.k)
  {}

  lemma KeepFirmware<T(!new)>(s: System<T>, h: History<T>, op: StoreOp)
    requires Inv(s, h)
    ensures Healthy(s.st) && Inv(s.(st := Perform(s.st, op)), h)
  {
    PerformKeeps(s.st, op);
  }

  // ---------- Whole runs ----------

  ghost predicate Runs<T>(s: System<T>, h: History<T>, run: seq<Action<T>>)
    decreases |run|
  {
    run != [] ==> Ready(s, h) && Enabled(s, h, run[0]) && Runs(Next(s, h, run[0]), Log(h, s, run[0]), run[1..])
  }

  ghost function After<T>(s: System<T>, h: History<T>, run: seq<Action<T>>): (System<T>, History<T>)
    requires Runs(s, h, run)
    decreases |run|
  {
    if run == [] then (s, h) else After(Next(s, h, run[0]), Log(h, s, run[0]), run[1..])
  }

  lemma {:induction false} RunKeepsInv<T(!new)>(s: System<T>, h: History<T>, run: seq<Action<T>>)
    requires Inv(s, h) && Runs(s, h, run)
    ensures Inv(After(s, h, run).0, After(s, h, run).1)
    decreases |run|
  {
    hide Inv, Ready, Next, Log;
    if run != [] {
      StepKeepsInv(s, h, run[0]);
      RunKeepsInv(Next(s, h, run[0]), Log(h, s, run[0]), run[1..]);
    }
  }

  ghost function Nothing<T>(): History<T> {
    History([], {}, map[], {}, map[], map[])
  }

  /** At the start no request has been sent; spare transactions may lie in the
      unused list. */
  ghost predicate Start<T(!new)>(s: System<T>) {
    KernelInv(s.k) && s.k.pending == [] && s.k.nextSeq == 0 && Healthy(s.st)
  }

  lemma StartInv<T(!new)>(s: System<T>)
    requires Start(s)
    ensures Inv(s, Nothing<T>())
  {}

  // ---------- What a run guarantees ----------

  /** The pending transactions carry pairwise distinct sequence numbers, each that
      of its own outstanding request. */
  lemma PendingDistinct<T(!new)>(s: System<T>, run: seq<Action<T>>)
    requires Start(s) && Runs(s, Nothing<T>(), run)
    ensures var k := After(s, Nothing<T>(), run).0.k;
      && (forall t :: t in k.pending ==> t in k.trans)
      && forall t, u :: t in k.pending && u in k.pending && t != u ==> k.trans[t].seqNr != k.trans[u].seqNr
  {
    StartInv(s);
    RunKeepsInv(s, Nothing<T>(), run);
    var (s', h) := After(s, Nothing<T>(), run);
    forall t, u | t in s'.k.pending && u in s'.k.pending && t != u
      ensures s'.k.trans[t].seqNr != s'.k.trans[u].seqNr
    {
      var n: nat :| Outstanding(h, n) && h.issued[n].0 == t;
      var m: nat :| Outstanding(h, m) && h.issued[m].0 == u;
      if n % SEQ_RANGE == m % SEQ_RANGE {
        SameNumber(n, m, |h.issued|);
      }
    }
  }

  /** In every reachable state each request is at exactly one stage, and its one
      response, while under way, is the firmware's answer to it under its own
      sequence number. */
  lemma OneResponseEach<T(!new)>(s: System<T>, run: seq<Action<T>>, n: nat)
    requires Start(s) && Runs(s, Nothing<T>(), run)
    requires n < |After(s, Nothing<T>(), run).1.issued|
    ensures var (s', h) := After(s, Nothing<T>(), run);
      && Ready(s', h)
      && Count(n in h.toServe) + Count(n in h.replies) + Count(n in h.completed) == 1
      && (n in h.replies ==> n in h.servedAt && Healthy(h.servedAt[n]) && h.replies[n].seqNr == n % SEQ_RANGE)
      && (n in h.replies ==> h.replies[n] == Handle(h.servedAt[n], h.issued[n].1).rep)
  {
    StartInv(s);
    RunKeepsInv(s, Nothing<T>(), run);
    var (s', h) := After(s, Nothing<T>(), run);
    InvReady(s', h);
    if n in h.replies {
      HandleAnswers(h.servedAt[n], h.issued[n].1);
    }
  }

  /** The next sequence number is free among the pending transactions exactly when
      no outstanding request is 2^32 requests old, however few are outstanding. */
  lemma NoLapIsExact<T(!new)>(s: System<T>, h: History<T>)
    requires Inv(s, h)
    ensures NoLap(h) <==> forall t :: t in s.k.pending ==> s.k.trans[t].seqNr != s.k.nextSeq
  {
    if NoLap(h) {
      forall t | t in s.k.pending ensures s.k.trans[t].seqNr != s.k.nextSeq {
        var n: nat :| Outstanding(h, n) && h.issued[n].0 == t;
        if n % SEQ_RANGE == |h.issued| % SEQ_RANGE {
          SameNumber(n, |h.issued|, |h.issued| + 1);
        }
      }
    } else {
      var n: nat :| Outstanding(h, n) && !(|h.issued| < n + SEQ_RANGE);
      var t := h.issued[n].0;
      assert t in s.k.pending && s.k.trans[t].seqNr == n % SEQ_RANGE == s.k.nextSeq;
    }
  }

  /** Each request is served at most once and completed at most once; one that is
      completed left in its transaction the content of the firmware's answer to
      that very request. */
  lemma CompletedHoldsAnswer<T(!new)>(s: System<T>, run: seq<Action<T>>, n: nat)
    requires Start(s) && Runs(s, Nothing<T>(), run)
    requires n in After(s, Nothing<T>(), run).1.completed
    ensures var h := After(s, Nothing<T>(), run).1;
      && n < |h.issued| && n !in h.toServe && n !in h.replies
      && n in h.servedAt && n in h.result && Healthy(h.servedAt[n])
      && Holds(h.result[n], h.issued[n].1, h.servedAt[n])
  {
    StartInv(s);
    RunKeepsInv(s, Nothing<T>(), run);
    var h := After(s, Nothing<T>(), run).1;
    FilledHolds(h.result[n], h.issued[n].1, h.servedAt[n]);
  }

  /** The buffer holds the number and a newline, and its length is right. */
  ghost predicate ShowsNumber(tr: Trans, n: int) {
    && tr.buf != "" && tr.len == |tr.buf| && tr.err == 0
    && tr.buf[|tr.buf| - 1] == '\n' && Spells(tr.buf[..|tr.buf| - 1], n)
  }

  ghost predicate ShowsText(tr: Trans, text: string) {
    tr.buf == (if |text| <= 76 then text else text[..76]) && tr.len == |tr.buf| && tr.err == 0
  }

  /** The buffer names the index that was refused and the number of the message. */
  ghost predicate ShowsIdError(tr: Trans, req: Msg) {
    && tr.err == 130 && tr.len == |tr.buf|
    && (-0x8000_0000 <= req.ind < 0x8000_0000 ==> exists a, b ::
          && Spells(a, req.ind) && Spells(b, Signed32(req.seqNr))
          && tr.buf == "received ID error for id " + a + " in msg nr " + b + "\n")
  }

  ghost predicate ShowsRequestError(tr: Trans, req: Msg) {
    && tr.err == 255 && tr.len == |tr.buf|
    && exists b :: Spells(b, Signed32(req.seqNr)) && tr.buf == "received request error for msg nr " + b + "\n"
  }

  /** A filled transaction, read by the client, answers request `req` as served in
      store `st`: numbers in decimal with a newline, texts cut to 76 characters
      and never taken for too long. */
  ghost predicate Holds(tr: Trans, req: Msg, st: Store)
    requires Healthy(st)
  {
    tr.valid &&
    if req.typ == REQ_NOP then tr.len == 0 && tr.err == 0
    else if req.typ == REQ_N_VARS then tr.len == 0
    else if !(0 <= req.ind < |st.vars|) then ShowsIdError(tr, req)
    else
      var v := st.vars[req.ind];
      && (req.typ == REQ_NAME ==> ShowsText(tr, v.name))
      && (req.typ == REQ_DESC ==> ShowsText(tr, v.desc))
      && (req.typ == REQ_RD_MIN ==> ShowsNumber(tr, v.min))
      && (req.typ == REQ_RD_MAX ==> ShowsNumber(tr, v.max))
      && (req.typ == REQ_RD ==> ShowsNumber(tr, Handle(st, req).vars[req.ind].val))
      && (req.typ == REQ_WR ==> tr.len == 0 && tr.err == 0)
      && (req.typ > REQ_DESC ==> ShowsRequestError(tr, req))
  }

  lemma NumberShown(before: Trans, text: string, n: Int32)
    requires text == Decimal(n) + "\n"
    ensures ShowsNumber(WithText(before, text, 0), n)
  {
    hide Spells, Decimal;
    DecimalSpells(n);
    assert text[..|text| - 1] == Decimal(n);
  }

  lemma IdErrorShown(before: Trans, req: Msg)
    ensures var text := "received ID error for id " + Decimal(req.ind) + " in msg nr "
        + Decimal(Signed32(req.seqNr)) + "\n";
      ShowsIdError(WithText(before, text, RES_ID_ERR), req)
  {
    hide Spells, Decimal;
    DecimalSpells(req.ind);
    DecimalSpells(Signed32(req.seqNr));
  }

  lemma RequestErrorShown(before: Trans, req: Msg)
    ensures var text := "received request error for msg nr " + Decimal(Signed32(req.seqNr)) + "\n";
      ShowsRequestError(WithText(before, text, RES_REQ_ERR), req)
  {
    hide Spells, Decimal;
    DecimalSpells(Signed32(req.seqNr));
  }

  lemma FilledHolds(tr: Trans, req: Msg, st: Store)
    requires Healthy(st) && FilledFrom(tr, Handle(st, req).rep)
    ensures Holds(tr, req, st)
  {
    hide Handle, Printed, Decimal, ShowsNumber, ShowsIdError, ShowsRequestError;
    HandleAnswers(st, req);
    HandleKeeps(st, req);
    var rep := Handle(st, req).rep;
    var before: Trans :| tr == Fill(before, rep);
    IdErrorShown(before, req);
    RequestErrorShown(before, req);
    if rep.typ == RES_RD_VAL || rep.typ == RES_RD_MIN || rep.typ == RES_RD_MAX {
      NumberShown(before, Decimal(rep.val) + "\n", rep.val);
    }
  }

  /** From the client's access to its buffer: asking for the name, description,
      value or a limit of a variable gets that; a write stores the parsed number,
      moved into the limits; and the transaction's other fields stay. */
  lemma AccessAnswered(seqNr: nat, tr: Trans, index: int, acc: Access, parsed: Option<int>, st: Store, before: Trans)
    requires Healthy(st) && CanRequest(tr, acc, parsed) && 0 <= index < |st.vars|
    ensures var req := RequestFor(seqNr, tr, index, acc, parsed);
      var st', v := Handle(st, req), st.vars[index];
      && st'.rep.seqNr == seqNr && |st'.rep.data| == MSG_DATA_SIZE
      && var filled := Fill(before, st'.rep);
      && filled.valid && filled.err == 0
      && filled.(buf := before.buf, len := before.len, valid := before.valid, err := before.err) == before
      && (acc == AccName ==> ShowsText(filled, v.name))
      && (acc == AccDesc ==> ShowsText(filled, v.desc))
      && (acc == AccMin ==> ShowsNumber(filled, v.min))
      && (acc == AccMax ==> ShowsNumber(filled, v.max))
      && (acc == AccVal && tr.rnw ==> ShowsNumber(filled, st'.vars[index].val))
      && (acc == AccVal && !tr.rnw ==>
            && (parsed.value > v.max ==> st'.vars[index].val == v.max)
            && (parsed.value < v.min ==> st'.vars[index].val == v.min)
            && (v.min <= parsed.value <= v.max ==> st'.vars[index].val == parsed.value))
  {
    hide Handle, ShowsNumber, ShowsIdError, ShowsRequestError;
    var req := RequestFor(seqNr, tr, index, acc, parsed);
    HandleAnswers(st, req);
    if req.typ == REQ_WR {
      WriteStoresNearest(st, req);
    }
    FilledHolds(Fill(before, Handle(st, req).rep), req, st);
  }

  // ---------- The number of variables ----------

  /** Some request for the number of variables has been answered. */
  ghost predicate Counted<T>(h: History<T>) {
    exists n: nat :: n < |h.issued| && n in h.completed && h.issued[n].1.typ == REQ_N_VARS
  }

  /** The firmware's table keeps its length, and the kernel knows it once it has
      been told. */
  ghost predicate CountInv<T>(s: System<T>, h: History<T>) {
    && (forall n :: n in h.servedAt ==> |h.servedAt[n].vars| == |s.st.vars|)
    && (Counted(h) ==> s.k.nVars == |s.st.vars|)
  }

  /** Only the answer to a request for the number sets the kernel's copy. */
  lemma DeliverTells<T(!new)>(s: System<T>, h: History<T>, n: nat)
    requires Inv(s, h) && Ready(s, h) && n in h.replies
    ensures n < |h.issued| && n in h.servedAt
    ensures Next(s, h, Deliver(n)).k.nVars ==
      if h.issued[n].1.typ == REQ_N_VARS then |h.servedAt[n].vars| else s.k.nVars
  {
    hide Handle, Fill, Healthy, KernelInv, Results, Ready;
    HandleAnswers(h.servedAt[n], h.issued[n].1);
    assert Outstanding(h, n);
    FindsIssuer(s, h, n);
  }

  lemma DeliverKeepsCount<T(!new)>(s: System<T>, h: History<T>, n: nat)
    requires Inv(s, h) && Ready(s, h) && n in h.replies && CountInv(s, h)
    ensures CountInv(Next(s, h, Deliver(n)), Log(h, s, Deliver(n)))
  {
    hide Inv, Ready, Complete, Handle;
    DeliverTells(s, h, n);
    var h' := Log(h, s, Deliver(n));
    if Counted(h') {
      var m: nat :| m < |h'.issued| && m in h'.completed && h'.issued[m].1.typ == REQ_N_VARS;
      assert m != n ==> Counted(h);
    }
  }

  lemma StepKeepsCount<T(!new)>(s: System<T>, h: History<T>, a: Action<T>)
    requires Inv(s, h) && Ready(s, h) && Enabled(s, h, a) && CountInv(s, h)
    ensures CountInv(Next(s, h, a), Log(h, s, a))
  {
    hide Inv, Handle, Complete, Perform, Healthy, Counted;
    InvStages(s, h);
    match a
    case Deliver(n) => DeliverKeepsCount(s, h, n);
    case Serve(n) =>
      HandleKeeps(s.st, h.issued[n].1);
      CountedStays(h, Log(h, s, a));
    case Firmware(op) => PerformKeeps(s.st, op);
    case Issue(_, _, _, _) => CountedStays(h, Log(h, s, a));
    case IssueCount(_) => CountedStays(h, Log(h, s, a));
    case TakeTrans(_) =>
    case GiveBack(_) =>
    case Edit(_, _) =>
  }

  lemma InvStages<T(!new)>(s: System<T>, h: History<T>)
    requires Inv(s, h)
    ensures forall n: nat :: n in h.completed ==> n < |h.issued|
  {}

  lemma CountedStays<T>(h: History<T>, h': History<T>)
    requires h.issued <= h'.issued && h'.completed == h.completed
    requires forall n: nat :: n in h.completed ==> n < |h.issued|
    ensures Counted(h') ==> Counted(h)
  {
    if Counted(h') {
      var m: nat :| m < |h'.issued| && m in h'.completed && h'.issued[m].1.typ == REQ_N_VARS;
      assert h'.issued[m] == h.issued[m];
    }
  }

  lemma {:induction false} RunKeepsCount<T(!new)>(s: System<T>, h: History<T>, run: seq<Action<T>>)
    requires Inv(s, h) && Runs(s, h, run) && CountInv(s, h)
    ensures CountInv(After(s, h, run).0, After(s, h, run).1)
    decreases |run|
  {
    hide Inv, Ready, Next, Log, CountInv;
    if run != [] {
      StepKeepsInv(s, h, run[0]);
      StepKeepsCount(s, h, run[0]);
      RunKeepsCount(Next(s, h, run[0]), Log(h, s, run[0]), run[1..]);
    }
  }

  /** From the moment a request for the number of variables is completed, the
      kernel's copy of it is the length of the firmware's table. */
  lemma CountArrives<T(!new)>(s: System<T>, run: seq<Action<T>>)
    requires Start(s) && Runs(s, Nothing<T>(), run)
    ensures var (s', h) := After(s, Nothing<T>(), run);
      Counted(h) ==> s'.k.nVars == |s'.st.vars|
  {
    StartInv(s);
    RunKeepsCount(s, Nothing<T>(), run);
  }
}
