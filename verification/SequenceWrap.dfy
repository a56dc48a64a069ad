/** How the sequence numbers of pending transactions come to collide: a request
    stays without answer while 2^32 - 1 others are sent and answered, one at a time,
    so that never more than two are outstanding. */
module SequenceWrap {
  import opened Config
  import opened RpmsgLink
  import opened Protocol

  lemma {:induction false} Joined<T>(s: System<T>, h: History<T>, run: seq<Action<T>>, rest: seq<Action<T>>)
    requires Runs(s, h, run) && Runs(After(s, h, run).0, After(s, h, run).1, rest)
    ensures Runs(s, h, run + rest)
    ensures After(s, h, run + rest) == After(After(s, h, run).0, After(s, h, run).1, rest)
    decreases |run|
  {
    hide Ready, Enabled, Next, Log;
    if run == [] {
      assert run + rest == rest;
    } else {
      assert (run + rest)[1..] == run[1..] + rest;
      Joined(Next(s, h, run[0]), Log(h, s, run[0]), run[1..], rest);
    }
  }

  lemma OneStep<T>(s: System<T>, h: History<T>, a: Action<T>)
    requires Ready(s, h) && Enabled(s, h, a)
    ensures Runs(s, h, [a]) && After(s, h, [a]) == (Next(s, h, a), Log(h, s, a))
  {
    hide Ready, Enabled, Next, Log;
    var s', h' := Next(s, h, a), Log(h, s, a);
    assert [a][0] == a && [a][1..] == [];
    assert Runs(s', h', []) && After(s', h', []) == (s', h');
  }

  /** After n requests only request 0 of transaction `a` is outstanding, and `b`
      is free. */
  ghost predicate Lone<T(!new)>(s: System<T>, h: History<T>, a: T, b: T, n: nat) {
    && Inv(s, h) && Owned(s, b) && a != b
    && |h.issued| == n > 0 && h.issued[0].0 == a
    && forall m: nat :: Outstanding(h, m) <==> m == 0
  }

  /** Transaction b has sent request n, and nothing else happened. */
  ghost predicate Second<T(!new)>(s: System<T>, h: History<T>, a: T, b: T, n: nat) {
    && Inv(s, h) && a != b && b !in s.k.unused
    && |h.issued| == n + 1 > 1 && h.issued[0].0 == a && h.issued[n].0 == b
    && forall m: nat :: Outstanding(h, m) <==> m == 0 || m == n
  }

  lemma Sends<T(!new)>(s: System<T>, h: History<T>, a: T, b: T, n: nat)
    requires Lone(s, h, a, b, n) && n < SEQ_RANGE
    ensures Ready(s, h) && Enabled(s, h, IssueCount(b))
    ensures Second(Next(s, h, IssueCount(b)), Log(h, s, IssueCount(b)), a, b, n)
    ensures n in Log(h, s, IssueCount(b)).toServe
  {
    hide Inv, Ready;
    InvReady(s, h);
    assert NoLap(h);
    StepKeepsInv(s, h, IssueCount(b));
    assert forall m: nat :: Outstanding(Log(h, s, IssueCount(b)), m) <==> Outstanding(h, m) || m == n;
  }

  lemma IsServed<T(!new)>(s: System<T>, h: History<T>, a: T, b: T, n: nat)
    requires Second(s, h, a, b, n) && n in h.toServe
    ensures Ready(s, h)
    ensures Second(Next(s, h, Serve(n)), Log(h, s, Serve(n)), a, b, n)
    ensures n in Log(h, s, Serve(n)).replies
  {
    hide Inv, Ready, Handle;
    InvReady(s, h);
    StepKeepsInv(s, h, Serve(n));
    assert forall m: nat :: Outstanding(Log(h, s, Serve(n)), m) <==> Outstanding(h, m);
  }

  lemma IsAnswered<T(!new)>(s: System<T>, h: History<T>, a: T, b: T, n: nat)
    requires Second(s, h, a, b, n) && n in h.replies
    ensures Ready(s, h)
    ensures Lone(Next(s, h, Deliver(n)), Log(h, s, Deliver(n)), a, b, n + 1)
  {
    hide Inv, Ready, Next, Log, Outstanding;
    InvReady(s, h);
    DeliverLeaves(s, h, n);
    DeliverEffect(s, h, n);
    StepKeepsInv(s, h, Deliver(n));
  }

  lemma DeliverLeaves<T(!new)>(s: System<T>, h: History<T>, n: nat)
    requires Inv(s, h) && Ready(s, h) && n in h.replies
    ensures var h' := Log(h, s, Deliver(n));
      h'.issued == h.issued && forall m: nat :: Outstanding(h', m) <==> Outstanding(h, m) && m != n
  {
    hide Ready, Next, Matched, Answers, Results, KernelInv, Healthy;
  }

  /** One request more, sent and answered while request 0 waits. */
  lemma OneMore<T(!new)>(s: System<T>, h: History<T>, a: T, b: T, n: nat)
    requires Lone(s, h, a, b, n) && n < SEQ_RANGE
    ensures var run := [IssueCount(b)] + [Serve(n)] + [Deliver(n)];
      Runs(s, h, run) && Lone(After(s, h, run).0, After(s, h, run).1, a, b, n + 1)
  {
    hide Lone, Second, Ready, Next, Log;
    Sends(s, h, a, b, n);
    OneStep(s, h, IssueCount(b));
    var s1, h1 := Next(s, h, IssueCount(b)), Log(h, s, IssueCount(b));
    IsServed(s1, h1, a, b, n);
    OneStep(s1, h1, Serve(n));
    Joined(s, h, [IssueCount(b)], [Serve(n)]);
    var s2, h2 := Next(s1, h1, Serve(n)), Log(h1, s1, Serve(n));
    IsAnswered(s2, h2, a, b, n);
    OneStep(s2, h2, Deliver(n));
    Joined(s, h, [IssueCount(b)] + [Serve(n)], [Deliver(n)]);
  }

  lemma FirstRequest<T(!new)>(s: System<T>, a: T, b: T)
    requires Start(s) && Owned(s, a) && Owned(s, b) && a != b
    ensures Runs(s, Nothing<T>(), [IssueCount(a)])
    ensures Lone(After(s, Nothing<T>(), [IssueCount(a)]).0, After(s, Nothing<T>(), [IssueCount(a)]).1, a, b, 1)
  {
    hide Inv, Ready;
    StartInv(s);
    InvReady(s, Nothing<T>());
    OneStep(s, Nothing<T>(), IssueCount(a));
    StepKeepsInv(s, Nothing<T>(), IssueCount(a));
  }

  lemma {:induction false} Requests<T(!new)>(s: System<T>, a: T, b: T, n: nat) returns (run: seq<Action<T>>)
    requires Start(s) && Owned(s, a) && Owned(s, b) && a != b && 0 < n <= SEQ_RANGE
    ensures Runs(s, Nothing<T>(), run)
    ensures Lone(After(s, Nothing<T>(), run).0, After(s, Nothing<T>(), run).1, a, b, n)
    decreases n
  {
    hide Lone, Start, Owned, Runs, After;
    if n == 1 {
      FirstRequest(s, a, b);
      run := [IssueCount(a)];
    } else {
      run := Requests(s, a, b, n - 1);
      var (s', h') := After(s, Nothing<T>(), run);
      OneMore(s', h', a, b, n - 1);
      var rest := [IssueCount(b)] + [Serve(n - 1)] + [Deliver(n - 1)];
      Joined(s, Nothing<T>(), run, rest);
      run := run + rest;
    }
  }

  /** From every start with two transactions a run leads to a state in which `a`
      alone is pending and the next sequence number is its own.  If `b` sends now,
      both are pending under one number, and the answer to request 0 completes
      `b`. */
  lemma CollisionReachable<T(!new)>(s: System<T>, a: T, b: T) returns (run: seq<Action<T>>)
    requires Start(s) && Owned(s, a) && Owned(s, b) && a != b
    ensures Runs(s, Nothing<T>(), run)
    ensures var (s', h) := After(s, Nothing<T>(), run);
      && !NoLap(h) && (forall n: nat :: Outstanding(h, n) <==> n == 0)
      && (forall t :: t in s'.k.pending <==> t == a)
      && a in s'.k.trans && s'.k.trans[a].seqNr == s'.k.nextSeq && Owned(s', b)
      && var k := Submit(s'.k, b);
         && (forall t :: t in k.pending ==> t in k.trans)
         && k.trans[a].seqNr == k.trans[b].seqNr == h.issued[0].1.seqNr
         && Find(k, h.issued[0].1.seqNr) == 0 && k.pending[0] == b
  {
    run := Requests(s, a, b, SEQ_RANGE);
    var (s', h) := After(s, Nothing<T>(), run);
    Collides(s', h, a, b);
  }

  lemma Collides<T(!new)>(s: System<T>, h: History<T>, a: T, b: T)
    requires Lone(s, h, a, b, SEQ_RANGE)
    ensures !NoLap(h) && forall t :: t in s.k.pending <==> t == a
    ensures a in s.k.trans && s.k.trans[a].seqNr == s.k.nextSeq == h.issued[0].1.seqNr
    ensures var k := Submit(s.k, b);
      && (forall t :: t in k.pending ==> t in k.trans)
      && k.trans[a].seqNr == k.trans[b].seqNr == h.issued[0].1.seqNr
      && Find(k, h.issued[0].1.seqNr) == 0 && k.pending[0] == b
  {
    hide Answers, Results, Stages, Healthy;
    assert Outstanding(h, 0);
  }
}
