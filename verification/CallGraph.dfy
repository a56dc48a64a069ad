/** The call-graph recorder of the profiling library: two tables, one of callers
    growing upwards and one of callees growing downwards, with each caller's
    callees chained through links that are counted from the far end of the
    callee table.

    A Table is the memory read so that link L names entry L: `recs[L]` is the
    callee entry that lies L places before the end of the callee table.  The
    class GmonParam holds the real layout. */
module CallGraph {

  type Pc = nat

  const NO_LINK := -1

  /** The largest number of callee entries that a `short` link can address. */
  const MAX_TOS := 32768

  datatype FromEntry = FromEntry(frompc: Pc, link: int)
  datatype ToEntry = ToEntry(selfpc: Pc, count: nat, link: int)
  datatype Table = Table(froms: seq<FromEntry>, recs: seq<ToEntry>)

  /** Conversion to the 16-bit signed `short` in which links are stored. */
  function ToShort(x: int): int {
    (x + 0x8000) % 0x10000 - 0x8000
  }

  /** Every link leads to an older entry, so that a walk along links ends. */
  ghost predicate WellLinked(t: Table) {
    && (forall k :: 0 <= k < |t.recs| ==> NO_LINK <= t.recs[k].link < k)
    && (forall i :: 0 <= i < |t.froms| ==> NO_LINK <= t.froms[i].link < |t.recs|)
  }

  ghost predicate LinksDecrease(recs: seq<ToEntry>) {
    forall k :: 0 <= k < |recs| ==> NO_LINK <= recs[k].link < k
  }

  /** The caller entry with key `pc`, or -1. */
  ghost function FindFrom(froms: seq<FromEntry>, pc: Pc): (i: int)
    ensures -1 <= i < |froms|
    ensures i == -1 ==> forall j :: 0 <= j < |froms| ==> froms[j].frompc != pc
    ensures i != -1 ==> froms[i].frompc == pc && forall j :: 0 <= j < i ==> froms[j].frompc != pc
  {
    if froms == [] then -1
    else
      var i := FindFrom(froms[..|froms| - 1], pc);
      if i != -1 then i
      else if froms[|froms| - 1].frompc == pc then |froms| - 1
      else -1
  }

  /** Entry `k` lies on the chain that starts at `link`. */
  ghost predicate InChain(recs: seq<ToEntry>, link: int, k: int)
    requires LinksDecrease(recs) && NO_LINK <= link < |recs|
    decreases link
  {
    link != NO_LINK && (link == k || InChain(recs, recs[link].link, k))
  }

  /** The first entry for `selfpc` on the chain that starts at `link`, or -1. */
  ghost function Walk(recs: seq<ToEntry>, link: int, selfpc: Pc): (k: int)
    requires LinksDecrease(recs) && NO_LINK <= link < |recs|
    ensures k == NO_LINK || (0 <= k < |recs| && recs[k].selfpc == selfpc && InChain(recs, link, k))
    ensures k == NO_LINK ==> forall j :: InChain(recs, link, j) ==> 0 <= j < |recs| && recs[j].selfpc != selfpc
    decreases link
  {
    if link == NO_LINK then NO_LINK
    else if recs[link].selfpc == selfpc then link
    else Walk(recs, recs[link].link, selfpc)
  }

  /** The table once `frompc` has a caller entry. */
  ghost function WithFrom(t: Table, frompc: Pc): Table {
    if FindFrom(t.froms, frompc) == -1 then t.(froms := t.froms + [FromEntry(frompc, NO_LINK)]) else t
  }

  ghost function FromIndex(t: Table, frompc: Pc): (i: nat)
    ensures i < |WithFrom(t, frompc).froms| && WithFrom(t, frompc).froms[i].frompc == frompc
  {
    if FindFrom(t.froms, frompc) == -1 then |t.froms| else FindFrom(t.froms, frompc)
  }

  function Bumped(recs: seq<ToEntry>, k: nat): seq<ToEntry>
    requires k < |recs|
  {
    recs[k := recs[k].(count := recs[k].count + 1)]
  }

  /** A new callee entry at the head of the chain of caller `fi`. */
  function Push(t: Table, fi: nat, selfpc: Pc): Table
    requires fi < |t.froms|
  {
    Table(t.froms[fi := t.froms[fi].(link := ToShort(|t.recs|))],
          t.recs + [ToEntry(selfpc, 1, t.froms[fi].link)])
  }

  ghost function AddCallee(t: Table, fi: nat, selfpc: Pc): Table
    requires WellLinked(t) && fi < |t.froms|
  {
    var k := Walk(t.recs, t.froms[fi].link, selfpc);
    if k != NO_LINK then t.(recs := Bumped(t.recs, k)) else Push(t, fi, selfpc)
  }

  /** The table after one recorded call. */
  ghost function Record(t: Table, frompc: Pc, selfpc: Pc): Table
    requires WellLinked(t)
  {
    AddCallee(WithFrom(t, frompc), FromIndex(t, frompc), selfpc)
  }

  /** What a reader of the table finds for the arc (frompc, selfpc). */
  ghost function Lookup(t: Table, frompc: Pc, selfpc: Pc): nat
    requires WellLinked(t)
  {
    var i := FindFrom(t.froms, frompc);
    if i == -1 then 0
    else
      var k := Walk(t.recs, t.froms[i].link, selfpc);
      if k == NO_LINK then 0 else t.recs[k].count
  }

  // ---------- The reference: a plain list of the calls made so far ----------

  type Call = (Pc, Pc)

  ghost function Occurrences(calls: seq<Call>, c: Call): nat {
    if calls == [] then 0
    else Occurrences(calls[..|calls| - 1], c) + (if calls[|calls| - 1] == c then 1 else 0)
  }

  ghost function Arcs(calls: seq<Call>): set<Call> {
    set c | c in calls
  }

  lemma {:induction false} OccurrencesZero(calls: seq<Call>, c: Call)
    ensures Occurrences(calls, c) == 0 <==> c !in calls
  {
    if calls != [] {
      var n := |calls| - 1;
      OccurrencesZero(calls[..n], c);
      assert calls == calls[..n] + [calls[n]];
    }
  }

  lemma OccurrencesAppend(calls: seq<Call>, d: Call, c: Call)
    ensures Occurrences(calls + [d], c) == Occurrences(calls, c) + (if c == d then 1 else 0)
  {
    assert (calls + [d])[..|calls|] == calls;
  }

  ghost function SumCounts(recs: seq<ToEntry>): nat {
    if recs == [] then 0 else SumCounts(recs[..|recs| - 1]) + recs[|recs| - 1].count
  }

  lemma {:induction false} SumCountsBump(recs: seq<ToEntry>, k: nat)
    requires k < |recs|
    ensures SumCounts(recs[k := recs[k].(count := recs[k].count + 1)]) == SumCounts(recs) + 1
  {
    var recs' := recs[k := recs[k].(count := recs[k].count + 1)];
    var n := |recs| - 1;
    if k < n {
      SumCountsBump(recs[..n], k);
      assert recs'[..n] == recs[..n][k := recs[k].(count := recs[k].count + 1)];
    } else {
      assert recs'[..n] == recs[..n];
    }
  }

  // ---------- The invariant ----------

  /** Each caller has one entry; `owner` splits the callee entries into one chain
      per caller. */
  ghost predicate Shape(t: Table, owner: seq<nat>) {
    && WellLinked(t)
    && (forall i, j :: 0 <= i < j < |t.froms| ==> t.froms[i].frompc != t.froms[j].frompc)
    && |owner| == |t.recs|
    && (forall k :: 0 <= k < |owner| ==> owner[k] < |t.froms|)
    && (forall i :: 0 <= i < |t.froms| && t.froms[i].link != NO_LINK ==> owner[t.froms[i].link] == i)
    && (forall k :: 0 <= k < |t.recs| && t.recs[k].link != NO_LINK ==> owner[t.recs[k].link] == owner[k])
    && (forall k :: 0 <= k < |t.recs| ==> InChain(t.recs, t.froms[owner[k]].link, k))
    && (forall j, k :: 0 <= j < k < |t.recs| && owner[j] == owner[k] ==> t.recs[j].selfpc != t.recs[k].selfpc)
  }

  /** The arc that each callee entry stands for. */
  ghost function ArcsOf(t: Table, owner: seq<nat>): seq<Call>
    requires Shape(t, owner)
  {
    seq(|t.recs|, k requires 0 <= k < |t.recs| => (t.froms[owner[k]].frompc, t.recs[k].selfpc))
  }

  /** The counters of the callee entries, standing for `arcs`, tell how often each
      arc occurs among `calls`; every arc called has its entry. */
  ghost predicate Tally(recs: seq<ToEntry>, arcs: seq<Call>, calls: seq<Call>) {
    && |arcs| == |recs|
    && (forall k :: 0 <= k < |recs| ==> recs[k].count == Occurrences(calls, arcs[k]) > 0)
    && (forall c :: c in calls ==> c in arcs)
    && SumCounts(recs) == |calls|
    && |recs| == |Arcs(calls)|
  }

  ghost predicate Inv(t: Table, owner: seq<nat>, calls: seq<Call>) {
    Shape(t, owner) && Tally(t.recs, ArcsOf(t, owner), calls)
  }

  lemma InvLinked(t: Table, owner: seq<nat>, calls: seq<Call>)
    requires Inv(t, owner, calls)
    ensures WellLinked(t)
  {}

  // ---------- Chains ----------

  lemma {:induction false} InChainFrame(recs: seq<ToEntry>, recs': seq<ToEntry>, link: int, k: int)
    requires LinksDecrease(recs) && LinksDecrease(recs')
    requires NO_LINK <= link < |recs| <= |recs'|
    requires forall j :: 0 <= j <= link ==> recs'[j].link == recs[j].link
    ensures InChain(recs', link, k) == InChain(recs, link, k)
    decreases link
  {
    if link != NO_LINK && link != k {
      InChainFrame(recs, recs', recs[link].link, k);
    }
  }

  lemma {:induction false} ChainOwner(t: Table, owner: seq<nat>, link: int, k: int)
    requires Shape(t, owner) && NO_LINK <= link < |t.recs| && InChain(t.recs, link, k)
    ensures 0 <= k <= link && owner[k] == owner[link]
    decreases link
  {
    if link != k {
      ChainOwner(t, owner, t.recs[link].link, k);
    }
  }

  /** The chain of caller `i` holds exactly the callee entries that `owner` gives
      to `i`: chains are disjoint and together cover the callee table. */
  lemma ChainsPartition(t: Table, owner: seq<nat>, i: nat, k: nat)
    requires Shape(t, owner) && i < |t.froms| && k < |t.recs|
    ensures InChain(t.recs, t.froms[i].link, k) <==> owner[k] == i
  {
    if InChain(t.recs, t.froms[i].link, k) {
      ChainOwner(t, owner, t.froms[i].link, k);
    }
  }

  // ---------- One call keeps the invariant ----------

  lemma WithFromKeepsShape(t: Table, owner: seq<nat>, frompc: Pc)
    requires Shape(t, owner)
    ensures Shape(WithFrom(t, frompc), owner)
  {
    var t' := WithFrom(t, frompc);
    assert forall k :: 0 <= k < |t.recs| ==> t'.froms[owner[k]] == t.froms[owner[k]];
    assert forall i :: 0 <= i < |t'.froms| && t'.froms[i].link != NO_LINK ==> i < |t.froms|;
  }

  lemma BumpKeepsShape(t: Table, owner: seq<nat>, k: nat)
    requires Shape(t, owner) && k < |t.recs|
    ensures Shape(t.(recs := Bumped(t.recs, k)), owner)
    ensures ArcsOf(t.(recs := Bumped(t.recs, k)), owner) == ArcsOf(t, owner)
  {
    var t' := t.(recs := Bumped(t.recs, k));
    forall j | 0 <= j < |t.recs| ensures InChain(t'.recs, t'.froms[owner[j]].link, j) {
      InChainFrame(t.recs, t'.recs, t.froms[owner[j]].link, j);
    }
  }

  lemma TallyBump(recs: seq<ToEntry>, arcs: seq<Call>, calls: seq<Call>, k: nat)
    requires Tally(recs, arcs, calls) && k < |recs|
    requires forall i, j :: 0 <= i < j < |arcs| ==> arcs[i] != arcs[j]
    ensures Tally(Bumped(recs, k), arcs, calls + [arcs[k]])
  {
    var calls' := calls + [arcs[k]];
    forall j | 0 <= j < |recs| ensures Bumped(recs, k)[j].count == Occurrences(calls', arcs[j]) > 0 {
      OccurrencesAppend(calls, arcs[k], arcs[j]);
    }
    SumCountsBump(recs, k);
    OccurrencesZero(calls, arcs[k]);
    assert Arcs(calls') == Arcs(calls);
  }

  /** A new head keeps every old chain reachable from its caller. */
  lemma PushChains(t: Table, owner: seq<nat>, fi: nat, selfpc: Pc, k: nat)
    requires Shape(t, owner) && fi < |t.froms| && |t.recs| < MAX_TOS && k <= |t.recs|
    ensures WellLinked(Push(t, fi, selfpc))
    ensures InChain(Push(t, fi, selfpc).recs, Push(t, fi, selfpc).froms[(owner + [fi])[k]].link, k)
  {
    var recs' := Push(t, fi, selfpc).recs;
    assert ToShort(|t.recs|) == |t.recs|;
    if k < |t.recs| {
      InChainFrame(t.recs, recs', t.froms[owner[k]].link, k);
      if owner[k] == fi {
        assert InChain(recs', recs'[|t.recs|].link, k);
      }
    }
  }

  lemma PushKeepsShape(t: Table, owner: seq<nat>, fi: nat, selfpc: Pc)
    requires Shape(t, owner) && fi < |t.froms|
    requires |t.recs| < MAX_TOS
    requires forall k :: 0 <= k < |t.recs| && owner[k] == fi ==> t.recs[k].selfpc != selfpc
    ensures Shape(Push(t, fi, selfpc), owner + [fi])
    ensures ArcsOf(Push(t, fi, selfpc), owner + [fi]) == ArcsOf(t, owner) + [(t.froms[fi].frompc, selfpc)]
  {
    PushedShape(t, owner, fi, selfpc);
    assert ToShort(|t.recs|) == |t.recs|;
    hide Shape, InChain, WellLinked, ToShort;
  }

  lemma PushedShape(t: Table, owner: seq<nat>, fi: nat, selfpc: Pc)
    requires Shape(t, owner) && fi < |t.froms|
    requires |t.recs| < MAX_TOS
    requires forall k :: 0 <= k < |t.recs| && owner[k] == fi ==> t.recs[k].selfpc != selfpc
    ensures Shape(Push(t, fi, selfpc), owner + [fi])
  {
    hide InChain;
    var t' := Push(t, fi, selfpc);
    assert ToShort(|t.recs|) == |t.recs|;
    PushChains(t, owner, fi, selfpc, 0);
    forall k | 0 <= k < |t'.recs| ensures InChain(t'.recs, t'.froms[(owner + [fi])[k]].link, k) {
      PushChains(t, owner, fi, selfpc, k);
    }
  }

  lemma OneMoreArc(calls: seq<Call>, c: Call)
    requires c !in calls
    ensures |Arcs(calls + [c])| == |Arcs(calls)| + 1
    ensures forall d :: d in calls + [c] <==> d in calls || d == c
  {
    assert Arcs(calls + [c]) == Arcs(calls) + {c};
  }

  lemma TallyPush(recs: seq<ToEntry>, arcs: seq<Call>, calls: seq<Call>, c: Call, rec: ToEntry)
    requires Tally(recs, arcs, calls) && c !in arcs && rec.count == 1
    ensures Tally(recs + [rec], arcs + [c], calls + [c])
  {
    var recs', calls' := recs + [rec], calls + [c];
    OccurrencesZero(calls, c);
    forall k | 0 <= k < |recs'| ensures recs'[k].count == Occurrences(calls', (arcs + [c])[k]) > 0 {
      OccurrencesAppend(calls, c, (arcs + [c])[k]);
    }
    assert recs'[..|recs|] == recs;
    OneMoreArc(calls, c);
  }

  lemma ArcsDistinct(t: Table, owner: seq<nat>)
    requires Shape(t, owner)
    ensures forall i, j :: 0 <= i < j < |t.recs| ==> ArcsOf(t, owner)[i] != ArcsOf(t, owner)[j]
  {
    forall i, j | 0 <= i < j < |t.recs| ensures ArcsOf(t, owner)[i] != ArcsOf(t, owner)[j] {
      if owner[i] < owner[j] || owner[j] < owner[i] {
        assert t.froms[owner[i]].frompc != t.froms[owner[j]].frompc;
      }
    }
  }

  ghost function NextOwner(t: Table, owner: seq<nat>, fi: nat, selfpc: Pc): seq<nat>
    requires WellLinked(t) && fi < |t.froms|
  {
    if Walk(t.recs, t.froms[fi].link, selfpc) != NO_LINK then owner else owner + [fi]
  }

  /** A successful walk along the chain of caller `fi` ends at the entry of the
      arc that was looked for; an unsuccessful one means there is no such entry. */
  lemma WalkDecides(t: Table, owner: seq<nat>, fi: nat, selfpc: Pc)
    requires Shape(t, owner) && fi < |t.froms|
    ensures var k := Walk(t.recs, t.froms[fi].link, selfpc);
            var c := (t.froms[fi].frompc, selfpc);
            if k != NO_LINK then ArcsOf(t, owner)[k] == c else c !in ArcsOf(t, owner)
  {
    forall j | 0 <= j < |t.recs| ensures InChain(t.recs, t.froms[fi].link, j) <==> owner[j] == fi {
      ChainsPartition(t, owner, fi, j);
    }
    if Walk(t.recs, t.froms[fi].link, selfpc) == NO_LINK {
      NewArc(t, owner, fi, selfpc);
    }
  }

  lemma AddCalleeKeepsInv(t: Table, owner: seq<nat>, calls: seq<Call>, fi: nat, selfpc: Pc)
    requires Inv(t, owner, calls) && fi < |t.froms|
    requires |Arcs(calls + [(t.froms[fi].frompc, selfpc)])| <= MAX_TOS
    ensures Inv(AddCallee(t, fi, selfpc), NextOwner(t, owner, fi, selfpc), calls + [(t.froms[fi].frompc, selfpc)])
  {
    var k := Walk(t.recs, t.froms[fi].link, selfpc);
    var c := (t.froms[fi].frompc, selfpc);
    WalkDecides(t, owner, fi, selfpc);
    if k != NO_LINK {
      BumpKeepsShape(t, owner, k);
      ArcsDistinct(t, owner);
      TallyBump(t.recs, ArcsOf(t, owner), calls, k);
    } else {
      forall j | 0 <= j < |t.recs| && owner[j] == fi ensures t.recs[j].selfpc != selfpc {
        assert ArcsOf(t, owner)[j] != c;
      }
      TallyPush(t.recs, ArcsOf(t, owner), calls, c, ToEntry(selfpc, 1, t.froms[fi].link));
      PushKeepsShape(t, owner, fi, selfpc);
    }
  }

  lemma WithFromKeepsInv(t: Table, owner: seq<nat>, calls: seq<Call>, frompc: Pc)
    requires Inv(t, owner, calls)
    ensures Inv(WithFrom(t, frompc), owner, calls)
  {
    WithFromKeepsShape(t, owner, frompc);
    assert ArcsOf(WithFrom(t, frompc), owner) == ArcsOf(t, owner);
  }

  lemma RecordKeepsInv(t: Table, owner: seq<nat>, calls: seq<Call>, frompc: Pc, selfpc: Pc) returns (owner': seq<nat>)
    requires Inv(t, owner, calls)
    requires |Arcs(calls + [(frompc, selfpc)])| <= MAX_TOS
    ensures Inv(Record(t, frompc, selfpc), owner', calls + [(frompc, selfpc)])
  {
    var t1, fi := WithFrom(t, frompc), FromIndex(t, frompc);
    WithFromKeepsInv(t, owner, calls, frompc);
    AddCalleeKeepsInv(t1, owner, calls, fi, selfpc);
    owner' := NextOwner(t1, owner, fi, selfpc);
  }

  lemma NewArc(t: Table, owner: seq<nat>, fi: nat, selfpc: Pc)
    requires Shape(t, owner) && fi < |t.froms|
    requires forall k :: 0 <= k < |t.recs| && owner[k] == fi ==> t.recs[k].selfpc != selfpc
    ensures (t.froms[fi].frompc, selfpc) !in ArcsOf(t, owner)
  {
    forall k | 0 <= k < |t.recs| ensures ArcsOf(t, owner)[k] != (t.froms[fi].frompc, selfpc) {
      if owner[k] < fi || fi < owner[k] {
        assert t.froms[owner[k]].frompc != t.froms[fi].frompc;
      }
    }
  }

  lemma EmptyInv()
    ensures Inv(Table([], []), [], [])
  {
    assert Arcs([]) == {};
  }

  // ---------- The main results ----------

  /** The table agrees with the list of calls on every arc. */
  lemma LookupCountsCalls(t: Table, owner: seq<nat>, calls: seq<Call>, frompc: Pc, selfpc: Pc)
    requires Inv(t, owner, calls)
    ensures Lookup(t, frompc, selfpc) == Occurrences(calls, (frompc, selfpc))
  {
    var c := (frompc, selfpc);
    var arcs := ArcsOf(t, owner);
    var i := FindFrom(t.froms, frompc);
    OccurrencesZero(calls, c);
    if i != -1 {
      WalkDecides(t, owner, i, selfpc);
    } else {
      forall k | 0 <= k < |arcs| ensures arcs[k] != c {
        assert t.froms[owner[k]].frompc != frompc;
      }
    }
  }

  /** Links stay usable exactly as long as there are at most 32768 callee entries:
      the next one is stored as the short -32768. */
  lemma LinkWidth(t: Table, frompc: Pc, selfpc: Pc)
    requires WellLinked(t) && |t.recs| <= MAX_TOS
    ensures WellLinked(Record(t, frompc, selfpc)) <==> |Record(t, frompc, selfpc).recs| <= MAX_TOS
  {
    var t' := Record(t, frompc, selfpc);
    if |t'.recs| == MAX_TOS + 1 {
      assert ToShort(MAX_TOS) == -32768;
      assert t'.froms[FromIndex(t, frompc)].link == -32768;
    }
  }
}
