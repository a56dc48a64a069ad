/** Guest and firmware sharing one ring, in every interleaving of their single
    memory steps.  The same machine serves both directions: towards Linux the
    firmware fills the buffer it took, from Linux it reads it. */
module RingProtocol {
  import opened Common
  import opened Vring

  const PACKET_LEN_MAX := 512

  datatype Message = Message(src: nat, dst: nat, payload: seq<byte>)

  /** `m` is what its holder last put into the buffer or found there. */
  datatype Guest = Free | Staged(d: nat, m: Message)
  datatype Firmware = Idle | Holding(d: nat, m: Message) | EntryWritten(d: nat, m: Message)

  /** `lastUsed` is the guest's index into the used ring, `buffers` the memory
      behind the descriptors, `free` the descriptors the guest may offer. */
  datatype State = State(ring: Ring, lastUsed: nat, buffers: seq<Message>, free: set<nat>, guest: Guest, fw: Firmware)

  datatype Action =
    | GuestOffer(d: nat, m: Message)
    | GuestAnnounce
    | FwGet
    | FwFill(m: Message)
    | FwEntry
    | FwPublish
    | GuestCollect

  ghost predicate Enabled(s: State, a: Action) {
    match a
    case GuestOffer(d, m) => s.guest.Free? && d in s.free
    case GuestAnnounce => s.guest.Staged?
    case FwGet => s.fw.Idle? && Available(s.ring)
    case FwFill(m) => s.fw.Holding?
    case FwEntry => s.fw.Holding?
    case FwPublish => s.fw.EntryWritten?
    case GuestCollect => s.lastUsed != s.ring.usedIdx
  }

  /** What has happened so far, in order: descriptors and messages the guest
      offered, buffer contents the firmware found, descriptors and messages the
      firmware published, and buffer contents the guest collected. */
  datatype History = History(
    added: seq<nat>, offered: seq<Message>, found: seq<Message>,
    given: seq<nat>, sent: seq<Message>, collected: seq<Message>)

  ghost predicate Typed(s: State) {
    && WellFormed(s.ring) && |s.buffers| == VRING_SIZE && s.lastUsed < INDEX_RANGE
    && (forall d :: d in s.free ==> d < VRING_SIZE)
    && (s.guest.Staged? ==> s.guest.d < VRING_SIZE)
    && (!s.fw.Idle? ==> s.fw.d < VRING_SIZE)
    && (forall i :: 0 <= i < VRING_SIZE ==> s.ring.avail[i] < VRING_SIZE && s.ring.used[i].id < VRING_SIZE)
  }

  ghost function Next(s: State, a: Action): State
    requires Typed(s) && Enabled(s, a)
  {
    match a
    case GuestOffer(d, m) =>
      s.(ring := OfferSlot(s.ring, d), buffers := s.buffers[d := m], free := s.free - {d}, guest := Staged(d, m))
    case GuestAnnounce => s.(ring := BumpAvail(s.ring), guest := Free)
    case FwGet => s.(ring := Take(s.ring), fw := Holding(Head(s.ring), s.buffers[Head(s.ring)]))
    case FwFill(m) => s.(buffers := s.buffers[s.fw.d := m], fw := Holding(s.fw.d, m))
    case FwEntry => s.(ring := PutEntry(s.ring, s.fw.d, PACKET_LEN_MAX), fw := EntryWritten(s.fw.d, s.fw.m))
    case FwPublish => s.(ring := BumpUsed(s.ring), fw := Idle)
    case GuestCollect =>
      s.(lastUsed := Next16(s.lastUsed), free := s.free + {Collectable(s)})
  }

  ghost function Collectable(s: State): nat
    requires Typed(s)
  {
    s.ring.used[s.lastUsed % VRING_SIZE].id
  }

  ghost function Log(h: History, s: State, a: Action): History
    requires Typed(s) && Enabled(s, a)
  {
    match a
    case GuestOffer(d, m) => h
    case GuestAnnounce => h.(added := h.added + [s.guest.d], offered := h.offered + [s.guest.m])
    case FwGet => h.(found := h.found + [s.buffers[Head(s.ring)]])
    case FwFill(m) => h
    case FwEntry => h
    case FwPublish => h.(given := h.given + [s.fw.d], sent := h.sent + [s.fw.m])
    case GuestCollect => h.(collected := h.collected + [s.buffers[Collectable(s)]])
  }

  // ---------- The invariant ----------

  ghost function Got(h: History): nat { |h.found| }

  /** The descriptors that neither ring holds at the moment. */
  ghost function InHand(s: State): multiset<nat> {
    Hand(s.free, s.guest, s.fw)
  }

  ghost function Hand(free: set<nat>, guest: Guest, fw: Firmware): multiset<nat> {
    multiset(free)
      + (if guest.Staged? then multiset{guest.d} else multiset{})
      + (if fw.Idle? then multiset{} else multiset{fw.d})
  }

  /** Each descriptor is in exactly one place. */
  ghost predicate Conserved(hand: multiset<nat>, out: seq<nat>, back: seq<nat>) {
    AllOnce(hand + multiset(out) + multiset(back))
  }

  ghost predicate AllOnce(m: multiset<nat>) {
    |m| == VRING_SIZE && forall d: nat :: m[d] == if d < VRING_SIZE then 1 else 0
  }

  ghost function Ids(used: seq<UsedElem>): (r: seq<nat>)
    ensures |r| == |used| && forall i :: 0 <= i < |r| ==> r[i] == used[i].id
  {
    seq(|used|, i requires 0 <= i < |used| => used[i].id)
  }

  ghost predicate Indices(s: State, h: History) {
    && |h.offered| == |h.added| && |h.sent| == |h.given|
    && |h.given| + (if s.fw.Idle? then 0 else 1) == Got(h)
    && Window(s.ring.avail, h.added, Got(h))
    && Window(Ids(s.ring.used), h.given, |h.collected|)
    && s.ring.availIdx == |h.added| % INDEX_RANGE
    && s.ring.availTail == Got(h) % INDEX_RANGE
    && s.ring.usedIdx == |h.given| % INDEX_RANGE
    && s.lastUsed == |h.collected| % INDEX_RANGE
  }

  /** Writes still to be announced sit in the next slot, and the firmware gives
      descriptors back in the order in which it took them. */
  ghost predicate Pending(s: State, h: History)
    requires Typed(s)
  {
    && (s.guest.Staged? ==> s.ring.avail[|h.added| % VRING_SIZE] == s.guest.d)
    && h.given <= h.added
    && (!s.fw.Idle? ==> |h.given| < |h.added| && h.added[|h.given|] == s.fw.d)
    && (s.fw.EntryWritten? ==> s.ring.used[|h.given| % VRING_SIZE].id == s.fw.d)
  }

  ghost predicate WindowsTyped(h: History) {
    && (forall i :: Got(h) <= i < |h.added| ==> h.added[i] < VRING_SIZE)
    && (forall i :: |h.collected| <= i < |h.given| ==> h.given[i] < VRING_SIZE)
  }

  ghost predicate Rings(s: State, h: History) {
    Typed(s) && Indices(s, h) && Pending(s, h) && WindowsTyped(h)
  }

  /** Buffers under way hold what their writer put there, and what came out is
      what went in. */
  ghost predicate Contents(s: State, h: History)
    requires Rings(s, h)
  {
    && (s.guest.Staged? ==> s.buffers[s.guest.d] == s.guest.m)
    && (!s.fw.Idle? ==> s.buffers[s.fw.d] == s.fw.m)
    && (forall i :: Got(h) <= i < |h.added| ==> s.buffers[h.added[i]] == h.offered[i])
    && (forall i :: |h.collected| <= i < |h.given| ==> s.buffers[h.given[i]] == h.sent[i])
    && h.found == h.offered[..Got(h)]
    && h.collected == h.sent[..|h.collected|]
  }

  /** Offered but not taken, and published but not collected. */
  ghost function Out(h: History): seq<nat> {
    if Got(h) <= |h.added| then h.added[Got(h)..] else []
  }

  ghost function Back(h: History): seq<nat> {
    if |h.collected| <= |h.given| then h.given[|h.collected|..] else []
  }

  ghost predicate Inv(s: State, h: History) {
    && Rings(s, h)
    && Conserved(InHand(s), Out(h), Back(h))
    && Contents(s, h)
  }

  /** Places are exclusive: a descriptor in somebody's hand is in neither ring,
      and both rings have room for it. */
  lemma SumAt(a: multiset<nat>, b: multiset<nat>, c: multiset<nat>, d: nat)
    ensures (a + b + c)[d] == a[d] + b[d] + c[d]
    ensures |a + b + c| == |a| + |b| + |c|
    ensures d in a ==> |a| > 0
  {}

  lemma Exclusive(hand: multiset<nat>, out: seq<nat>, back: seq<nat>, d: nat)
    requires Conserved(hand, out, back) && d in hand
    ensures d !in out && d !in back && |out| < VRING_SIZE && |back| < VRING_SIZE
    ensures hand[d] == 1
  {
    SumAt(hand, multiset(out), multiset(back), d);
    assert multiset(out)[d] == 0 && multiset(back)[d] == 0;
  }

  /** Descriptor `d` is in neither window, and both have room. */
  ghost predicate Absent(h: History, d: nat) {
    && (forall i :: Got(h) <= i < |h.added| ==> h.added[i] != d)
    && (forall i :: |h.collected| <= i < |h.given| ==> h.given[i] != d)
    && |h.added| < Got(h) + VRING_SIZE && |h.given| < |h.collected| + VRING_SIZE
  }

  lemma InHandAbsent(h: History, hand: multiset<nat>, d: nat)
    requires Got(h) <= |h.added| && |h.collected| <= |h.given|
    requires Conserved(hand, Out(h), Back(h)) && d in hand
    ensures Absent(h, d)
  {
    hide Conserved;
    Exclusive(hand, Out(h), Back(h), d);
    NotFrom(h.added, Got(h), d);
    NotFrom(h.given, |h.collected|, d);
  }

  lemma NotFrom(q: seq<nat>, lo: nat, d: nat)
    requires lo <= |q| && d !in q[lo..]
    ensures forall i :: lo <= i < |q| ==> q[i] != d
  {
    forall i | lo <= i < |q| ensures q[i] != d {
      assert q[i] == q[lo..][i - lo];
    }
  }

  /** The descriptor an action is about, if it is in somebody's hand. */
  ghost predicate Subject(s: State, a: Action, d: nat)
    requires Enabled(s, a)
  {
    match a
    case GuestOffer(e, _) => d == e
    case GuestAnnounce => d == s.guest.d
    case FwGet => false
    case FwFill(_) => d == s.fw.d
    case FwEntry => d == s.fw.d
    case FwPublish => d == s.fw.d
    case GuestCollect => false
  }

  lemma SubjectAbsent(s: State, h: History, a: Action, d: nat)
    requires Inv(s, h) && Enabled(s, a) && Subject(s, a, d)
    ensures Absent(h, d)
  {
    assert d in InHand(s);
    InHandAbsent(h, InHand(s), d);
  }

  predicate ByGuest(a: Action) {
    a.GuestOffer? || a.GuestAnnounce? || a.GuestCollect?
  }

  lemma GuestKeepsRings(s: State, h: History, a: Action)
    requires Rings(s, h) && Enabled(s, a) && ByGuest(a)
    requires forall d :: Subject(s, a, d) ==> Absent(h, d)
    ensures Rings(Next(s, a), Log(h, s, a))
  {
    SlotOfIndex(|h.added|);
    match a
    case GuestOffer(d, _) =>
      assert Subject(s, a, d);
      WindowPut(s.ring.avail, h.added, Got(h), s.ring.availIdx, d);
    case GuestAnnounce =>
      assert Subject(s, a, s.guest.d);
      WindowPut(s.ring.avail, h.added, Got(h), s.ring.availIdx, s.guest.d);
      assert s.ring.avail[s.ring.availIdx % VRING_SIZE := s.guest.d] == s.ring.avail;
    case GuestCollect =>
      IndexEquality(|h.collected|, |h.given|);
      SlotOfIndex(|h.collected|);
  }

  lemma FwKeepsRings(s: State, h: History, a: Action)
    requires Rings(s, h) && Enabled(s, a) && !ByGuest(a)
    requires forall d :: Subject(s, a, d) ==> Absent(h, d)
    ensures Rings(Next(s, a), Log(h, s, a))
  {
    SlotOfIndex(|h.given|);
    match a
    case FwGet =>
      RingIsQueue(s.ring, h.added, Got(h));
    case FwFill(_) =>
    case FwEntry =>
      assert Subject(s, a, s.fw.d);
      WindowPut(Ids(s.ring.used), h.given, |h.collected|, s.ring.usedIdx, s.fw.d);
      assert Ids(Next(s, a).ring.used) == Ids(s.ring.used)[s.ring.usedIdx % VRING_SIZE := s.fw.d];
    case FwPublish =>
      assert Subject(s, a, s.fw.d);
      WindowPut(Ids(s.ring.used), h.given, |h.collected|, s.ring.usedIdx, s.fw.d);
      assert Ids(s.ring.used)[s.ring.usedIdx % VRING_SIZE := s.fw.d] == Ids(s.ring.used);
  }

  lemma GuestKeepsContents(s: State, h: History, a: Action)
    requires Rings(s, h) && Contents(s, h) && Enabled(s, a) && ByGuest(a)
    requires forall d :: Subject(s, a, d) ==> Absent(h, d)
    requires Rings(Next(s, a), Log(h, s, a))
    requires a.GuestOffer? && !s.fw.Idle? ==> s.fw.d != a.d
    ensures Contents(Next(s, a), Log(h, s, a))
  {
    hide WellFormed, Pending, Window, Ids;
    match a
    case GuestOffer(d, _) =>
      assert Subject(s, a, d);
    case GuestAnnounce => AnnounceKeepsContents(s, h);
    case GuestCollect => CollectKeepsContents(s, h);
  }

  lemma AnnounceKeepsContents(s: State, h: History)
    requires Rings(s, h) && Contents(s, h) && Enabled(s, GuestAnnounce)
    requires Rings(Next(s, GuestAnnounce), Log(h, s, GuestAnnounce))
    ensures Contents(Next(s, GuestAnnounce), Log(h, s, GuestAnnounce))
  {
    hide WellFormed, Pending, Ids;
    assert Log(h, s, GuestAnnounce).offered[..Got(h)] == h.offered[..Got(h)];
  }

  lemma CollectKeepsContents(s: State, h: History)
    requires Rings(s, h) && Contents(s, h) && Enabled(s, GuestCollect)
    requires Rings(Next(s, GuestCollect), Log(h, s, GuestCollect))
    ensures Contents(Next(s, GuestCollect), Log(h, s, GuestCollect))
  {
    hide WellFormed, Pending, Ids;
    IndexEquality(|h.collected|, |h.given|);
    CollectableIsOldest(s, h);
  }

  lemma FwKeepsContents(s: State, h: History, a: Action)
    requires Rings(s, h) && Contents(s, h) && Enabled(s, a) && !ByGuest(a)
    requires forall d :: Subject(s, a, d) ==> Absent(h, d)
    requires Rings(Next(s, a), Log(h, s, a))
    requires s.guest.Staged? && !s.fw.Idle? ==> s.guest.d != s.fw.d
    ensures Contents(Next(s, a), Log(h, s, a))
  {
    hide WellFormed, Ids, Window;
    match a
    case FwGet => GetKeepsContents(s, h);
    case FwFill(_) =>
      assert Subject(s, a, s.fw.d);
    case FwEntry =>
    case FwPublish => PublishKeepsContents(s, h);
  }

  lemma GetKeepsContents(s: State, h: History)
    requires Rings(s, h) && Contents(s, h) && Enabled(s, FwGet)
    requires Rings(Next(s, FwGet), Log(h, s, FwGet))
    ensures Contents(Next(s, FwGet), Log(h, s, FwGet))
  {
    hide Pending, Ids;
    RingIsQueue(s.ring, h.added, Got(h));
    assert Head(s.ring) == h.added[Got(h)];
  }

  lemma PublishKeepsContents(s: State, h: History)
    requires Rings(s, h) && Contents(s, h) && Enabled(s, FwPublish)
    requires Rings(Next(s, FwPublish), Log(h, s, FwPublish))
    ensures Contents(Next(s, FwPublish), Log(h, s, FwPublish))
  {
    hide Pending, Ids, WellFormed;
    assert Log(h, s, FwPublish).sent[..|h.collected|] == h.sent[..|h.collected|];
  }

  /** Guest and firmware never have the same buffer in hand. */
  lemma HandsApart(free: set<nat>, guest: Guest, fw: Firmware, out: seq<nat>, back: seq<nat>)
    requires Conserved(Hand(free, guest, fw), out, back) && !fw.Idle?
    ensures fw.d !in free && (guest.Staged? ==> guest.d != fw.d)
  {
    HandCounts(free, guest, fw, fw.d);
    Exclusive(Hand(free, guest, fw), out, back, fw.d);
  }

  lemma CollectableIsOldest(s: State, h: History)
    requires Rings(s, h) && |h.collected| < |h.given|
    ensures Collectable(s) == h.given[|h.collected|]
  {
    SlotOfIndex(|h.collected|);
    assert Ids(s.ring.used)[|h.collected| % VRING_SIZE] == h.given[|h.collected|];
  }

  // ---------- Conservation, one hand-over at a time ----------

  lemma MoveOne(a: multiset<nat>, b: multiset<nat>, c: multiset<nat>, d: nat)
    requires d in a
    ensures (a - multiset{d}) + (b + multiset{d}) + c == a + b + c
    ensures (a - multiset{d}) + b + (c + multiset{d}) == a + b + c
  {
    assert a == (a - multiset{d}) + multiset{d};
  }

  lemma HandToOut(hand: multiset<nat>, out: seq<nat>, back: seq<nat>, d: nat)
    requires Conserved(hand, out, back) && d in hand
    ensures Conserved(hand - multiset{d}, out + [d], back)
  {
    MoveOne(hand, multiset(out), multiset(back), d);
  }

  lemma TakeFirst(q: seq<nat>)
    requires q != []
    ensures multiset(q) == multiset{q[0]} + multiset(q[1..])
  {
    assert q == [q[0]] + q[1..];
  }

  lemma Regroup(a: multiset<nat>, b: multiset<nat>, c: multiset<nat>, d: nat)
    ensures a + multiset{d} + b + c == a + (multiset{d} + b) + c
    ensures a + multiset{d} + b + c == a + b + (multiset{d} + c)
  {}

  lemma OutToHand(hand: multiset<nat>, out: seq<nat>, back: seq<nat>)
    requires Conserved(hand, out, back) && out != []
    ensures Conserved(hand + multiset{out[0]}, out[1..], back)
  {
    TakeFirst(out);
    Regroup(hand, multiset(out[1..]), multiset(back), out[0]);
  }

  lemma HandToBack(hand: multiset<nat>, out: seq<nat>, back: seq<nat>, d: nat)
    requires Conserved(hand, out, back) && d in hand
    ensures Conserved(hand - multiset{d}, out, back + [d])
  {
    MoveOne(hand, multiset(out), multiset(back), d);
  }

  lemma BackToHand(hand: multiset<nat>, out: seq<nat>, back: seq<nat>)
    requires Conserved(hand, out, back) && back != []
    ensures Conserved(hand + multiset{back[0]}, out, back[1..])
  {
    TakeFirst(back);
    Regroup(hand, multiset(out), multiset(back[1..]), back[0]);
  }

  lemma OfferStaysInHand(free: set<nat>, fw: Firmware, d: nat, m: Message)
    requires d in free
    ensures Hand(free - {d}, Staged(d, m), fw) == Hand(free, Free, fw)
  {
    assert multiset(free) == multiset(free - {d}) + multiset{d};
  }

  lemma CollectIntoHand(free: set<nat>, guest: Guest, fw: Firmware, d: nat)
    requires d !in free
    ensures Hand(free + {d}, guest, fw) == Hand(free, guest, fw) + multiset{d}
  {
    assert multiset(free + {d}) == multiset(free) + multiset{d};
  }

  lemma StagedInHand(free: set<nat>, fw: Firmware, d: nat, m: Message)
    ensures d in Hand(free, Staged(d, m), fw)
    ensures Hand(free, Free, fw) == Hand(free, Staged(d, m), fw) - multiset{d}
  {}

  lemma TakenInHand(free: set<nat>, guest: Guest, d: nat, m: Message)
    ensures d in Hand(free, guest, Holding(d, m))
    ensures Hand(free, guest, Holding(d, m)) == Hand(free, guest, Idle) + multiset{d}
    ensures Hand(free, guest, EntryWritten(d, m)) == Hand(free, guest, Holding(d, m))
    ensures Hand(free, guest, Idle) == Hand(free, guest, EntryWritten(d, m)) - multiset{d}
  {}

  lemma Bounds(s: State, h: History)
    requires Rings(s, h)
    ensures Typed(s) && Got(h) <= |h.added| && |h.collected| <= |h.given|
    ensures Available(s.ring) ==> Out(h) != [] && Head(s.ring) == Out(h)[0]
    ensures s.lastUsed != s.ring.usedIdx ==> Back(h) != [] && Collectable(s) == Back(h)[0]
  {
    RingIsQueue(s.ring, h.added, Got(h));
    IndexEquality(|h.collected|, |h.given|);
    if |h.collected| < |h.given| {
      CollectableIsOldest(s, h);
    }
  }

  lemma OldestNotFree(s: State, h: History)
    requires Rings(s, h) && Back(h) != []
    requires Conserved(InHand(s), Out(h), Back(h))
    ensures Back(h)[0] !in s.free
  {
    var d := Back(h)[0];
    if d in s.free {
      assert d in InHand(s);
      InHandAbsent(h, InHand(s), d);
    }
  }

  lemma AnnounceConserves(s: State, h: History)
    requires Rings(s, h) && Conserved(InHand(s), Out(h), Back(h)) && Enabled(s, GuestAnnounce)
    ensures Conserved(InHand(Next(s, GuestAnnounce)), Out(Log(h, s, GuestAnnounce)), Back(Log(h, s, GuestAnnounce)))
  {
    hide Conserved, Hand, Rings;
    Bounds(s, h);
    var h' := Log(h, s, GuestAnnounce);
    StagedInHand(s.free, s.fw, s.guest.d, s.guest.m);
    HandToOut(InHand(s), Out(h), Back(h), s.guest.d);
    DropAppend(h.added, s.guest.d, Got(h));
  }

  lemma GetConserves(s: State, h: History)
    requires Rings(s, h) && Conserved(InHand(s), Out(h), Back(h)) && Enabled(s, FwGet)
    ensures Conserved(InHand(Next(s, FwGet)), Out(Log(h, s, FwGet)), Back(Log(h, s, FwGet)))
  {
    hide Conserved, Hand, Rings;
    Bounds(s, h);
    var h' := Log(h, s, FwGet);
    TakenInHand(s.free, s.guest, Head(s.ring), s.buffers[Head(s.ring)]);
    OutToHand(InHand(s), Out(h), Back(h));
    assert Out(h') == Out(h)[1..];
  }

  lemma DropAppend(q: seq<nat>, d: nat, n: nat)
    requires n <= |q|
    ensures (q + [d])[n..] == q[n..] + [d]
  {}

  lemma PublishConserves(s: State, h: History)
    requires Rings(s, h) && Conserved(InHand(s), Out(h), Back(h)) && Enabled(s, FwPublish)
    ensures Conserved(InHand(Next(s, FwPublish)), Out(Log(h, s, FwPublish)), Back(Log(h, s, FwPublish)))
  {
    hide Conserved, Hand, Rings, Out, Back, WellFormed;
    Bounds(s, h);
    PublishMoves(s, h);
    TakenInHand(s.free, s.guest, s.fw.d, s.fw.m);
    HandToBack(InHand(s), Out(h), Back(h), s.fw.d);
  }

  lemma PublishMoves(s: State, h: History)
    requires Typed(s) && Enabled(s, FwPublish) && |h.collected| <= |h.given|
    ensures Out(Log(h, s, FwPublish)) == Out(h) && Back(Log(h, s, FwPublish)) == Back(h) + [s.fw.d]
  {
    hide WellFormed;
    DropAppend(h.given, s.fw.d, |h.collected|);
  }

  lemma CollectConserves(s: State, h: History)
    requires Rings(s, h) && Conserved(InHand(s), Out(h), Back(h)) && Enabled(s, GuestCollect)
    ensures Conserved(InHand(Next(s, GuestCollect)), Out(Log(h, s, GuestCollect)), Back(Log(h, s, GuestCollect)))
  {
    hide Conserved, Hand, Rings;
    Bounds(s, h);
    var h' := Log(h, s, GuestCollect);
    OldestNotFree(s, h);
    CollectIntoHand(s.free, s.guest, s.fw, Back(h)[0]);
    BackToHand(InHand(s), Out(h), Back(h));
    assert Back(h') == Back(h)[1..];
  }

  lemma KeepConserved(s: State, h: History, a: Action)
    requires Rings(s, h) && Enabled(s, a) && Conserved(InHand(s), Out(h), Back(h))
    ensures Conserved(InHand(Next(s, a)), Out(Log(h, s, a)), Back(Log(h, s, a)))
  {
    hide Conserved, Hand, Out, Back, Rings;
    Bounds(s, h);
    match a
    case GuestOffer(d, m) => OfferStaysInHand(s.free, s.fw, d, m);
    case GuestAnnounce => AnnounceConserves(s, h);
    case FwGet => GetConserves(s, h);
    case FwFill(m) =>
      TakenInHand(s.free, s.guest, s.fw.d, s.fw.m);
      TakenInHand(s.free, s.guest, s.fw.d, m);
    case FwEntry => TakenInHand(s.free, s.guest, s.fw.d, s.fw.m);
    case FwPublish => PublishConserves(s, h);
    case GuestCollect => CollectConserves(s, h);
  }

  /** Every step, by either side, keeps the invariant. */
  lemma StepKeepsInv(s: State, h: History, a: Action)
    requires Inv(s, h) && Enabled(s, a)
    ensures Inv(Next(s, a), Log(h, s, a))
  {
    forall d | Subject(s, a, d) ensures Absent(h, d) {
      SubjectAbsent(s, h, a, d);
    }
    if !s.fw.Idle? {
      HandsApart(s.free, s.guest, s.fw, Out(h), Back(h));
    }
    KeepParts(s, h, a);
  }

  lemma KeepParts(s: State, h: History, a: Action)
    requires Inv(s, h) && Enabled(s, a)
    requires forall d :: Subject(s, a, d) ==> Absent(h, d)
    requires !s.fw.Idle? ==> s.fw.d !in s.free && (s.guest.Staged? ==> s.guest.d != s.fw.d)
    ensures Inv(Next(s, a), Log(h, s, a))
  {
    hide Rings, Conserved, Contents, Next, Log;
    if ByGuest(a) {
      GuestKeepsRings(s, h, a);
      GuestKeepsContents(s, h, a);
    } else {
      FwKeepsRings(s, h, a);
      FwKeepsContents(s, h, a);
    }
    KeepConserved(s, h, a);
  }

  // ---------- Whole runs ----------

  ghost predicate Runs(s: State, h: History, run: seq<Action>)
    decreases |run|
  {
    run != [] ==> Typed(s) && Enabled(s, run[0]) && Runs(Next(s, run[0]), Log(h, s, run[0]), run[1..])
  }

  ghost function After(s: State, h: History, run: seq<Action>): (State, History)
    requires Runs(s, h, run)
    decreases |run|
  {
    if run == [] then (s, h) else After(Next(s, run[0]), Log(h, s, run[0]), run[1..])
  }

  ghost predicate Start(s: State) {
    && Typed(s) && s.ring.availIdx == s.ring.availTail == s.ring.usedIdx == s.lastUsed == 0
    && |s.free| == VRING_SIZE && (forall d: nat :: d in s.free <==> d < VRING_SIZE) && s.guest == Free && s.fw == Idle
  }

  const NOTHING := History([], [], [], [], [], [])

  lemma StartConserved(free: set<nat>)
    requires |free| == VRING_SIZE && forall d: nat :: d in free <==> d < VRING_SIZE
    ensures Conserved(Hand(free, Free, Idle), [], [])
  {
    var all: multiset<nat> := multiset(free);
    assert all + multiset{} + multiset{} + multiset{} + multiset{} == all;
  }

  lemma StartInv(s: State)
    requires Start(s)
    ensures Inv(s, NOTHING)
  {
    hide Conserved, Hand;
    StartConserved(s.free);
  }

  lemma {:induction false} RunKeepsInv(s: State, h: History, run: seq<Action>)
    requires Inv(s, h) && Runs(s, h, run)
    ensures Inv(After(s, h, run).0, After(s, h, run).1)
    decreases |run|
  {
    hide Inv, Next, Log;
    if run != [] {
      StepKeepsInv(s, h, run[0]);
      RunKeepsInv(Next(s, run[0]), Log(h, s, run[0]), run[1..]);
    }
  }

  // ---------- What a run guarantees ----------

  /** Both directions deliver in order, without loss, duplicate or overwriting,
      however often the indices wrap: the firmware finds the messages the guest
      offered, and the guest collects the messages the firmware published. */
  lemma Delivery(s: State, run: seq<Action>)
    requires Start(s) && Runs(s, NOTHING, run)
    ensures var h := After(s, NOTHING, run).1;
      && h.found <= h.offered
      && h.collected <= h.sent
      && |h.sent| - |h.collected| <= VRING_SIZE && |h.offered| - |h.found| <= VRING_SIZE
  {
    StartInv(s);
    RunKeepsInv(s, NOTHING, run);
  }

  /** When both sides see their input ring empty, everything has arrived. */
  lemma DeliveryComplete(s: State, run: seq<Action>)
    requires Start(s) && Runs(s, NOTHING, run)
    ensures var (s', h) := After(s, NOTHING, run);
      && (!Available(s'.ring) <==> h.found == h.offered)
      && (s'.lastUsed == s'.ring.usedIdx <==> h.collected == h.sent)
  {
    StartInv(s);
    RunKeepsInv(s, NOTHING, run);
    var (s', h) := After(s, NOTHING, run);
    IndexEquality(Got(h), |h.added|);
    IndexEquality(|h.collected|, |h.given|);
  }

  /** In every reachable state each descriptor is with exactly one of: the guest's
      free list, the guest about to offer it, the available ring, the firmware,
      the used ring. */
  lemma OneHolder(s: State, run: seq<Action>, d: nat)
    requires Start(s) && Runs(s, NOTHING, run) && d < VRING_SIZE
    ensures var (s', h) := After(s, NOTHING, run);
      Count(d in s'.free) + Count(s'.guest.Staged? && s'.guest.d == d) + multiset(Out(h))[d]
        + Count(!s'.fw.Idle? && s'.fw.d == d) + multiset(Back(h))[d] == 1
  {
    hide Conserved, Hand, Rings, Contents;
    StartInv(s);
    RunKeepsInv(s, NOTHING, run);
    var (s', h) := After(s, NOTHING, run);
    HolderCounts(InHand(s'), Out(h), Back(h), d);
    HandCounts(s'.free, s'.guest, s'.fw, d);
  }

  lemma HandCounts(free: set<nat>, guest: Guest, fw: Firmware, d: nat)
    ensures Hand(free, guest, fw)[d]
      == Count(d in free) + Count(guest.Staged? && guest.d == d) + Count(!fw.Idle? && fw.d == d)
  {}

  lemma HolderCounts(hand: multiset<nat>, out: seq<nat>, back: seq<nat>, d: nat)
    requires Conserved(hand, out, back) && d < VRING_SIZE
    ensures hand[d] + multiset(out)[d] + multiset(back)[d] == 1
  {
    SumAt(hand, multiset(out), multiset(back), d);
  }

  /** Between calls the firmware has published exactly what it took. */
  lemma TailMeetsUsed(s: State, run: seq<Action>)
    requires Start(s) && Runs(s, NOTHING, run)
    ensures var (s', h) := After(s, NOTHING, run);
      s'.fw.Idle? ==> s'.ring.usedIdx == s'.ring.availTail && h.given <= h.added && |h.given| == |h.found|
  {
    StartInv(s);
    RunKeepsInv(s, NOTHING, run);
  }
}
