/** The split virtqueue seen from the firmware, which plays the device: the guest
    puts descriptor numbers into the available ring, the firmware gives them back
    through the used ring (VIRTIO 1.0, sections 2.4.6 and 2.4.8).  All indices are
    free-running 16-bit counters. */
module Vring {

  const VRING_SIZE := 256
  const INDEX_RANGE := 0x10000

  datatype UsedElem = UsedElem(id: nat, len: nat)

  /** The ring memory shared with the guest, and the firmware's private index. */
  datatype Ring = Ring(avail: seq<nat>, availIdx: nat, availTail: nat, used: seq<UsedElem>, usedIdx: nat)

  ghost predicate WellFormed(r: Ring) {
    && |r.avail| == |r.used| == VRING_SIZE
    && r.availIdx < INDEX_RANGE && r.availTail < INDEX_RANGE && r.usedIdx < INDEX_RANGE
  }

  function Next16(i: nat): nat {
    (i + 1) % INDEX_RANGE
  }

  predicate Available(r: Ring) {
    r.availIdx != r.availTail
  }

  function Head(r: Ring): nat
    requires |r.avail| == VRING_SIZE
  {
    r.avail[r.availTail % VRING_SIZE]
  }

  function Take(r: Ring): Ring {
    r.(availTail := Next16(r.availTail))
  }

  function PutEntry(r: Ring, id: nat, len: nat): Ring
    requires |r.used| == VRING_SIZE
  {
    r.(used := r.used[r.usedIdx % VRING_SIZE := UsedElem(id, len)])
  }

  function BumpUsed(r: Ring): Ring {
    r.(usedIdx := Next16(r.usedIdx))
  }

  /** The guest's two steps: fill the next slot, then move the index. */
  function OfferSlot(r: Ring, id: nat): Ring
    requires |r.avail| == VRING_SIZE
  {
    r.(avail := r.avail[r.availIdx % VRING_SIZE := id])
  }

  function BumpAvail(r: Ring): Ring {
    r.(availIdx := Next16(r.availIdx))
  }

  // ---------- Wrapping indices against unbounded counters ----------

  /** Slots hold the part of `history` from `lo` on, which is what has been put in
      but not yet taken out. */
  ghost predicate Window<T>(slots: seq<T>, history: seq<T>, lo: nat) {
    && |slots| == VRING_SIZE
    && lo <= |history| <= lo + VRING_SIZE
    && forall i :: lo <= i < |history| ==> slots[i % VRING_SIZE] == history[i]
  }

  /** 256 divides 2^16, so cutting the index and cutting the counter agree. */
  lemma SlotOfIndex(n: nat)
    ensures n % INDEX_RANGE % VRING_SIZE == n % VRING_SIZE
    ensures Next16(n % INDEX_RANGE) == (n + 1) % INDEX_RANGE
  {
    var r := n % INDEX_RANGE;
    CutOnce(n, 256 * (n / INDEX_RANGE) + r / VRING_SIZE, r % VRING_SIZE);
    NextWraps(n);
  }

  lemma CutOnce(n: nat, q: nat, r: nat)
    requires n == VRING_SIZE * q + r && r < VRING_SIZE
    ensures n % VRING_SIZE == r
  {}

  lemma NextWraps(n: nat)
    ensures Next16(n % INDEX_RANGE) == (n + 1) % INDEX_RANGE
  {}

  lemma SlotsDiffer(i: nat, j: nat)
    requires i < j < i + VRING_SIZE
    ensures i % VRING_SIZE != j % VRING_SIZE
  {}

  /** With at most 256 outstanding, equality of the 16-bit indices says exactly
      that nothing is outstanding. */
  lemma IndexEquality(lo: nat, hi: nat)
    requires lo <= hi < lo + INDEX_RANGE
    ensures lo % INDEX_RANGE == hi % INDEX_RANGE <==> lo == hi
  {
    if lo % INDEX_RANGE == hi % INDEX_RANGE {
      assert hi - lo == INDEX_RANGE * (hi / INDEX_RANGE - lo / INDEX_RANGE);
    }
  }

  lemma WindowPut<T>(slots: seq<T>, history: seq<T>, lo: nat, idx: nat, x: T)
    requires Window(slots, history, lo) && |history| < lo + VRING_SIZE
    requires idx == |history| % INDEX_RANGE
    ensures Window(slots[idx % VRING_SIZE := x], history, lo)
    ensures Window(slots[idx % VRING_SIZE := x], history + [x], lo)
  {
    SlotOfIndex(|history|);
    forall i | lo <= i < |history| ensures i % VRING_SIZE != |history| % VRING_SIZE {
      SlotsDiffer(i, |history|);
    }
  }

  /** The ring refines an unbounded queue: it is empty exactly when the indices
      are equal, and otherwise the slot at the tail holds the oldest entry. */
  lemma RingIsQueue(r: Ring, added: seq<nat>, got: nat)
    requires WellFormed(r) && Window(r.avail, added, got)
    requires r.availIdx == |added| % INDEX_RANGE && r.availTail == got % INDEX_RANGE
    ensures Available(r) <==> added[got..] != []
    ensures Available(r) ==> Head(r) == added[got..][0] && Window(Take(r).avail, added, got + 1)
    ensures Take(r).availTail == (got + 1) % INDEX_RANGE
  {
    IndexEquality(got, |added|);
    SlotOfIndex(got);
  }

  // ---------- The firmware's ring object ----------

  datatype Desc = Desc(addr: nat, flags: bv16, next: nat)

  datatype PublishResult = Published | Rejected

  /** What clearing flag and link of descriptor 256 does to the available ring,
      which follows the descriptor table: they lie over its slots 4 and 5. */
  function Clobbered(r: Ring): Ring
    requires |r.avail| == VRING_SIZE
  {
    r.(avail := r.avail[4 := r.avail[4] - r.avail[4] % 2][5 := 0])
  }

  /** The ring after buffer `idx` has been published; 256 passes the guard. */
  function AfterPublish(r: Ring, idx: nat, len: nat): Ring
    requires |r.avail| == |r.used| == VRING_SIZE
  {
    BumpUsed(PutEntry(if idx == VRING_SIZE then Clobbered(r) else r, idx, len))
  }

  /** Publishing leaves all offered descriptors alone, whatever they are, and gives
      back one that exists, exactly when the index lies in the table. */
  lemma PublishSoundExactly(idx: nat, len: nat)
    requires idx <= VRING_SIZE
    ensures idx < VRING_SIZE <==>
      forall r: Ring :: WellFormed(r) ==> AfterPublish(r, idx, len).avail == r.avail
    ensures forall r: Ring :: WellFormed(r) ==>
      (idx < VRING_SIZE <==> AfterPublish(r, idx, len).used[r.usedIdx % VRING_SIZE].id < VRING_SIZE)
  {
    var r := Ring(seq(VRING_SIZE, i => i), 0, 0, seq(VRING_SIZE, _ => UsedElem(0, 0)), 0);
    assert WellFormed(r) && Clobbered(r).avail[5] != r.avail[5];
  }

  /** The guest asks not to be interrupted: by bit 0 of the available ring's flags
      in the standard, while the code looks at bit 1. */
  function AsksSilence(flags: bv16): bool { flags & 1 != 0 }

  function HeldBack(flags: bv16): bool { flags & 2 != 0 }

  /** A kick is held back as the guest asks exactly when both bits are the same;
      flag 1 alone, which is all that the standard defines, is never obeyed. */
  lemma SilenceKeptExactly(flags: bv16)
    ensures HeldBack(flags) == AsksSilence(flags) <==> flags & 3 == 0 || flags & 3 == 3
    ensures flags == 1 ==> AsksSilence(flags) && !HeldBack(flags)
  {}

  class VringDev {
    const desc: array<Desc>
    const avail: array<nat>
    const used: array<UsedElem>
    var availFlags: bv16
    var availIdx: nat
    var availTail: nat
    var usedIdx: nat
    ghost var notified: nat

    ghost predicate Valid()
      reads this, avail, used
    {
      desc.Length == VRING_SIZE && avail.Length == VRING_SIZE && used.Length == VRING_SIZE && WellFormed(View())
    }

    ghost function View(): Ring
      reads this, avail, used
    {
      Ring(avail[..], availIdx, availTail, used[..], usedIdx)
    }

    constructor (desc: array<Desc>, avail: array<nat>, used: array<UsedElem>, availFlags: bv16)
      requires desc.Length == avail.Length == used.Length == VRING_SIZE
      ensures Valid() && View() == Ring(avail[..], 0, 0, used[..], 0)
      ensures this.desc == desc && this.avail == avail && this.used == used && notified == 0
      ensures this.availFlags == availFlags
    {
      this.desc, this.avail, this.used, this.availFlags := desc, avail, used, availFlags;
      availIdx, availTail, usedIdx, notified := 0, 0, 0, 0;
    }

    method GetBuf() returns (idx: int)
      requires Valid()
      modifies this`availTail
      ensures Valid()
      ensures idx == if Available(old(View())) then Head(old(View())) else -1
      ensures View() == if Available(old(View())) then Take(old(View())) else old(View())
      ensures old(availIdx) != old(availTail) ==> idx == avail[old(availTail) % 256]
    {
      var krnlAvailIdx := availIdx;
      if krnlAvailIdx == availTail {
        return -1;
      }
      var aIndex := availTail % VRING_SIZE;
      idx := avail[aIndex];
      availTail := Next16(availTail);
    }

    method PublishBuf(idx: nat, len: nat, kick: bool) returns (r: PublishResult)
      requires Valid()
      modifies this`usedIdx, this`notified, desc, avail, used
      ensures Valid()
      ensures r == if idx > VRING_SIZE then Rejected else Published
      ensures View() == if r == Published then AfterPublish(old(View()), idx, len) else old(View())
      ensures idx <= 256 ==> used[..] == old(used[..])[old(usedIdx) % 256 := UsedElem(idx, len)]
      ensures idx <= 256 ==> usedIdx == (old(usedIdx) + 1) % 0x10000
      ensures notified == old(notified) + if r == Published && kick && !HeldBack(availFlags) then 1 else 0
      ensures avail[..] == if idx == 256
        then old(avail[..])[4 := old(avail[4]) / 2 * 2][5 := 0] else old(avail[..])
      ensures idx < VRING_SIZE ==> desc[idx] == old(desc[idx]).(flags := old(desc[idx]).flags & 0xFFFE, next := 0)
      ensures forall d :: 0 <= d < VRING_SIZE && d != idx ==> desc[d] == old(desc[d])
    {
      var usedSlot := usedIdx % VRING_SIZE;
      if idx > VRING_SIZE {
        return Rejected;
      }
      if idx == VRING_SIZE {
        avail[4] := avail[4] - avail[4] % 2;
        avail[5] := 0;
        assert avail[..] == Clobbered(old(View())).avail;
      } else {
        desc[idx] := desc[idx].(flags := desc[idx].flags & 0xFFFE, next := 0);
      }
      used[usedSlot] := UsedElem(idx, len);
      usedIdx := Next16(usedIdx);
      r := Published;
      if kick {
        if HeldBack(availFlags) {
          return;
        }
        notified := notified + 1;
      }
    }

    method HasAvailable() returns (b: bool)
      requires Valid()
      ensures b == Available(View())
    {
      b := availIdx != availTail;
    }
  }

  // ---------- Memory layout ----------

  const DESC_BYTES := 16 * VRING_SIZE
  const AVAIL_BYTES := 2 + 2 + 2 * VRING_SIZE + 2
  const USED_BYTES := 2 + 2 + 8 * VRING_SIZE

  /** Where the three parts lie and how many bytes they span. */
  method Layout(addr: nat) returns (descAt: nat, availAt: nat, usedAt: nat, len: nat)
    requires addr + DESC_BYTES + AVAIL_BYTES + 0xFFF + USED_BYTES < 0x1_0000_0000
    ensures descAt == addr && availAt == descAt + DESC_BYTES
    ensures usedAt % 0x1000 == 0 && availAt + AVAIL_BYTES <= usedAt < availAt + AVAIL_BYTES + 0x1000
    ensures descAt + len == usedAt + USED_BYTES
  {
    var a: nat := addr;
    descAt := a;
    a := a + DESC_BYTES;
    availAt := a;
    a := a + AVAIL_BYTES;
    if a % 0x1000 != 0 {
      a := a / 0x1000;
      a := a + 1;
      a := a * 0x1000;
    }
    len := a + USED_BYTES - descAt;
    usedAt := a;
  }
}
