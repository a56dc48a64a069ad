/** The firmware's transport object: both rings, the buffers behind them, the
    channel table and the interrupt counters. */
module Remoteproc {
  import opened Common
  import opened Vring
  import opened RingProtocol
  import opened KickProtocol
  import opened Channels

  const DATA_LEN_MAX := PACKET_LEN_MAX - 16

  function Cut(src: nat, dst: nat, data: seq<byte>): (m: Message)
    ensures m.src == src && m.dst == dst
    ensures m.payload <= data && |m.payload| == if |data| > DATA_LEN_MAX then DATA_LEN_MAX else |data|
  {
    Message(src, dst, if |data| > DATA_LEN_MAX then data[..DATA_LEN_MAX] else data)
  }

  // ---------- The announcement of a channel ----------

  /** Linux's address for announcements, and the flag for a new service. */
  const ANNOUNCEMENT_ADDR := 0x35
  const NS_CREATE := 0

  function Byte(n: nat): byte { n % 256 }

  function Word(n: nat): (w: seq<byte>)
    ensures |w| == 4
  {
    [Byte(n), Byte(n / 0x100), Byte(n / 0x1_0000), Byte(n / 0x100_0000)]
  }

  /** The message behind an announcement: the name in 32 bytes filled with NULs,
      the address and the flag. */
  function Announcement(name: string, addr: nat): (b: seq<byte>)
    ensures |b| == RPMSG_NAME_SIZE + 8
  {
    var kept := if |name| <= RPMSG_NAME_SIZE then name else name[..RPMSG_NAME_SIZE];
    seq(|kept|, i requires 0 <= i < |kept| => Byte(kept[i] as int)) + seq(RPMSG_NAME_SIZE - |kept|, _ => 0)
      + Word(addr) + Word(NS_CREATE)
  }

  lemma WordReads(n: nat)
    requires n < 0x1_0000_0000
    ensures var w := Word(n);
      w[0] as int + 0x100 * w[1] as int + 0x1_0000 * w[2] as int + 0x100_0000 * w[3] as int == n
  {
    var q := n / 0x1_0000;
    assert n / 0x100 == 0x100 * q + n / 0x100 % 256;
    assert n == 0x100 * (n / 0x100) + n % 256;
    assert q == 0x100 * (n / 0x100_0000) + q % 256;
  }

  /** Linux reads back from an announcement the first 32 characters of the name,
      then the address, then 0 for a new service. */
  lemma AnnouncementTells(name: string, addr: nat)
    requires addr < 0x1_0000_0000 && forall i :: 0 <= i < |name| ==> name[i] as int < 256
    ensures var b := Announcement(name, addr);
      && (forall i :: 0 <= i < 32 ==> b[i] == if i < |name| then name[i] as int else 0)
      && b[32] as int + 0x100 * b[33] as int + 0x1_0000 * b[34] as int + 0x100_0000 * b[35] as int == addr
      && b[36] == b[37] == b[38] == b[39] == 0
  {
    hide Word;
    WordReads(addr);
    WordReads(NS_CREATE);
    var b := Announcement(name, addr);
    assert b[32..36] == Word(addr) && b[36..] == Word(NS_CREATE);
    var w, f := Word(addr), Word(NS_CREATE);
    assert b[32] == w[0] && b[33] == w[1] && b[34] == w[2] && b[35] == w[3];
    assert b[36] == f[0] && b[37] == f[1] && b[38] == f[2] && b[39] == f[3];
    forall i | 0 <= i < 32 ensures b[i] == if i < |name| then name[i] as int else 0 {
      if i < |name| {
        assert b[i] == Byte(name[i] as int);
      }
    }
  }

  // ---------- The firmware's calls as runs of the ring protocol ----------

  function SendSteps(m: Message): seq<Action> { [FwGet, FwFill(m), FwEntry, FwPublish] }

  const READ_STEPS := [FwGet, FwEntry, FwPublish]

  ghost function Sent(r: Ring): Ring
    requires WellFormed(r)
  {
    BumpUsed(PutEntry(Take(r), Head(r), PACKET_LEN_MAX))
  }

  ghost predicate SlotsTyped(r: Ring) {
    WellFormed(r) && forall i :: 0 <= i < VRING_SIZE ==> r.avail[i] < VRING_SIZE
  }

  /** One call of `__send_message` on a ring with a buffer available is the run
      Get, Fill, Entry, Publish: afterwards `m` counts as sent and its buffer
      holds it. */
  lemma SendIsRun(s: State, h: History, m: Message)
    requires Typed(s) && s.fw.Idle? && Available(s.ring)
    ensures Runs(s, h, SendSteps(m))
    ensures var (s', h') := After(s, h, SendSteps(m));
      && s' == s.(ring := Sent(s.ring), buffers := s.buffers[Head(s.ring) := m])
      && h' == h.(found := h.found + [s.buffers[Head(s.ring)]], given := h.given + [Head(s.ring)], sent := h.sent + [m])
  {
    var s1, h1 := Next(s, FwGet), Log(h, s, FwGet);
    var s2, h2 := Next(s1, FwFill(m)), Log(h1, s1, FwFill(m));
    var s3, h3 := Next(s2, FwEntry), Log(h2, s2, FwEntry);
    var s4, h4 := Next(s3, FwPublish), Log(h3, s3, FwPublish);
    assert After(s4, h4, []) == (s4, h4);
    OneStep(s3, h3, FwPublish, []);
    OneStep(s2, h2, FwEntry, [FwPublish]);
    OneStep(s1, h1, FwFill(m), [FwEntry, FwPublish]);
    OneStep(s, h, FwGet, [FwFill(m), FwEntry, FwPublish]);
  }

  lemma ReadIsRun(s: State, h: History)
    requires Typed(s) && s.fw.Idle? && Available(s.ring)
    ensures Runs(s, h, READ_STEPS)
    ensures var (s', h') := After(s, h, READ_STEPS);
      && s' == s.(ring := Sent(s.ring))
      && h' == h.(found := h.found + [s.buffers[Head(s.ring)]], given := h.given + [Head(s.ring)],
                  sent := h.sent + [s.buffers[Head(s.ring)]])
  {
    var s1, h1 := Next(s, FwGet), Log(h, s, FwGet);
    var s2, h2 := Next(s1, FwEntry), Log(h1, s1, FwEntry);
    var s3, h3 := Next(s2, FwPublish), Log(h2, s2, FwPublish);
    assert After(s3, h3, []) == (s3, h3);
    OneStep(s2, h2, FwPublish, []);
    OneStep(s1, h1, FwEntry, [FwPublish]);
    OneStep(s, h, FwGet, [FwEntry, FwPublish]);
  }

  lemma OneStep(s: State, h: History, a: Action, rest: seq<Action>)
    requires Typed(s) && Enabled(s, a) && Runs(Next(s, a), Log(h, s, a), rest)
    ensures Runs(s, h, [a] + rest)
    ensures After(s, h, [a] + rest) == After(Next(s, a), Log(h, s, a), rest)
  {
    assert ([a] + rest)[1..] == rest;
  }

  // ---------- What a drain amounts to ----------

  ghost function Outstanding(r: Ring): nat {
    (r.availIdx + INDEX_RANGE - r.availTail) % INDEX_RANGE
  }

  lemma OneFewer(r: Ring)
    requires WellFormed(r) && Available(r)
    ensures Outstanding(Take(r)) == Outstanding(r) - 1 && WellFormed(Sent(r))
    ensures Outstanding(Sent(r)) == Outstanding(r) - 1
  {
    OneNearer(r.availIdx, r.availTail);
  }

  lemma OneNearer(ahead: nat, behind: nat)
    requires ahead < INDEX_RANGE && behind < INDEX_RANGE && ahead != behind
    ensures (ahead + INDEX_RANGE - Next16(behind)) % INDEX_RANGE == (ahead + INDEX_RANGE - behind) % INDEX_RANGE - 1
  {
    Wraps(ahead + INDEX_RANGE - behind);
    Wraps(ahead + INDEX_RANGE - Next16(behind));
    Wraps(behind + 1);
  }

  lemma Wraps(x: nat)
    requires x < 2 * INDEX_RANGE
    ensures x % INDEX_RANGE == if x < INDEX_RANGE then x else x - INDEX_RANGE
  {}

  /** The descriptors waiting in the available ring, oldest first. */
  ghost function Queue(r: Ring): (q: seq<nat>)
    requires WellFormed(r)
    decreases Outstanding(r)
  {
    if !Available(r) then [] else OneFewer(r); [Head(r)] + Queue(Sent(r))
  }

  /** The ring once every waiting descriptor has been taken and published. */
  ghost function Drained(r: Ring): Ring
    requires WellFormed(r)
    decreases Outstanding(r)
  {
    if !Available(r) then r else OneFewer(r); Drained(Sent(r))
  }

  /** The channel table after a sequence of messages. */
  ghost function ReceiveAll(t: Table, ms: seq<Message>): Table
    decreases |ms|
  {
    if ms == [] then t else ReceiveAll(Receive(t, ms[0]).0, ms[1..])
  }

  ghost function Messages(buffers: seq<Message>, q: seq<nat>): (ms: seq<Message>)
    requires forall i :: 0 <= i < |q| ==> q[i] < |buffers|
  {
    seq(|q|, i requires 0 <= i < |q| => buffers[q[i]])
  }

  lemma {:induction false} QueueTyped(r: Ring)
    requires SlotsTyped(r)
    ensures forall i :: 0 <= i < |Queue(r)| ==> Queue(r)[i] < VRING_SIZE
    decreases Outstanding(r)
  {
    if Available(r) {
      OneFewer(r);
      QueueTyped(Sent(r));
    }
  }

  ghost function Arrivals(ms: seq<Message>): seq<Event> {
    seq(|ms|, i requires 0 <= i < |ms| => Received(ms[i]))
  }

  lemma QueueStep(r: Ring, buffers: seq<Message>)
    requires SlotsTyped(r) && Available(r) && |buffers| == VRING_SIZE
    ensures SlotsTyped(Sent(r)) && Head(r) < VRING_SIZE
    ensures Drained(r) == Drained(Sent(r)) && Outstanding(Sent(r)) == Outstanding(r) - 1
    ensures forall i :: 0 <= i < |Queue(r)| ==> Queue(r)[i] < VRING_SIZE
    ensures forall i :: 0 <= i < |Queue(Sent(r))| ==> Queue(Sent(r))[i] < VRING_SIZE
    ensures Messages(buffers, Queue(r)) == [buffers[Head(r)]] + Messages(buffers, Queue(Sent(r)))
  {
    OneFewer(r);
    QueueTyped(r);
    QueueTyped(Sent(r));
  }

  lemma NoneWaiting(r: Ring, buffers: seq<Message>, t: Table, evs: seq<Event>)
    requires SlotsTyped(r) && !Available(r)
    ensures Drained(r) == r && Queue(r) == [] && Messages(buffers, Queue(r)) == []
    ensures ReceiveAll(t, []) == t && evs + Arrivals([]) == evs
  {}

  lemma ReceiveStep(t: Table, evs: seq<Event>, m: Message, ms: seq<Message>)
    ensures ReceiveAll(t, [m] + ms) == ReceiveAll(Receive(t, m).0, ms)
    ensures evs + Arrivals([m] + ms) == evs + [Received(m)] + Arrivals(ms)
  {
    assert ([m] + ms)[1..] == ms;
    assert Arrivals([m] + ms) == [Received(m)] + Arrivals(ms);
  }

  // ---------- Handling kicks as runs of the kick protocol ----------

  lemma DrainedIsEmpty(r: Ring)
    requires WellFormed(r)
    ensures WellFormed(Drained(r)) && !Available(Drained(r)) && Drained(Drained(r)) == Drained(r)
    decreases Outstanding(r)
  {
    if Available(r) {
      OneFewer(r);
      DrainedIsEmpty(Sent(r));
    }
  }

  lemma SentTyped(s: State)
    requires Typed(s) && Available(s.ring)
    ensures Typed(s.(ring := Sent(s.ring))) && SlotsTyped(s.ring)
  {}

  /** What the firmware has found once it has read the whole ring. */
  ghost function AllFound(s: State): seq<Message>
    requires Typed(s)
  {
    QueueTyped(s.ring);
    Messages(s.buffers, Queue(s.ring))
  }

  /** The loop of `rxvring_task` is a run of ring steps inside a drain. */
  lemma {:induction false} DrainReaches(r: Rx, g: RxHistory) returns (h': History)
    requires Typed(r.s) && r.s.fw.Idle? && r.draining
    ensures Typed(r.s.(ring := Drained(r.s.ring)))
    ensures Reaches(r, g, r.(s := r.s.(ring := Drained(r.s.ring))), g.(h := h'))
    ensures h'.added == g.h.added && h'.found == g.h.found + AllFound(r.s)
    decreases Outstanding(r.s.ring)
  {
    hide Reaches, Sent, Outstanding;
    if Available(r.s.ring) {
      SentTyped(r.s);
      OneFewer(r.s.ring);
      QueueStep(r.s.ring, r.s.buffers);
      ReadIsRun(r.s, g.h);
      RingRunReaches(r, g, READ_STEPS);
      var (s1, h1) := After(r.s, g.h, READ_STEPS);
      var r1, g1 := r.(s := s1), g.(h := h1);
      h' := DrainReaches(r1, g1);
      ReachesOn(r, g, r1, g1, r.(s := r.s.(ring := Drained(r.s.ring))), g.(h := h'));
    } else {
      h' := g.h;
      ReachesItself(r, g);
      assert AllFound(r.s) == [];
    }
  }

  /** The state after one call of `rxvring_task`. */
  ghost function Tasked(r: Rx): Rx
    requires Typed(r.s)
  {
    if r.kicks == r.processed then r
    else r.(s := r.s.(ring := Drained(r.s.ring)), processed := (r.processed + 1) % KICK_RANGE)
  }

  /** One call of `rxvring_task` that finds a kick is the run of its beginning,
      its reads and its end. */
  lemma TaskReaches(r: Rx, g: RxHistory) returns (h': History)
    requires RxInv(r, g) && !r.draining && r.kicks != r.processed
    ensures Reaches(r, g, Tasked(r), g.(handled := g.handled + 1, h := h')) && Typed(Tasked(r).s)
    ensures h'.added == g.h.added && h'.found == g.h.found + AllFound(r.s)
  {
    hide Reaches, Inv, Drained, AllFound;
    InvTyped(r.s, g.h);
    var (r1, g1) := RxNext(r, g, TaskBegin);
    ReachesNext(r, g, TaskBegin);
    h' := DrainReaches(r1, g1);
    DrainedIsEmpty(r.s.ring);
    var r2, g2 := r1.(s := r1.s.(ring := Drained(r1.s.ring))), g1.(h := h');
    ReachesOn(r, g, r1, g1, r2, g2);
    ReachesNext(r2, g2, TaskEnd);
    ReachesOn(r, g, r2, g2, r2.(draining := false), g2);
  }

  lemma InvTyped(s: State, h: History)
    requires Inv(s, h)
    ensures Typed(s)
  {}

  /** The state once all kicks are handled. */
  ghost function Settled(r: Rx): Rx
    requires Typed(r.s)
  {
    if r.kicks == r.processed then r else r.(s := r.s.(ring := Drained(r.s.ring)), processed := r.kicks)
  }

  /** No lost kick, the second half: from every state outside a drain the firmware
      reaches, without a step of the guest, the state in which its counters are
      equal, and there it has found all that was announced before the last kick. */
  lemma {:induction false} SettledReaches(r: Rx, g: RxHistory) returns (g': RxHistory)
    requires RxInv(r, g) && !r.draining
    ensures Typed(r.s) && Reaches(r, g, Settled(r), g') && RxInv(Settled(r), g')
    ensures g'.sent == g'.handled == g.sent && g'.kickedAt == g.kickedAt && g'.h.added == g.h.added
    ensures g.kickedAt <= |g'.h.found|
    ensures g'.h.found == g.h.found + if r.kicks == r.processed then [] else AllFound(r.s)
    decreases g.sent - g.handled
  {
    hide Reaches, Inv, Drained, AllFound;
    InvTyped(r.s, g.h);
    CounterEquality(g.handled, g.sent);
    if r.kicks == r.processed {
      g' := g;
      ReachesItself(r, g);
      assert g.h.found + [] == g.h.found;
    } else {
      var h1 := TaskReaches(r, g);
      var r1, g1 := Tasked(r), g.(handled := g.handled + 1, h := h1);
      ReachedKeepsInv(r, g, r1, g1);
      g' := SettledReaches(r1, g1);
      DrainedIsEmpty(r.s.ring);
      NothingFound(r1.s);
      ReachesOn(r, g, r1, g1, Settled(r), g');
    }
  }

  /** From this state the firmware alone reaches the settled one, and has then
      found every message announced before the last kick, in order. */
  ghost predicate Settles(r: Rx, g: RxHistory) {
    Typed(r.s) && exists g': RxHistory ::
      && Reaches(r, g, Settled(r), g')
      && g'.sent == g'.handled == g.sent && g'.h.added == g.h.added
      && g.kickedAt <= |g'.h.found|
      && g'.h.found == g.h.found + if r.kicks == r.processed then [] else AllFound(r.s)
  }

  lemma SettlesAlways(r: Rx, g: RxHistory)
    requires RxInv(r, g) && !r.draining
    ensures Typed(r.s) && Settles(r, g)
  {
    hide Reaches, RxInv, AllFound, Drained;
    var g' := SettledReaches(r, g);
  }

  lemma NothingFound(s: State)
    requires Typed(s) && !Available(s.ring)
    ensures AllFound(s) == []
  {}

  // ---------- The object ----------

  class Transport {
    const tx: VringDev
    const rx: VringDev
    const txBuf: array<Message>
    const rxBuf: array<Message>
    const channels: array<Channel>
    var nextAddr: nat
    var txKicks: nat
    var rxKicks: nat
    var txProcessed: nat
    var rxProcessed: nat
    ghost var events: seq<Event>

    ghost predicate Layout()
      reads this
    {
      && tx != rx && tx.desc != rx.desc && tx.avail != rx.avail && tx.used != rx.used
      && txBuf != rxBuf && txBuf.Length == rxBuf.Length == VRING_SIZE
      && txKicks < KICK_RANGE && rxKicks < KICK_RANGE && txProcessed < KICK_RANGE && rxProcessed < KICK_RANGE
    }

    ghost predicate Valid()
      reads this, channels, tx, tx.avail, tx.used, rx, rx.avail, rx.used
    {
      && Layout()
      && tx.Valid() && SlotsTyped(tx.View())
      && rx.Valid() && SlotsTyped(rx.View())
      && ChannelsInv(channels[..], nextAddr, events)
    }

    /** The messages waiting in the receive ring, oldest first. */
    ghost function Waiting(): seq<Message>
      requires Valid()
      reads this, channels, tx, tx.avail, tx.used, rx, rx.avail, rx.used, rxBuf
    {
      QueueTyped(rx.View());
      Messages(rxBuf[..], Queue(rx.View()))
    }

    constructor (tx: VringDev, rx: VringDev, txBuf: array<Message>, rxBuf: array<Message>, channels: array<Channel>)
      requires tx != rx && tx.desc != rx.desc && tx.avail != rx.avail && tx.used != rx.used
      requires txBuf != rxBuf && txBuf.Length == rxBuf.Length == VRING_SIZE
      requires tx.Valid() && SlotsTyped(tx.View()) && rx.Valid() && SlotsTyped(rx.View())
      requires channels.Length == MAX_RPMSG_CH && forall i :: 0 <= i < MAX_RPMSG_CH ==> !Live(channels[i])
      ensures Valid() && events == []
      ensures this.tx == tx && this.rx == rx && this.txBuf == txBuf && this.rxBuf == rxBuf && this.channels == channels
    {
      this.tx, this.rx, this.txBuf, this.rxBuf, this.channels := tx, rx, txBuf, rxBuf, channels;
      nextAddr, txKicks, rxKicks, txProcessed, rxProcessed := APP_ADDR_START, 0, 0, 0, 0;
      events := [];
      new;
      NoChannels(channels[..]);
    }

    /** `__send_message`: 1 when no buffer is available, and then nothing changes;
        0 after the run of SendIsRun. */
    method SendMessage(src: nat, dst: nat, data: seq<byte>) returns (r: nat)
      requires Valid()
      modifies tx`availTail, tx`usedIdx, tx`notified, tx.desc, tx.avail, tx.used, txBuf
      ensures Valid()
      ensures r == if Available(old(tx.View())) then 0 else 1
      ensures r == 1 ==> tx.View() == old(tx.View()) && txBuf[..] == old(txBuf[..]) && tx.notified == old(tx.notified)
      ensures r == 0 ==>
        && tx.View() == Sent(old(tx.View()))
        && txBuf[..] == old(txBuf[..])[Head(old(tx.View())) := Cut(src, dst, data)]
        && tx.notified == old(tx.notified) + (if HeldBack(tx.availFlags) then 0 else 1)
    {
      var idx := tx.GetBuf();
      if idx < 0 {
        return 1;
      }
      var len := |data|;
      if len > DATA_LEN_MAX {
        len := DATA_LEN_MAX;
      }
      assert data[..|data|] == data;
      txBuf[idx] := Message(src, dst, data[..len]);
      var _ := tx.PublishBuf(idx, PACKET_LEN_MAX, true);
      r := 0;
    }

    /** `rpmsg_send`, up to one attempt: only a live channel sends, to the peer it
        last heard from; 1 when it has to wait for a buffer. */
    method RpmsgSend(ch: nat, data: seq<byte>) returns (r: nat)
      requires Valid() && ch < channels.Length
      modifies tx`availTail, tx`usedIdx, tx`notified, tx.desc, tx.avail, tx.used, txBuf
      ensures Valid()
      ensures r == if Live(channels[ch]) && !Available(old(tx.View())) then 1 else 0
      ensures !Live(channels[ch]) || r == 1 ==>
        tx.View() == old(tx.View()) && txBuf[..] == old(txBuf[..]) && tx.notified == old(tx.notified)
      ensures Live(channels[ch]) && r == 0 ==>
        && tx.notified == old(tx.notified) + (if HeldBack(tx.availFlags) then 0 else 1)
        && tx.View() == Sent(old(tx.View()))
        && txBuf[..] == old(txBuf[..])[Head(old(tx.View())) :=
             Cut(channels[ch].localAddr, Peer(events, channels[ch].localAddr), data)]
    {
      if channels[ch].state != Announced && channels[ch].state != Up {
        return 0;
      }
      r := SendMessage(channels[ch].localAddr, channels[ch].remoteAddr, data);
    }

    /** `rpmsg_create_ch`, up to one attempt to announce: the new channel's index,
        or the length of the table when it is full, and 1 when the announcement has
        to wait for a buffer. */
    method CreateCh(name: string, hasCallback: bool) returns (ch: nat, wait: nat)
      requires Valid()
      modifies this`nextAddr, this`events, channels
      modifies tx`availTail, tx`usedIdx, tx`notified, tx.desc, tx.avail, tx.used, txBuf
      ensures Valid()
      ensures ch == old(nextAddr) - APP_ADDR_START
      ensures ch == channels.Length ==> channels[..] == old(channels[..]) && events == old(events)
      ensures ch < channels.Length ==>
        && channels[..] == old(channels[..])[ch := Fresh(old(nextAddr), name, hasCallback)]
        && nextAddr == old(nextAddr) + 1 && events == old(events) + [Created(old(nextAddr), name, hasCallback)]
      ensures ch < channels.Length ==>
        && channels[ch].localAddr == 0x50 + ch && channels[ch].remoteAddr == 0xFFFF_FFFF
        && channels[ch].state == Announced && channels[ch].hasCallback == hasCallback
        && channels[ch].name == if |name| <= 32 then name else name[..32]
      ensures wait == if ch < channels.Length && !Available(old(tx.View())) then 1 else 0
      ensures ch == channels.Length || wait == 1 ==> tx.View() == old(tx.View()) && txBuf[..] == old(txBuf[..])
      ensures ch < channels.Length && wait == 0 ==>
        && tx.View() == Sent(old(tx.View()))
        && txBuf[..] == old(txBuf[..])[Head(old(tx.View())) :=
             Message(old(nextAddr), 0x35, Announcement(name, old(nextAddr)))]
    {
      CreateKeepsInv(channels[..], nextAddr, events, name, hasCallback);
      ch := 0;
      while ch < channels.Length && channels[ch].state != Unused
        invariant 0 <= ch <= channels.Length
        invariant forall j :: 0 <= j < ch ==> Live(channels[..][j])
      {
        ch := ch + 1;
      }
      FirstUnusedIs(channels[..], ch);
      if ch == channels.Length {
        return ch, 0;
      }
      channels[ch] := Fresh(nextAddr, name, hasCallback);
      events := events + [Created(nextAddr, name, hasCallback)];
      nextAddr := nextAddr + 1;
      wait := SendMessage(channels[ch].localAddr, ANNOUNCEMENT_ADDR, Announcement(name, channels[ch].localAddr));
    }

    /** The loop of `read_message` over the channel table. */
    method Deliver(m: Message) returns (called: seq<nat>)
      modifies channels
      ensures (channels[..], called) == Receive(old(channels[..]), m)
    {
      called := [];
      var i := 0;
      while i < channels.Length
        invariant 0 <= i <= channels.Length && called == []
        invariant Dispatch(channels[..], m, i) == Receive(old(channels[..]), m)
      {
        if channels[i].state == Announced || channels[i].state == Up {
          if m.dst == channels[i].localAddr {
            ghost var t := channels[..];
            channels[i] := channels[i].(remoteAddr := m.src);
            channels[i] := channels[i].(state := Up);
            assert channels[..] == t[i := Touched(t[i], m)];
            if channels[i].hasCallback {
              return [i];
            }
          }
        }
        i := i + 1;
      }
    }

    /** `read_message`; without a message waiting it changes nothing. */
    method ReadMessage() returns (called: seq<nat>)
      requires Valid()
      modifies rx`availTail, rx`usedIdx, rx`notified, rx.desc, rx.avail, rx.used, channels, this`events
      ensures Valid() && rx.notified == old(rx.notified) && |called| <= 1
      ensures Available(old(rx.View())) ==>
        && rx.View() == Sent(old(rx.View()))
        && events == old(events) + [Received(rxBuf[Head(old(rx.View()))])]
        && (channels[..], called) == Receive(old(channels[..]), rxBuf[Head(old(rx.View()))])
      ensures !Available(old(rx.View())) ==>
        rx.View() == old(rx.View()) && events == old(events) && channels[..] == old(channels[..]) && called == []
    {
      var index := rx.GetBuf();
      if index < 0 {
        return [];
      }
      var m := rxBuf[index];
      ReceiveKeepsInv(channels[..], nextAddr, events, m);
      called := Deliver(m);
      events := events + [Received(m)];
      var _ := rx.PublishBuf(index, PACKET_LEN_MAX, false);
    }

    /** `txvring_irq`: Linux has taken buffers from the ring. */
    method TxvringIrq()
      requires Valid() && UnhandledTx() < KICK_RANGE - 1
      modifies this`txKicks
      ensures Valid() && UnhandledTx() == old(UnhandledTx()) + 1
    {
      OneFarther(txKicks, txProcessed);
      txKicks := (txKicks + 1) % KICK_RANGE;
    }

    /** `rxvring_irq`: in the kick protocol this is the step Kick. */
    method RxvringIrq()
      requires Valid() && UnhandledRx() < KICK_RANGE - 1
      modifies this`rxKicks
      ensures Valid() && UnhandledRx() == old(UnhandledRx()) + 1
      ensures forall r: Rx, g: RxHistory :: old(Shows(r)) && Typed(r.s) && RxEnabled(r, g, Kick) ==>
        Shows(RxNext(r, g, Kick).0)
    {
      OneFarther(rxKicks, rxProcessed);
      rxKicks := (rxKicks + 1) % KICK_RANGE;
    }

    method TxvringTask() returns (r: bool)
      requires Valid()
      modifies this`txProcessed
      ensures Valid() && r == (txKicks != old(txProcessed))
      ensures txProcessed == if r then (old(txProcessed) + 1) % KICK_RANGE else old(txProcessed)
    {
      r := txKicks != txProcessed;
      if r {
        txProcessed := (txProcessed + 1) % KICK_RANGE;
      }
    }

    /** The loop of `rxvring_task`: every waiting message is read, in order, and
        its descriptor published. */
    method Drain()
      requires Valid()
      modifies rx`availTail, rx`usedIdx, rx`notified, rx.desc, rx.avail, rx.used, channels, this`events
      ensures Valid() && rx.View() == Drained(old(rx.View())) && Waiting() == []
      ensures channels[..] == ReceiveAll(old(channels[..]), old(Waiting()))
      ensures events == old(events) + Arrivals(old(Waiting()))
    {
      hide ChannelsInv, Receive, Sent, Queue, Drained, Messages, Arrivals, ReceiveAll, Outstanding;
      var more := rx.HasAvailable();
      while more
        invariant Valid() && more == Available(rx.View())
        invariant Drained(rx.View()) == Drained(old(rx.View()))
        invariant ReceiveAll(channels[..], Waiting()) == ReceiveAll(old(channels[..]), old(Waiting()))
        invariant events + Arrivals(Waiting()) == old(events) + Arrivals(old(Waiting()))
        decreases Outstanding(rx.View())
      {
        ghost var r, t, evs := rx.View(), channels[..], events;
        QueueStep(r, rxBuf[..]);
        ReceiveStep(t, evs, rxBuf[Head(r)], Messages(rxBuf[..], Queue(Sent(r))));
        var _ := ReadMessage();
        more := rx.HasAvailable();
      }
      NoneWaiting(rx.View(), rxBuf[..], channels[..], events);
    }

    /** `rxvring_task`. */
    method RxvringTask() returns (r: bool)
      requires Valid()
      modifies this`rxProcessed, this`events, channels
      modifies rx`availTail, rx`usedIdx, rx`notified, rx.desc, rx.avail, rx.used
      ensures Valid() && r == (rxKicks != old(rxProcessed))
      ensures rxProcessed == if r then (old(rxProcessed) + 1) % KICK_RANGE else old(rxProcessed)
      ensures rx.View() == if r then Drained(old(rx.View())) else old(rx.View())
      ensures Waiting() == if r then [] else old(Waiting())
      ensures var ms := if r then old(Waiting()) else [];
        channels[..] == ReceiveAll(old(channels[..]), ms) && events == old(events) + Arrivals(ms)
    {
      hide ChannelsInv, Receive, SlotsTyped, Drained;
      r := rxKicks != rxProcessed;
      if r {
        rxProcessed := (rxProcessed + 1) % KICK_RANGE;
        Drain();
      }
    }

    ghost function UnhandledTx(): nat
      reads this
    {
      Behind(txKicks, txProcessed)
    }

    ghost function UnhandledRx(): nat
      reads this
    {
      Behind(rxKicks, rxProcessed)
    }

    /** `rpmsg_poll`. */
    method RpmsgPoll() returns (busy: bool)
      requires Valid()
      modifies this`txProcessed, this`rxProcessed, rx`availTail, rx`usedIdx, rx`notified, rx.desc, rx.avail, rx.used,
        channels, this`events
      ensures Valid() && busy == (old(UnhandledTx()) > 0 || old(UnhandledRx()) > 0)
      ensures UnhandledTx() == if old(UnhandledTx()) > 0 then old(UnhandledTx()) - 1 else 0
      ensures UnhandledRx() == if old(UnhandledRx()) > 0 then old(UnhandledRx()) - 1 else 0
      ensures rx.View() == if old(UnhandledRx()) > 0 then Drained(old(rx.View())) else old(rx.View())
      ensures Waiting() == if old(UnhandledRx()) > 0 then [] else old(Waiting())
      ensures var ms := if old(UnhandledRx()) > 0 then old(Waiting()) else [];
        channels[..] == ReceiveAll(old(channels[..]), ms) && events == old(events) + Arrivals(ms)
    {
      hide ChannelsInv, Receive, SlotsTyped, Drained, Behind;
      CatchUp(txKicks, txProcessed);
      CatchUp(rxKicks, rxProcessed);
      var a := TxvringTask();
      var b := RxvringTask();
      busy := a || b;
    }

    /** The transport is in this state of the kick protocol, between calls. */
    ghost predicate Shows(r: Rx)
      reads this, rx, rx.avail, rx.used, rxBuf
    {
      && r.s.ring == rx.View() && r.s.buffers == rxBuf[..] && r.s.fw.Idle?
      && r.kicks == rxKicks && r.processed == rxProcessed && !r.draining
    }

    /** The main loop while the guest is quiet: one poll for each unhandled kick,
        and one that finds nothing to do.  If there was an unhandled receive kick,
        all messages then waiting have been received, in order.  In the kick
        protocol this is a run of the firmware alone, after which all that was
        announced before the last kick has been found. */
    method PollUntilIdle() returns (polls: nat)
      requires Valid()
      modifies this`txProcessed, this`rxProcessed, rx`availTail, rx`usedIdx, rx`notified, rx.desc, rx.avail, rx.used,
        channels, this`events
      ensures Valid() && UnhandledTx() == UnhandledRx() == 0
      ensures polls == 1 + if old(UnhandledTx()) > old(UnhandledRx()) then old(UnhandledTx()) else old(UnhandledRx())
      ensures rx.View() == if old(UnhandledRx()) > 0 then Drained(old(rx.View())) else old(rx.View())
      ensures old(UnhandledRx()) > 0 ==> Waiting() == []
      ensures forall r: Rx, g: RxHistory :: old(Shows(r)) && RxInv(r, g) ==>
        Typed(r.s) && Settles(r, g) && Shows(Settled(r)) && Settled(r).kicks == Settled(r).processed
      ensures var ms := if old(UnhandledRx()) > 0 then old(Waiting()) else [];
        channels[..] == ReceiveAll(old(channels[..]), ms) && events == old(events) + Arrivals(ms)
    {
      hide ChannelsInv, Receive, SlotsTyped, Waiting, Behind, Drained, RxInv, Settles;
      DrainedIsEmpty(rx.View());
      ghost var ring := rx.View();
      CatchUp(rxKicks, rxProcessed);
      ghost var ms := if UnhandledRx() > 0 then Waiting() else [];
      ghost var t, e := UnhandledTx(), UnhandledRx();
      polls := 1;
      var busy := RpmsgPoll();
      while busy
        invariant Valid()
        invariant busy == (t >= polls || e >= polls)
        invariant UnhandledTx() == (if t >= polls then t - polls else 0)
        invariant UnhandledRx() == (if e >= polls then e - polls else 0)
        invariant polls == 1 || t >= polls - 1 || e >= polls - 1
        invariant rx.View() == if e > 0 then Drained(ring) else ring
        invariant e > 0 ==> Waiting() == []
        invariant channels[..] == ReceiveAll(old(channels[..]), ms) && events == old(events) + Arrivals(ms)
        decreases UnhandledTx() + UnhandledRx() + if busy then 1 else 0
      {
        busy := RpmsgPoll();
        polls := polls + 1;
      }
      CatchUp(rxKicks, rxProcessed);
      forall r: Rx, g: RxHistory | old(Shows(r)) && RxInv(r, g)
        ensures Typed(r.s) && Settles(r, g) && Shows(Settled(r)) && Settled(r).kicks == Settled(r).processed
      {
        SettlesAlways(r, g);
      }
    }
  }

  /** How many kicks a wrapping counter is behind. */
  function Behind(kicks: nat, processed: nat): nat {
    (kicks + KICK_RANGE - processed % KICK_RANGE) % KICK_RANGE
  }

  lemma OneFarther(kicks: nat, processed: nat)
    requires kicks < KICK_RANGE && processed < KICK_RANGE && Behind(kicks, processed) < KICK_RANGE - 1
    ensures Behind((kicks + 1) % KICK_RANGE, processed) == Behind(kicks, processed) + 1
  {}

  lemma CatchUp(kicks: nat, processed: nat)
    requires kicks < KICK_RANGE && processed < KICK_RANGE
    ensures Behind(kicks, processed) == 0 <==> kicks == processed
    ensures kicks != processed ==> Behind(kicks, (processed + 1) % KICK_RANGE) == Behind(kicks, processed) - 1
  {}
}
