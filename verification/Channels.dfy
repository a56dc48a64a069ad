/** The table of rpmsg channels on the firmware side: creation, and the search
    that hands a received message to its channel. */
module Channels {
  import opened RingProtocol

  const MAX_RPMSG_CH := 5
  const APP_ADDR_START := 0x50
  const RPMSG_ADDR_ANY := 0xFFFF_FFFF
  const RPMSG_NAME_SIZE := 32

  datatype ChannelState = Unused | Announced | Up

  datatype Channel = Channel(localAddr: nat, remoteAddr: nat, state: ChannelState, name: string, hasCallback: bool)

  type Table = seq<Channel>

  predicate Live(c: Channel) {
    c.state != Unused
  }

  /** The first free entry, or the length of the table. */
  function FirstUnused(t: Table): (i: nat)
    ensures i <= |t| && (i < |t| ==> !Live(t[i])) && forall j :: 0 <= j < i ==> Live(t[j])
  {
    if t == [] then 0
    else if !Live(t[0]) then 0
    else 1 + FirstUnused(t[1..])
  }

  function Fresh(addr: nat, name: string, hasCallback: bool): Channel {
    var kept := if |name| <= RPMSG_NAME_SIZE then name else name[..RPMSG_NAME_SIZE];
    Channel(addr, RPMSG_ADDR_ANY, Announced, kept, hasCallback)
  }

  function Addressed(c: Channel, m: Message): bool {
    Live(c) && m.dst == c.localAddr
  }

  function Touched(c: Channel, m: Message): Channel {
    c.(remoteAddr := m.src, state := Up)
  }

  /** The search loop of `read_message` from entry `i` on: every addressed entry
      is brought up, and the first one with a callback ends the search.  Returns
      the entries whose callback ran. */
  function Dispatch(t: Table, m: Message, i: nat): (r: (Table, seq<nat>))
    requires i <= |t|
    ensures |r.0| == |t|
    decreases |t| - i
  {
    if i == |t| then (t, [])
    else if !Addressed(t[i], m) then Dispatch(t, m, i + 1)
    else
      var t' := t[i := Touched(t[i], m)];
      if t[i].hasCallback then (t', [i]) else Dispatch(t', m, i + 1)
  }

  function Receive(t: Table, m: Message): (Table, seq<nat>) {
    Dispatch(t, m, 0)
  }

  // ---------- Runs ----------

  datatype Event = Created(addr: nat, name: string, hasCallback: bool) | Received(m: Message)

  /** The peer that a channel with address `addr` answers to after `events`. */
  ghost function Peer(events: seq<Event>, addr: nat): nat {
    if events == [] then RPMSG_ADDR_ANY
    else
      match events[|events| - 1]
      case Created(a, _, _) => if a == addr then RPMSG_ADDR_ANY else Peer(events[..|events| - 1], addr)
      case Received(m) => if m.dst == addr then m.src else Peer(events[..|events| - 1], addr)
  }

  /** `addr` has got a message since its channel was created. */
  ghost predicate Heard(events: seq<Event>, addr: nat) {
    events != [] &&
    match events[|events| - 1]
    case Created(a, _, _) => a != addr && Heard(events[..|events| - 1], addr)
    case Received(m) => m.dst == addr || Heard(events[..|events| - 1], addr)
  }

  /** Live channels fill the table from the front, with consecutive addresses. */
  ghost predicate ChannelsInv(t: Table, nextAddr: nat, events: seq<Event>) {
    && |t| == MAX_RPMSG_CH
    && APP_ADDR_START <= nextAddr <= APP_ADDR_START + MAX_RPMSG_CH
    && (forall i :: 0 <= i < |t| ==> (Live(t[i]) <==> i < nextAddr - APP_ADDR_START))
    && (forall i :: 0 <= i < nextAddr - APP_ADDR_START ==>
          && t[i].localAddr == APP_ADDR_START + i
          && t[i].remoteAddr == Peer(events, t[i].localAddr)
          && (t[i].state == Up <==> Heard(events, t[i].localAddr)))
    && (forall k :: 0 <= k < |events| && events[k].Created? ==> MadeBy(t, nextAddr, events[k]))
    && (forall i: nat :: i < nextAddr - APP_ADDR_START ==> WasCreated(events, i))
  }

  ghost predicate WasCreated(events: seq<Event>, i: nat) {
    exists k :: 0 <= k < |events| && events[k].Created? && events[k].addr == APP_ADDR_START + i
  }

  /** The entry behind the address of a created channel has the callback given and
      the first 32 characters of the name given. */
  ghost predicate MadeBy(t: Table, nextAddr: nat, e: Event)
    requires e.Created? && |t| == MAX_RPMSG_CH && nextAddr <= APP_ADDR_START + MAX_RPMSG_CH
  {
    && APP_ADDR_START <= e.addr < nextAddr
    && var c := t[e.addr - APP_ADDR_START];
       c.hasCallback == e.hasCallback && c.name <= e.name && |c.name| == if |e.name| < 32 then |e.name| else 32
  }

  lemma NoChannels(t: Table)
    requires |t| == MAX_RPMSG_CH && forall i :: 0 <= i < |t| ==> !Live(t[i])
    ensures ChannelsInv(t, APP_ADDR_START, [])
  {}

  /** What one more event changes for the channel at `addr`. */
  lemma OneMore(events: seq<Event>, e: Event, addr: nat)
    ensures Peer(events + [e], addr) ==
      match e
      case Created(a, _, _) => if a == addr then RPMSG_ADDR_ANY else Peer(events, addr)
      case Received(m) => if m.dst == addr then m.src else Peer(events, addr)
    ensures Heard(events + [e], addr) ==
      match e
      case Created(a, _, _) => a != addr && Heard(events, addr)
      case Received(m) => m.dst == addr || Heard(events, addr)
  {
    assert (events + [e])[..|events|] == events;
  }

  lemma {:induction false} FirstUnusedIs(t: Table, n: nat)
    requires n <= |t| && (forall j :: 0 <= j < n ==> Live(t[j])) && (n < |t| ==> !Live(t[n]))
    ensures FirstUnused(t) == n
  {
    if n > 0 {
      FirstUnusedIs(t[1..], n - 1);
    }
  }

  /** Creating a channel takes the first free entry and a new address; there is
      no entry left exactly when five channels exist. */
  lemma CreateKeepsInv(t: Table, nextAddr: nat, events: seq<Event>, name: string, hasCallback: bool)
    requires ChannelsInv(t, nextAddr, events)
    ensures FirstUnused(t) == nextAddr - 0x50
    ensures FirstUnused(t) == |t| <==> nextAddr == 0x55
    ensures nextAddr < APP_ADDR_START + MAX_RPMSG_CH ==>
      ChannelsInv(t[nextAddr - APP_ADDR_START := Fresh(nextAddr, name, hasCallback)], nextAddr + 1,
                  events + [Created(nextAddr, name, hasCallback)])
  {
    FirstUnusedIs(t, nextAddr - APP_ADDR_START);
    CreatedKeepsInv(t, nextAddr, events, name, hasCallback);
  }

  lemma CreatedKeepsInv(t: Table, nextAddr: nat, events: seq<Event>, name: string, hasCallback: bool)
    requires ChannelsInv(t, nextAddr, events)
    ensures nextAddr < APP_ADDR_START + MAX_RPMSG_CH ==>
      ChannelsInv(t[nextAddr - APP_ADDR_START := Fresh(nextAddr, name, hasCallback)], nextAddr + 1,
                  events + [Created(nextAddr, name, hasCallback)])
  {
    forall addr: nat | addr <= nextAddr
      ensures Peer(events + [Created(nextAddr, name, hasCallback)], addr) ==
        if addr == nextAddr then RPMSG_ADDR_ANY else Peer(events, addr)
      ensures Heard(events + [Created(nextAddr, name, hasCallback)], addr) <==> addr != nextAddr && Heard(events, addr)
    {
      OneMore(events, Created(nextAddr, name, hasCallback), addr);
    }
    if nextAddr < APP_ADDR_START + MAX_RPMSG_CH {
      CreatedKeepsMade(t, nextAddr, events, name, hasCallback);
    }
  }

  lemma CreatedKeepsMade(t: Table, nextAddr: nat, events: seq<Event>, name: string, hasCallback: bool)
    requires ChannelsInv(t, nextAddr, events) && nextAddr < APP_ADDR_START + MAX_RPMSG_CH
    ensures var t' := t[nextAddr - APP_ADDR_START := Fresh(nextAddr, name, hasCallback)];
      var events' := events + [Created(nextAddr, name, hasCallback)];
      && (forall k :: 0 <= k < |events'| && events'[k].Created? ==> MadeBy(t', nextAddr + 1, events'[k]))
      && (forall i: nat :: i < nextAddr + 1 - APP_ADDR_START ==> WasCreated(events', i))
  {
    var events' := events + [Created(nextAddr, name, hasCallback)];
    forall i: nat | i < nextAddr + 1 - APP_ADDR_START ensures WasCreated(events', i) {
      if i == nextAddr - APP_ADDR_START {
        assert events'[|events|].addr == nextAddr;
      } else {
        StillCreated(events, events'[|events|], i);
      }
    }
  }

  lemma StillCreated(events: seq<Event>, e: Event, i: nat)
    requires WasCreated(events, i)
    ensures WasCreated(events + [e], i)
  {
    var k :| 0 <= k < |events| && events[k].Created? && events[k].addr == APP_ADDR_START + i;
    assert (events + [e])[k] == events[k];
  }

  /** The entry a message is for, or the length of the table. */
  ghost function Target(t: Table, nextAddr: nat, m: Message): nat
    requires APP_ADDR_START <= nextAddr <= APP_ADDR_START + |t|
  {
    if APP_ADDR_START <= m.dst < nextAddr then m.dst - APP_ADDR_START else |t|
  }

  /** Because live addresses differ, the search touches at most the one channel
      that has the destination's address. */
  lemma {:induction false} DispatchFindsTarget(t: Table, nextAddr: nat, events: seq<Event>, m: Message, i: nat)
    requires ChannelsInv(t, nextAddr, events)
    requires i <= Target(t, nextAddr, m)
    ensures var k := Target(t, nextAddr, m);
      Dispatch(t, m, i) ==
        if k == |t| then (t, []) else (t[k := Touched(t[k], m)], if t[k].hasCallback then [k] else [])
    decreases |t| - i
  {
    var k := Target(t, nextAddr, m);
    if i < k {
      DispatchFindsTarget(t, nextAddr, events, m, i + 1);
    } else if i == k < |t| && !t[k].hasCallback {
      DispatchPassesOver(t[k := Touched(t[k], m)], m, k + 1);
    }
  }

  lemma {:induction false} DispatchPassesOver(t: Table, m: Message, i: nat)
    requires i <= |t| && forall j :: i <= j < |t| ==> !Addressed(t[j], m)
    ensures Dispatch(t, m, i) == (t, [])
    decreases |t| - i
  {
    if i < |t| {
      DispatchPassesOver(t, m, i + 1);
    }
  }

  /** A received message runs at most one callback, that of the live channel whose
      address it carries; that channel is up from then on and answers to the
      message's sender; no other channel changes. */
  lemma ReceiveKeepsInv(t: Table, nextAddr: nat, events: seq<Event>, m: Message)
    requires ChannelsInv(t, nextAddr, events)
    ensures var (t', called) := Receive(t, m);
      && ChannelsInv(t', nextAddr, events + [Received(m)])
      && |called| <= 1
      && (forall i :: i in called <==> 0 <= i < |t| && Addressed(t[i], m) && t[i].hasCallback)
      && (forall i :: 0 <= i < |t| && !Addressed(t[i], m) ==> t'[i] == t[i])
  {
    DispatchFindsTarget(t, nextAddr, events, m, 0);
    forall addr: nat
      ensures Peer(events + [Received(m)], addr) == if addr == m.dst then m.src else Peer(events, addr)
      ensures Heard(events + [Received(m)], addr) <==> addr == m.dst || Heard(events, addr)
    {
      OneMore(events, Received(m), addr);
    }
    forall i: nat | i < nextAddr - APP_ADDR_START ensures WasCreated(events + [Received(m)], i) {
      StillCreated(events, Received(m), i);
    }
  }

  /** Over whole histories: a message runs exactly the callback that the channel with
      its destination address was created with, and none without such a channel. */
  lemma CallbackRuns(t: Table, nextAddr: nat, events: seq<Event>, m: Message)
    requires ChannelsInv(t, nextAddr, events)
    ensures forall k :: 0 <= k < |events| && events[k].Created? && events[k].addr == m.dst ==>
      Receive(t, m).1 == if events[k].hasCallback then [m.dst - 0x50] else []
    ensures (forall k :: 0 <= k < |events| && events[k].Created? ==> events[k].addr != m.dst) ==>
      Receive(t, m) == (t, [])
  {
    DispatchFindsTarget(t, nextAddr, events, m, 0);
    if APP_ADDR_START <= m.dst < nextAddr {
      assert WasCreated(events, m.dst - APP_ADDR_START);
    }
  }

  /** Live channels have distinct addresses, so an address names a channel. */
  lemma AddressesDistinct(t: Table, nextAddr: nat, events: seq<Event>)
    requires ChannelsInv(t, nextAddr, events)
    ensures forall i, j :: 0 <= i < j < |t| && Live(t[i]) && Live(t[j]) ==> t[i].localAddr != t[j].localAddr
  {}

  // ---------- States only move forward ----------

  /** A message leaves unused entries unused and channels that are up up; others are
      announced or up afterwards; no address changes. */
  lemma {:induction false} DispatchMovesForward(t: Table, m: Message, i: nat)
    requires i <= |t|
    ensures var t' := Dispatch(t, m, i).0;
      forall j :: 0 <= j < |t| ==>
        && (t'[j].state == Unused <==> t[j].state == Unused)
        && (t[j].state == Up ==> t'[j].state == Up)
        && t'[j].localAddr == t[j].localAddr
    decreases |t| - i
  {
    if i < |t| {
      DispatchMovesForward(t, m, i + 1);
      if Addressed(t[i], m) {
        DispatchMovesForward(t[i := Touched(t[i], m)], m, i + 1);
      }
    }
  }
}
