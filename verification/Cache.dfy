/** Cache maintenance by address range and by set and way, on a two-level data
    cache with 32-byte lines and 32-bit addresses that wrap. */
module Cache {
  import opened Common

  const LINE := 32
  const LINES := 0x800_0000
  const WORD := 0x1_0000_0000
  const LAST_LINE := 0xFFFF_FFE0

  /** A line of 32 bytes, and a copy of it held in a cache. */
  type Bytes = b: seq<byte> | |b| == LINE witness seq(LINE, _ => 0)
  datatype Copy = Copy(data: Bytes, dirty: bool)

  datatype LineState = LineState(l1: Option<Copy>, l2: Option<Copy>, mem: Bytes)

  /** The value that the processor sees. */
  function Value(s: LineState): Bytes {
    if s.l1.Some? then s.l1.value.data else Below(s)
  }

  /** The value that the first-level cache would be filled with. */
  function Below(s: LineState): Bytes {
    if s.l2.Some? then s.l2.value.data else s.mem
  }

  /** Clean copies equal what lies below them. */
  ghost predicate Coherent(s: LineState) {
    && (s.l1.Some? && !s.l1.value.dirty ==> s.l1.value.data == Below(s))
    && (s.l2.Some? && !s.l2.value.dirty ==> s.l2.value.data == s.mem)
  }

  // ---------- Operations on one line ----------

  /** Clean and invalidate in the first level: dirty data goes to the second level
      if that holds the line, and to memory otherwise. */
  function L1Flush(s: LineState): LineState {
    if s.l1.Some? && s.l1.value.dirty then
      if s.l2.Some? then LineState(None, Some(Copy(s.l1.value.data, true)), s.mem)
      else LineState(None, None, s.l1.value.data)
    else s.(l1 := None)
  }

  function L2Flush(s: LineState): LineState {
    if s.l2.Some? && s.l2.value.dirty then s.(l2 := None, mem := s.l2.value.data) else s.(l2 := None)
  }

  function L1Invalidate(s: LineState): LineState { s.(l1 := None) }

  function L2Invalidate(s: LineState): LineState { s.(l2 := None) }

  function Flush(s: LineState): LineState { L2Flush(L1Flush(s)) }

  function Discard(s: LineState): LineState { L1Invalidate(L2Invalidate(s)) }

  /** Flushing a line leaves its latest value in memory and nothing in the caches. */
  lemma FlushWritesBack(s: LineState)
    requires Coherent(s)
    ensures Flush(s) == LineState(None, None, Value(s)) && Coherent(Flush(s)) && Value(Flush(s)) == Value(s)
  {}

  lemma FlushTwice(s: LineState)
    ensures Flush(Flush(s)) == Flush(s)
  {}

  ghost predicate AllCoherent(s: seq<LineState>) {
    forall k :: 0 <= k < |s| ==> Coherent(s[k])
  }

  /** The byte at address x as the processor sees it. */
  function ByteAt(s: seq<LineState>, x: nat): byte
    requires x < LINE * |s|
  {
    Value(s[x / LINE])[x % LINE]
  }

  // ---------- Xil_DCacheInvalidateRange ----------

  function AlignDown(a: nat): nat { a - a % LINE }

  function AlignUp(a: nat): nat {
    if a % LINE == 0 then a else (AlignDown(a) + LINE) % WORD
  }

  predicate OnEdge(adr: nat, end: nat, k: nat) {
    (adr % LINE != 0 && k == adr / LINE) || (end % LINE != 0 && k == end / LINE)
  }

  lemma AlignsHold(adr: nat, end: nat)
    requires adr < WORD && end < WORD
    ensures AlignUp(adr) % LINE == 0 && AlignUp(adr) < WORD && AlignDown(end) % LINE == 0 && AlignDown(end) < WORD
  {
    hide AlignDown;
    DownHolds(adr);
    DownHolds(end);
  }

  lemma DownHolds(a: nat)
    ensures AlignDown(a) == LINE * (a / LINE) && AlignDown(a) % LINE == 0 && AlignDown(a) <= a
  {}

  /** What happens to line k: the two edge lines that the range only partly covers
      are flushed, and those between them are discarded. */
  ghost function Invalidated(s: seq<LineState>, adr: nat, len: nat, k: nat): LineState
    requires k < |s|
  {
    var end := (adr + len) % WORD;
    if len == 0 then s[k]
    else
      var s1 := if OnEdge(adr, end, k) then Flush(s[k]) else s[k];
      if AlignUp(adr) <= LINE * k < AlignDown(end) then Discard(s1) else s1
  }

  class DataCache {
    var lines: seq<LineState>
    ghost var touched: seq<nat>

    constructor (lines: seq<LineState>)
      ensures this.lines == lines && touched == []
    {
      this.lines, touched := lines, [];
    }

    method FlushLine(a: nat)
      requires a / LINE < |lines|
      modifies this`lines
      ensures lines == old(lines)[a / LINE := Flush(old(lines)[a / LINE])]
    {
      lines := lines[a / LINE := L1Flush(lines[a / LINE])];
      lines := lines[a / LINE := L2Flush(lines[a / LINE])];
    }

    /** The loop that discards the lines from address `from` up to below `to`. */
    method DiscardLines(from: nat, to: nat)
      requires from % LINE == 0 && to % LINE == 0 && from < WORD && to < WORD && |lines| == LINES
      modifies this`lines
      ensures |lines| == LINES
      ensures forall k :: 0 <= k < LINES ==>
        lines[k] == if from <= LINE * k < to then Discard(old(lines)[k]) else old(lines)[k]
    {
      hide Discard;
      var a := from;
      while a < to
        invariant |lines| == LINES && a % LINE == 0 && from <= a && a <= (if from <= to then to else from)
        invariant forall k :: 0 <= k < LINES ==>
          lines[k] == if from <= LINE * k < a then Discard(old(lines)[k]) else old(lines)[k]
      {
        DiscardLine(a / LINE);
        a := (a + LINE) % WORD;
      }
    }

    method DiscardLine(k: nat)
      requires k < |lines|
      modifies this`lines
      ensures lines == old(lines)[k := Discard(old(lines)[k])]
    {
      lines := lines[k := L2Invalidate(lines[k])];
      lines := lines[k := L1Invalidate(lines[k])];
    }

    /** The part of `Xil_DCacheInvalidateRange` before its loop: flush the edges,
        and leave the addresses between which to discard. */
    method FlushEdges(adr: nat, end: nat) returns (from: nat, to: nat)
      requires adr < WORD && end < WORD && |lines| == LINES
      modifies this`lines
      ensures |lines| == LINES && from == AlignUp(adr) && to == AlignDown(end)
      ensures forall k :: 0 <= k < LINES ==>
        lines[k] == if OnEdge(adr, end, k) then Flush(old(lines)[k]) else old(lines)[k]
    {
      hide Flush;
      from, to := adr, end;
      if from % LINE != 0 {
        from := from - from % LINE;
        FlushLine(from);
        from := (from + LINE) % WORD;
      }
      if to % LINE != 0 {
        to := to - to % LINE;
        FlushTwice(old(lines)[adr / LINE]);
        FlushLine(to);
      }
    }

    method InvalidateRange(adr: nat, len: nat)
      requires adr < WORD && len < WORD && |lines| == LINES
      modifies this`lines
      ensures |lines| == LINES
      ensures forall k :: 0 <= k < LINES ==> lines[k] == Invalidated(old(lines), adr, len, k)
    {
      hide Flush, Discard, AlignUp, AlignDown, OnEdge;
      if len != 0 {
        AlignsHold(adr, (adr + len) % WORD);
        var from, to := FlushEdges(adr, (adr + len) % WORD);
        DiscardLines(from, to);
      }
    }

    /** The loop that flushes lines from address `from` up to below `to`, recording
        each line it visits by its address. */
    method FlushLines(from: nat, to: nat)
      requires from % LINE == 0 && from < WORD && to <= LAST_LINE && |lines| == LINES
      modifies this
      ensures |lines| == LINES && touched == old(touched) + Walk(from, to)
      ensures forall k :: 0 <= k < LINES ==>
        lines[k] == if from <= LINE * k < to then Flush(old(lines)[k]) else old(lines)[k]
    {
      hide Flush, Walk;
      ghost var s := lines;
      var a := from;
      while a < to
        invariant |lines| == LINES && a % LINE == 0 && from <= a < WORD && (a < to + LINE || a == from)
        invariant touched + Walk(a, to) == old(touched) + Walk(from, to)
        invariant forall k :: 0 <= k < LINES ==>
          lines[k] == if from <= LINE * k < a then Flush(s[k]) else s[k]
      {
        WalkOn(touched, a, to);
        NoWrap(a, to);
        FlushedOneMore(s, lines, from, a);
        FlushLine(a);
        touched := touched + [a];
        a := (a + LINE) % WORD;
      }
      WalkOver(touched, a, to);
      FlushedAll(s, lines, from, a, to);
    }

    method FlushRange(adr: nat, len: nat)
      requires adr < WORD && len < WORD && |lines| == LINES
      requires Ends(adr, len)
      modifies this
      ensures |lines| == LINES
      ensures touched == old(touched) + Visited(adr, len)
      ensures forall k :: 0 <= k < LINES ==> lines[k] == Flushed(old(lines), adr, len, k)
    {
      hide Flush, Walk, Ends;
      if len != 0 {
        FlushEndsExactly(adr, len);
        var end := (adr + len) % WORD;
        FlushLines(adr - adr % LINE, end);
        forall k | 0 <= k < LINES ensures lines[k] == Flushed(old(lines), adr, len, k) {
          WalkHits(AlignDown(adr), end, k);
        }
      }
    }
  }

  lemma FlushedOneMore(s: seq<LineState>, cur: seq<LineState>, from: nat, a: nat)
    requires |s| == |cur| == LINES && a % LINE == 0 && from <= a < WORD
    requires forall k :: 0 <= k < LINES ==> cur[k] == if from <= LINE * k < a then Flush(s[k]) else s[k]
    ensures var next := cur[a / LINE := Flush(cur[a / LINE])];
      forall k :: 0 <= k < LINES ==> next[k] == if from <= LINE * k < a + LINE then Flush(s[k]) else s[k]
  {
    hide Flush;
  }

  /** The last line before address `a` is the last one before `to`. */
  lemma FlushedAll(s: seq<LineState>, cur: seq<LineState>, from: nat, a: nat, to: nat)
    requires |s| == |cur| == LINES && a % LINE == 0 && from <= a && to <= a && (a < to + LINE || a == from)
    requires forall k :: 0 <= k < LINES ==> cur[k] == if from <= LINE * k < a then Flush(s[k]) else s[k]
    ensures forall k :: 0 <= k < LINES ==> cur[k] == if from <= LINE * k < to then Flush(s[k]) else s[k]
  {
    hide Flush;
  }

  lemma NoWrap(a: nat, to: nat)
    requires a % LINE == 0 && a < to <= LAST_LINE
    ensures (a + LINE) % WORD == a + LINE < WORD && (a + LINE) % LINE == 0
  {}

  lemma WalkOn(t: seq<nat>, a: nat, to: nat)
    requires a < to
    ensures t + [a] + Walk(a + LINE, to) == t + Walk(a, to)
  {
    var rest: seq<nat> := Walk(a + LINE, to);
    assert Walk(a, to) == [a] + rest;
    Associate(t, [a], rest);
  }

  lemma WalkOver(t: seq<nat>, a: nat, to: nat)
    requires a >= to
    ensures t + Walk(a, to) == t
  {}

  /** The multiples of 32 from `a` up to below `end`, in order. */
  ghost function Walk(a: nat, end: nat): (w: seq<nat>)
    ensures forall i :: 0 <= i < |w| ==> w[i] == a + LINE * i < end
    ensures a + LINE * |w| >= end
    decreases end - a
  {
    if a < end then [a] + Walk(a + LINE, end) else []
  }

  // ---------- The bytes of a range, which may wrap ----------

  /** Address x is one of the `len` addresses from `adr` on, counted with 32 bits. */
  predicate InRange(adr: nat, len: nat, x: nat) {
    adr <= x < adr + len || adr <= x + WORD < adr + len
  }

  ghost predicate Covered(adr: nat, len: nat, k: nat) {
    forall x: nat :: LINE * k <= x < LINE * k + LINE ==> InRange(adr, len, x)
  }

  ghost predicate Meets(adr: nat, len: nat, k: nat) {
    exists x: nat :: LINE * k <= x < LINE * k + LINE && InRange(adr, len, x)
  }

  /** Covered and met lines by their addresses; a range is shorter than 2^32, so
      its wrapped part never reaches its start. */
  lemma CoveredLines(adr: nat, len: nat, k: nat)
    requires adr < WORD && len < WORD && k < LINES
    ensures Covered(adr, len, k) <==>
      (adr <= LINE * k && LINE * k + LINE <= adr + len) || LINE * k + LINE + WORD <= adr + len
  {
    if Covered(adr, len, k) {
      assert InRange(adr, len, LINE * k) && InRange(adr, len, LINE * k + 31);
      assert LINE * k < adr < LINE * k + LINE ==> InRange(adr, len, adr - 1);
    }
  }

  lemma MetLines(adr: nat, len: nat, k: nat)
    requires adr < WORD && len < WORD && k < LINES
    ensures Meets(adr, len, k) <==>
      len > 0 && ((adr < LINE * k + LINE && LINE * k < adr + len) || LINE * k + WORD < adr + len)
  {
    if len > 0 && adr < LINE * k + LINE && LINE * k < adr + len {
      assert InRange(adr, len, if adr > LINE * k then adr else LINE * k);
    } else if LINE * k + WORD < adr + len {
      assert InRange(adr, len, LINE * k);
    }
  }

  // ---------- What range invalidation preserves ----------

  /** Every byte outside the range keeps the value the processor sees, whatever
      the caches hold. */
  ghost predicate Preserves(adr: nat, len: nat) {
    forall s: seq<LineState>, x: nat ::
      (|s| == LINES && AllCoherent(s) && x < WORD && !InRange(adr, len, x)) ==>
        Value(Invalidated(s, adr, len, x / LINE))[x % LINE] == ByteAt(s, x)
  }

  lemma OutsideKept(s: seq<LineState>, adr: nat, len: nat, x: nat)
    requires |s| == LINES && AllCoherent(s) && x < WORD && !InRange(adr, len, x)
    requires adr < WORD && len < WORD && (len == 0 || adr <= LAST_LINE || adr + len >= WORD)
    ensures Value(Invalidated(s, adr, len, x / LINE)) == Value(s[x / LINE])
  {
    FlushWritesBack(s[x / LINE]);
    if len != 0 {
      OutsideNotDiscarded(adr, len, x);
    }
  }

  lemma OutsideNotDiscarded(adr: nat, len: nat, x: nat)
    requires x < WORD && adr < WORD && len < WORD && !InRange(adr, len, x)
    requires adr <= LAST_LINE || adr + len >= WORD
    ensures !(AlignUp(adr) <= LINE * (x / LINE) < AlignDown((adr + len) % WORD))
  {
    Wrapped(adr, len);
  }

  lemma Wrapped(adr: nat, len: nat)
    requires adr < WORD && len < WORD
    ensures (adr + len) % WORD == if adr + len < WORD then adr + len else adr + len - WORD
  {}

  /** A range that starts in the last line without being aligned makes the start
      address wrap to 0, and the loop then discards every line from there on. */
  lemma DiscardsFromZero(adr: nat, len: nat)
    requires LAST_LINE < adr && 0 < len && adr + len < WORD
    ensures !Preserves(adr, len)
  {
    var s := Dirty();
    assert AlignUp(adr) == 0 && AlignDown(adr + len) == LAST_LINE;
    assert !OnEdge(adr, adr + len, 0);
    assert Invalidated(s, adr, len, 0) == Discard(s[0]);
    assert Value(Invalidated(s, adr, len, 0 / LINE))[0 % LINE] != ByteAt(s, 0);
  }

  /** Every line dirty in the first level, with other data than memory. */
  ghost function Dirty(): (s: seq<LineState>)
    ensures |s| == LINES && AllCoherent(s)
    ensures forall k :: 0 <= k < LINES ==> Value(s[k]) != s[k].mem && Value(s[k])[0] != s[k].mem[0]
    ensures forall k :: 0 <= k < LINES ==> s[k].l2.None?
  {
    var zeros: Bytes, ones: Bytes := seq(LINE, _ => 0), seq(LINE, _ => 1);
    assert ones[0] == 1 && zeros[0] == 0;
    var line := LineState(Some(Copy(ones, true)), None, zeros);
    assert Value(line) == ones && Coherent(line);
    seq(LINES, _ => line)
  }

  /** Nothing outside the range is lost exactly when it is empty, or does not start
      inside the last line, or runs past the end of the address space. */
  lemma InvalidatePreservesExactly(adr: nat, len: nat)
    requires adr < WORD && len < WORD
    ensures Preserves(adr, len) <==> len == 0 || adr <= LAST_LINE || adr + len >= WORD
  {
    if len == 0 || adr <= LAST_LINE || adr + len >= WORD {
      forall s: seq<LineState>, x: nat | |s| == LINES && AllCoherent(s) && x < WORD && !InRange(adr, len, x)
        ensures Value(Invalidated(s, adr, len, x / LINE))[x % LINE] == ByteAt(s, x)
      {
        OutsideKept(s, adr, len, x);
      }
    } else {
      DiscardsFromZero(adr, len);
    }
  }

  /** Line k as invalidation should leave it: one inside the range shows memory,
      one that the range meets only partly is written back with its latest value. */
  ghost predicate Exposed(s: seq<LineState>, adr: nat, len: nat, k: nat)
    requires k < |s|
  {
    var s' := Invalidated(s, adr, len, k);
    && (Covered(adr, len, k) ==> Value(s') == s[k].mem == s'.mem)
    && (Meets(adr, len, k) && !Covered(adr, len, k) ==> s' == LineState(None, None, Value(s[k])))
  }

  ghost predicate Exposes(adr: nat, len: nat) {
    forall s: seq<LineState>, k: nat :: |s| == LINES && AllCoherent(s) && k < LINES ==> Exposed(s, adr, len, k)
  }

  /** The lines of the range are treated as they should exactly when it is empty or
      starts in the last line unaligned just when its end wraps around: otherwise
      a range whose end wraps leaves the last line as it is. */
  lemma InvalidateExposesExactly(adr: nat, len: nat)
    requires adr < WORD && len < WORD
    ensures Exposes(adr, len) <==> len == 0 || adr + len < WORD || adr > LAST_LINE
  {
    if len == 0 || adr + len < WORD || adr > LAST_LINE {
      forall s: seq<LineState>, k: nat | |s| == LINES && AllCoherent(s) && k < LINES ensures Exposed(s, adr, len, k) {
        FlushWritesBack(s[k]);
        EdgeOrInside(adr, len, k);
      }
    } else {
      var s, last: nat := Dirty(), LAST_LINE / LINE;
      CoveredLines(adr, len, last);
      Wrapped(adr, len);
      assert Invalidated(s, adr, len, last) == s[last];
      assert !Exposed(s, adr, len, last);
    }
  }

  lemma EdgeOrInside(adr: nat, len: nat, k: nat)
    requires k < LINES && adr < WORD && len < WORD && (len == 0 || adr + len < WORD || adr > LAST_LINE)
    ensures var end := (adr + len) % WORD;
      && (Covered(adr, len, k) ==> len > 0 && AlignUp(adr) <= LINE * k < AlignDown(end) && !OnEdge(adr, end, k))
      && (Meets(adr, len, k) && !Covered(adr, len, k) ==> len > 0 && OnEdge(adr, end, k))
  {
    hide Covered, Meets, AlignDown, OnEdge;
    var end := (adr + len) % WORD;
    CoveredLines(adr, len, k);
    MetLines(adr, len, k);
    Wrapped(adr, len);
    DownHolds(adr);
    DownHolds(end);
    Edges(adr, end, k);
  }

  /** An edge line is one that an end of the range cuts in two. */
  lemma Edges(adr: nat, end: nat, k: nat)
    ensures OnEdge(adr, end, k) <==> LINE * k < adr < LINE * k + LINE || LINE * k < end < LINE * k + LINE
    ensures AlignDown(adr) <= adr < AlignDown(adr) + LINE
    ensures adr % LINE == 0 <==> AlignDown(adr) == adr
  {}

  /** The last line is covered, and stays as it is. */
  lemma LastLineMissed(s: seq<LineState>)
    requires |s| == LINES
    ensures Covered(LAST_LINE, LINE, LINES - 1) && Invalidated(s, LAST_LINE, LINE, LINES - 1) == s[LINES - 1]
  {
    CoveredLines(LAST_LINE, LINE, LINES - 1);
  }

  // ---------- What range flushing visits, and when it ends ----------

  lemma WalkHits(a: nat, end: nat, k: nat)
    requires a % LINE == 0
    ensures LINE * k in Walk(a, end) <==> a <= LINE * k < end
  {
    var w := Walk(a, end);
    if a <= LINE * k < end {
      var i := k - a / LINE;
      assert LINE * i == LINE * k - a;
      assert w[i] == LINE * k;
    }
  }

  /** The line addresses that a call visits, if it ends. */
  ghost function Visited(adr: nat, len: nat): seq<nat> {
    if len == 0 then [] else Walk(AlignDown(adr), (adr + len) % WORD)
  }

  ghost predicate VisitsRange(adr: nat, len: nat) {
    forall k: nat :: k < LINES ==> (LINE * k in Visited(adr, len) <==> Meets(adr, len, k))
  }

  lemma VisitedLines(adr: nat, len: nat, k: nat)
    requires adr < WORD && 0 < len < WORD && k < LINES
    ensures LINE * k in Visited(adr, len) <==> adr < LINE * k + LINE && LINE * k < (adr + len) % WORD
  {
    hide Walk, AlignDown;
    LineMeets(adr, k);
    WalkHits(AlignDown(adr), (adr + len) % WORD, k);
  }

  /** Over all calls: the loop ends and visits exactly the lines that the range
      meets, exactly when the range is empty or ends by 0xFFFFFFE0.  Where the end
      wraps around, the loop ends without having visited the last line. */
  lemma FlushExactly(adr: nat, len: nat)
    requires adr < WORD && len < WORD
    ensures Ends(adr, len) && VisitsRange(adr, len) <==> len == 0 || adr + len <= LAST_LINE
  {
    hide Visited, Meets, Ends;
    FlushEndsExactly(adr, len);
    Wrapped(adr, len);
    if len == 0 || adr + len <= LAST_LINE {
      forall k: nat | k < LINES ensures LINE * k in Visited(adr, len) <==> Meets(adr, len, k) {
        MetLines(adr, len, k);
        if len > 0 {
          VisitedLines(adr, len, k);
        } else {
          NoneVisited(adr, k);
        }
      }
    } else {
      VisitedLines(adr, len, LINES - 1);
      MetLines(adr, len, LINES - 1);
    }
  }

  lemma NoneVisited(adr: nat, k: nat)
    ensures LINE * k !in Visited(adr, 0)
  {}

  /** No line is visited twice, whatever the range. */
  lemma VisitedOnce(adr: nat, len: nat)
    ensures forall i, j :: 0 <= i < j < |Visited(adr, len)| ==> Visited(adr, len)[i] != Visited(adr, len)[j]
  {
    hide Walk, AlignDown;
    WalkAscends(AlignDown(adr), (adr + len) % WORD);
  }

  /** Flushing the last line alone: the loop ends at once, and the line that the
      range covers is not visited. */
  lemma LastLineNotFlushed()
    ensures Ends(LAST_LINE, LINE) && Visited(LAST_LINE, LINE) == []
    ensures Meets(LAST_LINE, LINE, LINES - 1)
  {
    FlushEndsExactly(LAST_LINE, LINE);
    MetLines(LAST_LINE, LINE, LINES - 1);
  }

  /** What a call leaves of line k, if it ends. */
  ghost function Flushed(s: seq<LineState>, adr: nat, len: nat, k: nat): LineState
    requires k < |s|
  {
    if LINE * k in Visited(adr, len) then Flush(s[k]) else s[k]
  }

  /** Every line that the range meets has its latest value in memory and no copy
      left, and no line changes its value, whatever the caches hold. */
  ghost predicate WritesBack(adr: nat, len: nat) {
    forall s: seq<LineState>, k: nat :: |s| == LINES && AllCoherent(s) && k < LINES ==>
      var s' := Flushed(s, adr, len, k);
      Value(s') == Value(s[k]) && (Meets(adr, len, k) ==> s' == LineState(None, None, Value(s[k])))
  }

  lemma WritesBackExactly(adr: nat, len: nat)
    requires adr < WORD && len < WORD
    ensures Ends(adr, len) && WritesBack(adr, len) <==> len == 0 || adr + len <= LAST_LINE
  {
    hide Visited, Meets, Ends, Covered;
    FlushExactly(adr, len);
    if Ends(adr, len) && VisitsRange(adr, len) {
      forall s: seq<LineState>, k: nat | |s| == LINES && AllCoherent(s) && k < LINES
        ensures Flushed(s, adr, len, k) == if Meets(adr, len, k) then LineState(None, None, Value(s[k])) else s[k]
      {
        FlushWritesBack(s[k]);
      }
    } else if Ends(adr, len) {
      FlushEndsExactly(adr, len);
      VisitedLines(adr, len, LINES - 1);
      MetLines(adr, len, LINES - 1);
      Wrapped(adr, len);
      var s := Dirty();
      assert Flushed(s, adr, len, LINES - 1) == s[LINES - 1];
    }
  }

  lemma WalkAscends(a: nat, end: nat)
    ensures forall i, j :: 0 <= i < j < |Walk(a, end)| ==> Walk(a, end)[i] < Walk(a, end)[j]
  {
    var w := Walk(a, end);
    forall i, j | 0 <= i < j < |w| ensures w[i] < w[j] {
      assert w[i] == a + LINE * i && w[j] == a + LINE * j;
    }
  }

  lemma LineMeets(adr: nat, k: nat)
    ensures AlignDown(adr) % LINE == 0
    ensures AlignDown(adr) <= LINE * k <==> adr < LINE * k + LINE
  {}

  /** The address after n rounds of the flush loop, if it is still running. */
  function Round(adr: nat, n: nat): nat {
    (AlignDown(adr) + LINE * n) % WORD
  }

  /** The flush loop reaches an address at which it stops. */
  ghost predicate Ends(adr: nat, len: nat) {
    len == 0 || exists n: nat :: Round(adr, n) >= (adr + len) % WORD
  }

  /** A call of `Xil_DCacheFlushRange` ends exactly when it is for nothing or the
      end address is at most 0xFFFFFFE0: beyond that no line address ever reaches
      it. */
  lemma FlushEndsExactly(adr: nat, len: nat)
    requires adr < WORD && len < WORD
    ensures Ends(adr, len) <==> len == 0 || (adr + len) % WORD <= LAST_LINE
  {
    var end := (adr + len) % WORD;
    if end <= LAST_LINE {
      DownHolds(adr);
      var n := LINES - 1 - adr / LINE;
      assert Round(adr, n) == LAST_LINE % WORD;
    } else {
      forall n: nat ensures Round(adr, n) < end {
        LineAddress(AlignDown(adr) + LINE * n);
      }
    }
  }

  lemma LineAddress(a: nat)
    requires a % LINE == 0
    ensures a % WORD <= LAST_LINE
  {
    assert a % WORD % LINE == 0;
  }

  // ---------- Set and way ----------

  /** The operands for one way. */
  ghost function Row(way: nat, sets: nat): (r: seq<nat>)
    ensures |r| == sets && forall i :: 0 <= i < sets ==> r[i] == way * 0x4000_0000 + i * LINE
  {
    seq(sets, i requires 0 <= i < sets => way * 0x4000_0000 + i * LINE)
  }

  ghost function Rows(ways: nat, sets: nat): seq<nat> {
    if ways == 0 then [] else Rows(ways - 1, sets) + Row(ways - 1, sets)
  }

  function Sets(csid: nat): nat {
    csid / 0x2000 % 0x200 + 1
  }

  /** The loops of `Xil_L1DCacheFlush` and `Xil_L1DCacheInvalidate`: the operands
      they write, for a cache of four ways and lines of 32 bytes. */
  method SetWayOperands(csid: nat) returns (ops: seq<nat>)
    requires csid % 0x400 / 8 == 3 && csid % 8 == 1
    ensures ops == Rows(4, Sets(csid))
    ensures 32 * |ops| == (csid / 0x2000 % 0x200 + 1) * 128
    ensures forall x :: x in ops <==> exists way: nat, i: nat ::
      way < 4 && i <= csid / 0x2000 % 0x200 && x == way * 0x4000_0000 + i * 32
  {
    var cacheSize := (csid / 0x2000 % 0x200 + 1) * 128;
    var numWays := csid % 0x400 / 8 + 1;
    var numSet := cacheSize / numWays / 32;
    var way, set_ := 0, 0;
    ops := [];
    assert Rows(0, numSet) == [];
    for wayIndex := 0 to numWays
      invariant ops == Rows(wayIndex, numSet) && set_ == 0 && way == wayIndex % 4 * 0x4000_0000
    {
      ghost var before := ops;
      for setIndex := 0 to numSet
        invariant set_ == setIndex * LINE
        invariant ops == before + Row(wayIndex, setIndex)
      {
        // Both parts of the operand have no bit in common.
        ops := ops + [way + set_];
        assert Row(wayIndex, setIndex + 1) == Row(wayIndex, setIndex) + [way + set_];
        set_ := (set_ + LINE) % WORD;
      }
      set_ := 0;
      way := (way + 0x4000_0000) % WORD;
    }
    RowsOnce(4, Sets(csid));
    forall x ensures x in ops <==> exists way: nat, i: nat ::
      way < 4 && i <= csid / 0x2000 % 0x200 && x == way * 0x4000_0000 + i * 32
    {
      RowsMembers(4, Sets(csid), x);
    }
  }

  lemma {:induction false} RowsMembers(ways: nat, sets: nat, x: nat)
    requires ways <= 4 && sets <= 0x200
    ensures x in Rows(ways, sets) <==>
      exists way: nat, i: nat :: way < ways && i < sets && x == way * 0x4000_0000 + i * LINE
    decreases ways
  {
    if ways > 0 {
      RowsMembers(ways - 1, sets, x);
      var r := Row(ways - 1, sets);
      if x in r {
        var i :| 0 <= i < |r| && r[i] == x;
        assert x == (ways - 1) * 0x4000_0000 + i * LINE;
      }
      if way: nat, i: nat :| way < ways && i < sets && x == way * 0x4000_0000 + i * LINE {
        if way == ways - 1 {
          assert r[i] == x;
        }
      }
    }
  }

  /** Every operand of a set and a way occurs in the sequence, once. */
  lemma {:induction false} RowsOnce(ways: nat, sets: nat)
    requires ways <= 4 && sets <= 0x200
    ensures |Rows(ways, sets)| == ways * sets
    ensures forall i, j :: 0 <= i < j < |Rows(ways, sets)| ==> Rows(ways, sets)[i] < Rows(ways, sets)[j]
    ensures forall i :: 0 <= i < |Rows(ways, sets)| ==> Rows(ways, sets)[i] < ways * 0x4000_0000
    decreases ways
  {
    if ways > 0 {
      RowsOnce(ways - 1, sets);
    }
  }
}
