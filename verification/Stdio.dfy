/** The output path of the firmware: single characters are collected into chunks,
    and data is written to Linux in messages and to the trace buffer. */
module Stdio {
  import opened Common
  import opened RingProtocol
  import opened Remoteproc

  const NEWLINE: byte := 10
  const FLUSH_AT := DATA_LEN_MAX - 2
  const CHUNK := DATA_LEN_MAX - 1
  const SIZE_RANGE := 0x1_0000_0000

  const STDOUT := 1
  const STDERR := 2
  const TRACE_ONLY := 3

  function Concat(parts: seq<seq<byte>>): seq<byte> {
    if parts == [] then [] else Concat(parts[..|parts| - 1]) + parts[|parts| - 1]
  }

  lemma ConcatAppend(parts: seq<seq<byte>>, x: seq<byte>)
    ensures Concat(parts + [x]) == Concat(parts) + x
  {
    assert (parts + [x])[..|parts|] == parts;
  }

  /** An int in the comparison with a size_t. */
  function AsSize(x: int): nat { x % SIZE_RANGE }

  predicate Fits(size: int, ind: int, len: nat) {
    AsSize(size - ind) > len
  }

  /** The test that guards the copy to the trace buffer keeps it inside for every
      length exactly when the write position is within the size. */
  lemma TraceGuardExact(size: int, ind: int)
    requires -0x8000_0000 <= size - ind < 0x8000_0000
    ensures ind <= size <==>
      forall len: nat :: Fits(size, ind, len) ==> ind + len < size
  {
    if size < ind {
      assert Fits(size, ind, 0);
    }
  }

  /** One call of `_write`. */
  datatype Call = Call(fd: nat, data: seq<byte>)

  /** What the trace buffer holds after these calls: the data, in order, of those
      for which room was left when they came, with one byte to spare. */
  ghost function Traced(log: seq<Call>, size: nat): seq<byte> {
    if log == [] then []
    else
      var before, c := Traced(log[..|log| - 1], size), log[|log| - 1];
      if 1 <= c.fd <= 3 && |before| + |c.data| < size then before + c.data else before
  }

  lemma TracedAppend(log: seq<Call>, c: Call, size: nat)
    ensures Traced(log + [c], size) ==
      Traced(log, size) + if 1 <= c.fd <= 3 && |Traced(log, size)| + |c.data| < size then c.data else []
  {
    assert (log + [c])[..|log|] == log;
  }

  /** With room for all of them the trace is what was written, put together. */
  lemma {:induction false} TraceComplete(log: seq<Call>, size: nat)
    requires forall i :: 0 <= i < |log| ==> 1 <= log[i].fd <= 3
    requires |Concat(DataOf(log))| < size
    ensures Traced(log, size) == Concat(DataOf(log))
  {
    if log != [] {
      var n := |log| - 1;
      assert DataOf(log)[..n] == DataOf(log[..n]);
      TraceComplete(log[..n], size);
    }
  }

  ghost function DataOf(log: seq<Call>): (d: seq<seq<byte>>)
    ensures |d| == |log| && forall i :: 0 <= i < |log| ==> d[i] == log[i].data
  {
    seq(|log|, i requires 0 <= i < |log| => log[i].data)
  }

  class Console {
    const buf: array<byte>
    const trace: array<byte>
    const hasTrace: bool
    var ind: nat
    var traceInd: nat
    var stdioUp: bool

    /** All characters given to `outbyte`, the chunks it handed on, the messages
        sent to Linux, and all calls of `_write`. */
    ghost var given: seq<byte>
    ghost var chunks: seq<seq<byte>>
    ghost var messages: seq<seq<byte>>
    ghost var log: seq<Call>

    ghost predicate TraceValid()
      reads this, trace
    {
      && traceInd < trace.Length < 0x8000_0000
      && trace[..traceInd] == if hasTrace then Traced(log, trace.Length) else []
    }

    ghost predicate Valid()
      reads this, buf, trace
    {
      && buf.Length == DATA_LEN_MAX && ind < FLUSH_AT
      && TraceValid() && buf != trace
      && Concat(chunks) + buf[..ind] == given
    }

    constructor (trace: array<byte>, hasTrace: bool)
      requires 0 < trace.Length < 0x8000_0000
      ensures Valid() && given == [] && chunks == [] && messages == [] && log == []
      ensures this.trace == trace && this.hasTrace == hasTrace
    {
      this.trace, this.hasTrace := trace, hasTrace;
      buf := new byte[DATA_LEN_MAX];
      ind, traceInd, stdioUp, given, chunks, messages, log := 0, 0, false, [], [], [], [];
    }

    /** `_write`: the result, and what is sent and traced. */
    method Write(fd: nat, data: seq<byte>) returns (done: nat)
      requires TraceValid() && |data| < SIZE_RANGE
      modifies this`messages, this`traceInd, this`log, trace
      ensures TraceValid() && log == old(log) + [Call(fd, data)]
      ensures var linux := fd == STDOUT && stdioUp;
        && Concat(messages) == old(Concat(messages)) + (if linux then data else [])
        && old(messages) <= messages && (!linux ==> messages == old(messages))
        && (forall i :: |old(messages)| <= i < |messages| ==> 0 < |messages[i]| <= CHUNK)
      ensures var traced := 1 <= fd <= 3 && hasTrace && trace.Length - old(traceInd) > |data|;
        && traceInd == old(traceInd) + (if traced then |data| else 0)
        && trace[..traceInd] == old(trace[..traceInd]) + (if traced then data else [])
      ensures done == if 1 <= fd <= 3 && (hasTrace || (fd == STDOUT && stdioUp)) then |data| else 0
    {
      hide Traced;
      TracedAppend(log, Call(fd, data), trace.Length);
      log := log + [Call(fd, data)];
      done := 0;
      if fd == STDOUT {
        if stdioUp {
          done := SendChunks(data);
        }
      }
      if fd == STDOUT || fd == STDERR || fd == TRACE_ONLY {
        if hasTrace {
          TraceGuardExact(trace.Length, traceInd);
          if Fits(trace.Length, traceInd, |data|) {
            forall i | 0 <= i < |data| {
              trace[traceInd + i] := data[i];
            }
            assert trace[..traceInd + |data|] == old(trace[..traceInd]) + data;
            traceInd := traceInd + |data|;
          }
          done := |data|;
        }
      }
    }

    /** The loop over the data for Linux, in messages as big as possible. */
    method SendChunks(data: seq<byte>) returns (done: nat)
      modifies this`messages
      ensures done == |data|
      ensures Concat(messages) == old(Concat(messages)) + data && old(messages) <= messages
      ensures forall i :: |old(messages)| <= i < |messages| ==> 0 < |messages[i]| <= CHUNK
      ensures forall i :: |old(messages)| <= i < |messages| - 1 ==> |messages[i]| == CHUNK
    {
      done := 0;
      while |data| > done
        invariant 0 <= done <= |data|
        invariant Concat(messages) == old(Concat(messages)) + data[..done] && old(messages) <= messages
        invariant forall i :: |old(messages)| <= i < |messages| ==> 0 < |messages[i]| <= CHUNK
        invariant forall i :: |old(messages)| <= i < |messages| ==> done == |data| || |messages[i]| == CHUNK
        invariant forall i :: |old(messages)| <= i < |messages| - 1 ==> |messages[i]| == CHUNK
      {
        var n := |data| - done;
        n := if CHUNK < n then CHUNK else n;
        ConcatAppend(messages, data[done..done + n]);
        assert data[..done + n] == data[..done] + data[done..done + n];
        messages := messages + [data[done..done + n]];
        done := done + n;
      }
      assert data[..done] == data;
    }

    method OutByte(ch: byte)
      requires Valid()
      modifies this`ind, this`given, this`chunks, this`messages, this`traceInd, this`log, buf, trace
      ensures Valid() && given == old(given) + [ch] && messages == old(messages)
      ensures ch == 10 ==> ind == 0 && Concat(chunks) == given
      ensures var text := old(buf[..ind]) + [ch];
        if ch == 10 || |text| == 494 then
          && chunks == old(chunks) + [text] && log == old(log) + [Call(2, text)]
          && trace[..traceInd] == old(trace[..traceInd])
               + (if hasTrace && old(traceInd) + |text| < trace.Length then text else [])
        else
          && chunks == old(chunks) && log == old(log) && buf[..ind] == text
          && trace[..traceInd] == old(trace[..traceInd])
    {
      hide Concat;
      ghost var text := buf[..ind];
      buf[ind] := ch;
      ind := ind + 1;
      given := given + [ch];
      assert buf[..ind] == text + [ch];
      assert Concat(chunks) + buf[..ind] == given;
      if ch == NEWLINE || ind == FLUSH_AT {
        Flush();
      }
    }

    method Flush()
      requires 0 < ind <= FLUSH_AT && buf.Length == DATA_LEN_MAX && buf != trace
      requires TraceValid()
      modifies this`ind, this`chunks, this`messages, this`traceInd, this`log, trace
      ensures ind == 0 && TraceValid() && messages == old(messages)
      ensures log == old(log) + [Call(2, old(buf[..ind]))]
      ensures trace[..traceInd] == old(trace[..traceInd])
        + (if hasTrace && old(traceInd) + old(ind) < trace.Length then old(buf[..ind]) else [])
      ensures chunks == old(chunks) + [old(buf[..ind])] && Concat(chunks) == old(Concat(chunks) + buf[..ind])
    {
      ConcatAppend(chunks, buf[..ind]);
      chunks := chunks + [buf[..ind]];
      var _ := Write(STDERR, buf[..ind]);
      ind := 0;
    }
  }

  /** No message is cut on its way: each fits the payload of one buffer. */
  lemma ChunksFit(src: nat, dst: nat, chunk: seq<byte>)
    requires |chunk| <= CHUNK
    ensures Cut(src, dst, chunk) == Message(src, dst, chunk)
  {}
}
