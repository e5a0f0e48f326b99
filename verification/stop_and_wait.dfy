/** The stop-and-wait sender (`send_stop_and_wait`): one data packet at a
    time, re-sent until an ACK above its sequence number arrives, then the
    header-only terminal packet and the close confirmation. The socket is
    modelled by the list of events it delivers and the list of datagrams
    handed to it; the clock by `t0` and the `at` of each event. */
module StopAndWait {
  import opened Wire
  import opened Segmenter

  /** How a run ends: the close confirmation was sent; the modelled network
      ran out of events while a packet was unacknowledged; a datagram too
      short to hold a header arrived (the source's `struct.unpack` raises);
      or a sequence number did not fit the header (`struct.pack` raises). */
  datatype SawOutcome = Completed | OutOfEvents | MalformedAck | HeaderOverflow

  /** What a run hands to the socket, the delay recorded for each data
      packet, the index of the event that acknowledged each data packet,
      and how it ended. */
  datatype Trace = Trace(sent: seq<seq<byte>>, delays: seq<int>, acks: seq<nat>, outcome: SawOutcome)

  /** An event that acknowledges the packet with header `seqNum`. */
  predicate Accepts(seqNum: int, ev: Event) {
    ev.Datagram? && |ev.bytes| >= HeaderSize && FromSigned(ev.bytes[..HeaderSize]) > seqNum
  }

  /** An event after which the same packet is sent again: a receive timeout,
      or an ACK at or below `seqNum`. */
  predicate Retries(seqNum: int, ev: Event) {
    ev.Timeout? || (|ev.bytes| >= HeaderSize && FromSigned(ev.bytes[..HeaderSize]) <= seqNum)
  }

  /** A datagram too short for the header. */
  predicate Short(ev: Event) {
    ev.Datagram? && |ev.bytes| < HeaderSize
  }

  /** How the wait for the ACK of `seqNum` that starts at event `pos` ends:
      at the index of the accepting or the short datagram, or with no event
      left. */
  datatype Wait = Acked(index: nat) | Malformed(index: nat) | Starved

  function AwaitFrom(seqNum: int, events: seq<Event>, pos: nat): (w: Wait)
    requires pos <= |events|
    ensures !w.Starved? ==> pos <= w.index < |events|
    decreases |events| - pos
  {
    if pos == |events| then Starved
    else if Short(events[pos]) then Malformed(pos)
    else if Accepts(seqNum, events[pos]) then Acked(pos)
    else AwaitFrom(seqNum, events, pos + 1)
  }

  /** The wait ends at the first event that is not a retry: acknowledged
      exactly when that event accepts, malformed exactly when it is short,
      and starved exactly when every remaining event is a retry. */
  lemma {:induction false} AwaitSpec(seqNum: int, events: seq<Event>, pos: nat)
    requires pos <= |events|
    ensures AwaitFrom(seqNum, events, pos).Starved? ==>
      forall i :: pos <= i < |events| ==> Retries(seqNum, events[i])
    ensures !AwaitFrom(seqNum, events, pos).Starved? ==>
      forall i :: pos <= i < AwaitFrom(seqNum, events, pos).index ==> Retries(seqNum, events[i])
    ensures AwaitFrom(seqNum, events, pos).Acked? ==>
      Accepts(seqNum, events[AwaitFrom(seqNum, events, pos).index])
    ensures AwaitFrom(seqNum, events, pos).Malformed? ==>
      Short(events[AwaitFrom(seqNum, events, pos).index])
    decreases |events| - pos
  {
    if pos < |events| && !Short(events[pos]) && !Accepts(seqNum, events[pos]) {
      AwaitSpec(seqNum, events, pos + 1);
      assert Retries(seqNum, events[pos]);
    }
  }

  /** `n` copies of the packet `p`. */
  function Repeat(p: seq<byte>, n: nat): (r: seq<seq<byte>>)
    ensures |r| == n
  {
    if n == 0 then [] else Repeat(p, n - 1) + [p]
  }

  /** The terminal exchange at header `seqNum`: the bare header, then the
      header followed by `==FINACK==`. */
  function Close(seqNum: int): Trace {
    if IsInt32(seqNum) then
      Trace([Encode(seqNum, []), Encode(seqNum, FinAckMsg)], [], [], Completed)
    else
      Trace([], [], [], HeaderOverflow)
  }

  /** The run from byte `offset` of the data, event `pos`, with the clock at
      `clock`: the data packet at `offset` is sent once per event of its
      wait, and its delay is measured from `clock`, the time before its
      first send. */
  function RunFrom(data: seq<byte>, offset: nat, events: seq<Event>, pos: nat, clock: int): Trace
    requires pos <= |events|
    decreases |data| - offset, 1
  {
    if offset >= |data| then Close(offset)
    else if !IsInt32(offset) then Trace([], [], [], HeaderOverflow)
    else
      var p := Encode(offset, Piece(data, offset));
      match AwaitFrom(offset, events, pos)
      case Starved => Trace(Repeat(p, |events| - pos + 1), [], [], OutOfEvents)
      case Malformed(i) => Trace(Repeat(p, i - pos + 1), [], [], MalformedAck)
      case Acked(i) => AckedRun(data, offset, events, pos, clock, i)
  }

  /** The run from byte `offset` when event `i` acknowledges its packet: the
      packet once per event of the wait, its delay and the ACK's index, in
      front of the run from the next chunk, which starts at event `i + 1`
      with the clock at the time of `i`. */
  function AckedRun(data: seq<byte>, offset: nat, events: seq<Event>, pos: nat, clock: int, i: nat): Trace
    requires offset < |data| && IsInt32(offset) && pos <= i < |events|
    decreases |data| - offset, 0
  {
    var whole := Piece(data, offset);
    var rest := RunFrom(data, offset + |whole|, events, i + 1, events[i].at);
    Trace(Repeat(Encode(offset, whole), i - pos + 1) + rest.sent, [events[i].at - clock] + rest.delays,
          [i] + rest.acks, rest.outcome)
  }

  /** One acknowledged data packet: the run from `offset` records that
      packet's delay and ACK index in front of the run from the next chunk,
      and ends as that run ends; the chunks from `offset` are this chunk in
      front of the next ones. */
  lemma AckedStep(data: seq<byte>, offset: nat, events: seq<Event>, pos: nat, clock: int, i: nat, r: Trace, rest: Trace)
    requires offset < |data| && IsInt32(offset) && pos <= |events|
    requires AwaitFrom(offset, events, pos) == Acked(i)
    requires r == RunFrom(data, offset, events, pos, clock)
    requires rest == RunFrom(data, offset + |Piece(data, offset)|, events, i + 1, events[i].at)
    ensures r.acks == [i] + rest.acks
    ensures r.delays == [events[i].at - clock] + rest.delays
    ensures r.outcome == rest.outcome
    ensures ChunksFrom(data, offset)
      == [Chunk(offset, Piece(data, offset))] + ChunksFrom(data, offset + |Piece(data, offset)|)
  {
  }

  /** A run whose first data packet is not acknowledged records no delay
      and no acknowledging event. */
  lemma UnackedStep(data: seq<byte>, offset: nat, events: seq<Event>, pos: nat, clock: int, r: Trace)
    requires pos <= |events| && r == RunFrom(data, offset, events, pos, clock)
    requires offset >= |data| || !IsInt32(offset) || !AwaitFrom(offset, events, pos).Acked?
    ensures r.acks == [] && r.delays == []
  {
  }

  /** The datagrams of that run: the packet once per event of its wait, in
      front of those of the run from the next chunk. */
  lemma AckedSends(data: seq<byte>, offset: nat, events: seq<Event>, pos: nat, clock: int, i: nat, r: Trace, rest: Trace)
    requires offset < |data| && IsInt32(offset) && pos <= |events|
    requires AwaitFrom(offset, events, pos) == Acked(i)
    requires r == RunFrom(data, offset, events, pos, clock)
    requires rest == RunFrom(data, offset + |Piece(data, offset)|, events, i + 1, events[i].at)
    ensures r.sent == Repeat(Encode(offset, Piece(data, offset)), i - pos + 1) + rest.sent
  {
  }

  /** A run from a chunk that completes: the chunk's packet was acknowledged
      by event `i`, and the run from the next chunk, event `i + 1` and the
      time of `i` completes too. */
  lemma CompletedStep(data: seq<byte>, offset: nat, events: seq<Event>, pos: nat, clock: int, r: Trace)
    returns (i: nat, rest: Trace)
    requires offset < |data| && pos <= |events|
    requires r == RunFrom(data, offset, events, pos, clock) && r.outcome == Completed
    ensures IsInt32(offset) && AwaitFrom(offset, events, pos) == Acked(i) && pos <= i < |events|
    ensures rest == RunFrom(data, offset + |Piece(data, offset)|, events, i + 1, events[i].at)
    ensures rest.outcome == Completed
    ensures r.sent == Repeat(Encode(offset, Piece(data, offset)), i - pos + 1) + rest.sent
    ensures r.acks == [i] + rest.acks && r.delays == [events[i].at - clock] + rest.delays
    ensures ChunksFrom(data, offset)
      == [Chunk(offset, Piece(data, offset))] + ChunksFrom(data, offset + |Piece(data, offset)|)
  {
    i := AwaitFrom(offset, events, pos).index;
    rest := RunFrom(data, offset + |Piece(data, offset)|, events, i + 1, events[i].at);
    AckedStep(data, offset, events, pos, clock, i, r, rest);
    AckedSends(data, offset, events, pos, clock, i, r, rest);
  }

  /** `send_stop_and_wait` on `data`, the events the socket delivers and the
      start time `t0`. */
  function Transmit(data: seq<byte>, events: seq<Event>, t0: int): Trace {
    RunFrom(data, 0, events, 0, t0)
  }

  /** A trace with `sent`, `delays` and `acks` in front of `r`. */
  function Then(sent: seq<seq<byte>>, delays: seq<int>, acks: seq<nat>, r: Trace): Trace {
    Trace(sent + r.sent, delays + r.delays, acks + r.acks, r.outcome)
  }

  /** Each packet of `packets`, in order, sent `counts[i]` times in a row. */
  function Expand(packets: seq<seq<byte>>, counts: seq<nat>): seq<seq<byte>>
    requires |counts| == |packets|
  {
    if packets == [] then [] else Repeat(packets[0], counts[0]) + Expand(packets[1..], counts[1..])
  }

  /** `sent` is `packets` in order, the `i`-th sent `counts[i]` times in a
      row, at least once. */
  ghost predicate RepeatsWith(sent: seq<seq<byte>>, packets: seq<seq<byte>>, counts: seq<nat>) {
    && |counts| == |packets|
    && (forall i :: 0 <= i < |counts| ==> counts[i] >= 1)
    && sent == Expand(packets, counts)
  }

  /** `sent` is `packets` in order, each sent one or more times in a row. */
  ghost predicate RepeatsOf(sent: seq<seq<byte>>, packets: seq<seq<byte>>) {
    exists counts: seq<nat> :: RepeatsWith(sent, packets, counts)
  }

  /** Sending a packet one or more times in front of a repeated sequence
      gives a repeated sequence. */
  lemma RepeatsCons(p: seq<byte>, n: nat, sent: seq<seq<byte>>, packets: seq<seq<byte>>, counts: seq<nat>)
    requires n >= 1 && RepeatsWith(sent, packets, counts)
    ensures RepeatsWith(Repeat(p, n) + sent, [p] + packets, [n] + counts)
  {
    var all: seq<nat> := [n] + counts;
    assert ([p] + packets)[1..] == packets;
    assert all[1..] == counts;
    assert forall i :: 0 < i < |all| ==> all[i] == counts[i - 1];
  }

  /** The acknowledging events lie in `[lo, hi)`, in increasing order. */
  ghost predicate AckOrder(acks: seq<nat>, lo: nat, hi: nat) {
    && (forall k :: 0 <= k < |acks| ==> lo <= acks[k] < hi)
    && (forall k :: 0 < k < |acks| ==> acks[k - 1] < acks[k])
  }

  lemma AckOrderCons(i: nat, acks: seq<nat>, lo: nat, hi: nat)
    requires lo <= i < hi && AckOrder(acks, i + 1, hi)
    ensures AckOrder([i] + acks, lo, hi)
  {
    var all := [i] + acks;
    assert forall k :: 0 < k < |all| ==> all[k] == acks[k - 1];
  }

  /** One delay per acknowledging event, each the time of its ACK minus the
      time of the previous ACK, or minus `clock` for the first. */
  ghost predicate Measured(delays: seq<int>, acks: seq<nat>, events: seq<Event>, clock: int) {
    && |delays| == |acks|
    && (forall k :: 0 <= k < |acks| ==> acks[k] < |events|)
    && (|acks| > 0 ==> delays[0] == events[acks[0]].at - clock)
    && (forall k :: 0 < k < |acks| ==> delays[k] == events[acks[k]].at - events[acks[k - 1]].at)
  }

  lemma MeasuredCons(i: nat, delays: seq<int>, acks: seq<nat>, events: seq<Event>, clock: int)
    requires i < |events| && Measured(delays, acks, events, events[i].at)
    ensures Measured([events[i].at - clock] + delays, [i] + acks, events, clock)
  {
    var all, ds := [i] + acks, [events[i].at - clock] + delays;
    assert forall k :: 0 < k < |all| ==> all[k] == acks[k - 1] && ds[k] == delays[k - 1];
  }

  /** Each acknowledging event carries an ACK above its chunk's offset. */
  ghost predicate AcceptsChunks(cs: seq<Chunk>, acks: seq<nat>, events: seq<Event>) {
    && |acks| <= |cs|
    && forall k :: 0 <= k < |acks| ==> acks[k] < |events| && Accepts(cs[k].offset, events[acks[k]])
  }

  lemma AcceptsCons(c: Chunk, cs: seq<Chunk>, i: nat, acks: seq<nat>, events: seq<Event>)
    requires i < |events| && Accepts(c.offset, events[i]) && AcceptsChunks(cs, acks, events)
    ensures AcceptsChunks([c] + cs, [i] + acks, events)
  {
    var all, chunks := [i] + acks, [c] + cs;
    assert forall k :: 0 < k < |all| ==> all[k] == acks[k - 1] && chunks[k] == cs[k - 1];
  }

  /** Where the wait for the ACK of chunk `k` starts. */
  function WaitStart(acks: seq<nat>, k: nat, pos: nat): nat
    requires k < |acks|
  {
    if k == 0 then pos else acks[k - 1] + 1
  }

  /** Every event of the wait for a chunk's ACK, before the acknowledging
      one, is one after which that chunk's packet is sent again. */
  ghost predicate RetriedUntilAcked(cs: seq<Chunk>, acks: seq<nat>, events: seq<Event>, pos: nat) {
    && |acks| <= |cs|
    && (forall k :: 0 <= k < |acks| ==> acks[k] < |events|)
    && forall k, j {:trigger cs[k], events[j]} ::
         0 <= k < |acks| && WaitStart(acks, k, pos) <= j < acks[k] ==> Retries(cs[k].offset, events[j])
  }

  lemma RetriedCons(c: Chunk, cs: seq<Chunk>, i: nat, acks: seq<nat>, events: seq<Event>, pos: nat)
    requires pos <= i < |events| && forall j :: pos <= j < i ==> Retries(c.offset, events[j])
    requires RetriedUntilAcked(cs, acks, events, i + 1)
    ensures RetriedUntilAcked([c] + cs, [i] + acks, events, pos)
  {
    var all, chunks := [i] + acks, [c] + cs;
    forall k, j {:trigger chunks[k], events[j]} | 0 <= k < |all| && WaitStart(all, k, pos) <= j < all[k]
      ensures Retries(chunks[k].offset, events[j])
    {
      if k > 0 {
        assert all[k] == acks[k - 1] && chunks[k] == cs[k - 1];
        assert WaitStart(all, k, pos) == WaitStart(acks, k - 1, i + 1);
      }
    }
  }

  /** The acknowledging events of a run are in increasing order from `pos`,
      and each delay runs from the previous ACK (or `clock`) to its own, so
      retransmissions do not restart it. */
  lemma {:induction false} RunAcks(data: seq<byte>, offset: nat, events: seq<Event>, pos: nat, clock: int, r: Trace)
    requires offset <= |data| && pos <= |events|
    requires r == RunFrom(data, offset, events, pos, clock)
    ensures AckOrder(r.acks, pos, |events|)
    ensures Measured(r.delays, r.acks, events, clock)
    decreases |data| - offset
  {
    if offset == |data| || !IsInt32(offset) || !AwaitFrom(offset, events, pos).Acked? {
      UnackedStep(data, offset, events, pos, clock, r);
      return;
    }
    var i := AwaitFrom(offset, events, pos).index;
    var next := offset + |Piece(data, offset)|;
    var rest := RunFrom(data, next, events, i + 1, events[i].at);
    AckedStep(data, offset, events, pos, clock, i, r, rest);
    RunAcks(data, next, events, i + 1, events[i].at, rest);
    AckOrderCons(i, rest.acks, pos, |events|);
    MeasuredCons(i, rest.delays, rest.acks, events, clock);
  }

  /** Each acknowledging event of a run carries an ACK above its chunk's
      offset, and every earlier event of the same wait made the sender
      re-send that chunk. */
  lemma {:induction false} RunAcksChunks(data: seq<byte>, offset: nat, events: seq<Event>, pos: nat, clock: int, r: Trace)
    requires offset <= |data| && pos <= |events|
    requires r == RunFrom(data, offset, events, pos, clock)
    ensures AcceptsChunks(ChunksFrom(data, offset), r.acks, events)
    ensures RetriedUntilAcked(ChunksFrom(data, offset), r.acks, events, pos)
    decreases |data| - offset
  {
    if offset == |data| || !IsInt32(offset) || !AwaitFrom(offset, events, pos).Acked? {
      UnackedStep(data, offset, events, pos, clock, r);
      return;
    }
    AwaitSpec(offset, events, pos);
    var i := AwaitFrom(offset, events, pos).index;
    var c := Chunk(offset, Piece(data, offset));
    var next := offset + |Piece(data, offset)|;
    var rest := RunFrom(data, next, events, i + 1, events[i].at);
    AckedStep(data, offset, events, pos, clock, i, r, rest);
    RunAcksChunks(data, next, events, i + 1, events[i].at, rest);
    var tail := ChunksFrom(data, next);
    assert r.acks == [i] + rest.acks && ChunksFrom(data, offset) == [c] + tail;
    AcceptsCons(c, tail, i, rest.acks, events);
    RetriedCons(c, tail, i, rest.acks, events, pos);
  }

  /** A run that completes ends with the bare header of `len(data)` and the
      close confirmation. */
  lemma {:induction false} CompletedEnd(data: seq<byte>, offset: nat, events: seq<Event>, pos: nat, clock: int, r: Trace)
    requires offset <= |data| && pos <= |events|
    requires r == RunFrom(data, offset, events, pos, clock) && r.outcome == Completed
    ensures IsInt32(|data|)
    ensures |r.sent| >= 2 && r.sent[|r.sent| - 2..] == [Encode(|data|, []), Encode(|data|, FinAckMsg)]
    decreases |data| - offset
  {
    if offset < |data| {
      var i, rest := CompletedStep(data, offset, events, pos, clock, r);
      CompletedEnd(data, offset + |Piece(data, offset)|, events, i + 1, events[i].at, rest);
      LastTwo(Repeat(Encode(offset, Piece(data, offset)), i - pos + 1), rest.sent, r.sent);
    }
  }

  /** A run that completes recorded one delay and one acknowledging event
      per chunk. */
  lemma {:induction false} CompletedLengths(data: seq<byte>, offset: nat, events: seq<Event>, pos: nat, clock: int, r: Trace)
    requires offset <= |data| && pos <= |events|
    requires r == RunFrom(data, offset, events, pos, clock) && r.outcome == Completed
    ensures |r.delays| == |r.acks| == |ChunksFrom(data, offset)|
    decreases |data| - offset
  {
    if offset < |data| {
      var i, rest := CompletedStep(data, offset, events, pos, clock, r);
      CompletedLengths(data, offset + |Piece(data, offset)|, events, i + 1, events[i].at, rest);
    }
  }

  /** Before its terminal packets, a run that completes sent, for every
      chunk of the data in offset order, that chunk's packet `counts[k]`
      times in a row, at least once. */
  lemma {:induction false} CompletedCounts(data: seq<byte>, offset: nat, events: seq<Event>, pos: nat, clock: int, r: Trace)
    returns (counts: seq<nat>)
    requires offset <= |data| && pos <= |events|
    requires r == RunFrom(data, offset, events, pos, clock) && r.outcome == Completed
    ensures |r.sent| >= 2 && HeadersFit(ChunksFrom(data, offset))
    ensures RepeatsWith(r.sent[..|r.sent| - 2], ChunkPackets(ChunksFrom(data, offset)), counts)
    decreases |data| - offset
  {
    if offset == |data| {
      counts := [];
      assert r.sent[..|r.sent| - 2] == Expand([], counts);
      return;
    }
    var p := Encode(offset, Piece(data, offset));
    var next := offset + |Piece(data, offset)|;
    var i, rest := CompletedStep(data, offset, events, pos, clock, r);
    var restCounts := CompletedCounts(data, next, events, i + 1, events[i].at, rest);
    var c := Chunk(offset, Piece(data, offset));
    var tail := ChunksFrom(data, next);
    assert ChunksFrom(data, offset) == [c] + tail;
    assert Encode(c.offset, c.payload) == p;
    ChunkPacketsCons(c, tail);
    RepeatsBefore(p, i - pos + 1, rest.sent, ChunkPackets(tail), restCounts, r.sent, ChunkPackets(ChunksFrom(data, offset)));
    counts := [i - pos + 1] + restCounts;
  }

  /** Before its terminal packets, a run that completes sent, for every
      chunk of the data in offset order, that chunk's packet one or more
      times in a row. */
  lemma CompletedSends(data: seq<byte>, events: seq<Event>, t0: int)
    requires Transmit(data, events, t0).outcome == Completed
    ensures var sent := Transmit(data, events, t0).sent;
      |sent| >= 2 && HeadersFit(Chunks(data)) && RepeatsOf(sent[..|sent| - 2], ChunkPackets(Chunks(data)))
  {
    var counts := CompletedCounts(data, 0, events, 0, t0, Transmit(data, events, t0));
  }

  /** Moving the first data packet's sends, delay and ACK index out of a
      trace and onto what was already recorded. */
  lemma ThenStep(sent: seq<seq<byte>>, delays: seq<int>, acks: seq<nat>, copies: seq<seq<byte>>, d: int, i: nat, r: Trace, rest: Trace)
    requires r.sent == copies + rest.sent && r.delays == [d] + rest.delays
    requires r.acks == [i] + rest.acks && r.outcome == rest.outcome
    ensures Then(sent, delays, acks, r) == Then(sent + copies, delays + [d], acks + [i], rest)
  {
    assert sent + r.sent == (sent + copies) + rest.sent;
    assert delays + r.delays == (delays + [d]) + rest.delays;
    assert acks + r.acks == (acks + [i]) + rest.acks;
  }

  /** One pass of the outer loop when the wait ends in an acknowledgement:
      the packet's sends, its delay and the ACK's index move from the run
      onto what was already recorded, and the run continues from the next
      chunk, the next event and the ACK's time. */
  lemma Advance(data: seq<byte>, offset: nat, events: seq<Event>, pos: nat, clock: int,
                sent: seq<seq<byte>>, delays: seq<int>, acks: seq<nat>, copies: seq<seq<byte>>, i: nat)
    requires offset < |data| && IsInt32(offset) && pos <= |events|
    requires AwaitFrom(offset, events, pos) == Acked(i)
    requires copies == Repeat(Encode(offset, Piece(data, offset)), i - pos + 1)
    ensures Then(sent, delays, acks, RunFrom(data, offset, events, pos, clock))
         == Then(sent + copies, delays + [events[i].at - clock], acks + [i],
                 RunFrom(data, offset + |Piece(data, offset)|, events, i + 1, events[i].at))
  {
    var r := RunFrom(data, offset, events, pos, clock);
    var rest := RunFrom(data, offset + |Piece(data, offset)|, events, i + 1, events[i].at);
    AckedStep(data, offset, events, pos, clock, i, r, rest);
    AckedSends(data, offset, events, pos, clock, i, r, rest);
    ThenStep(sent, delays, acks, copies, events[i].at - clock, i, r, rest);
  }

  /** A wait that runs out of events or meets a short datagram ends the run
      with the packet's sends and nothing more recorded. */
  lemma Stop(data: seq<byte>, offset: nat, events: seq<Event>, pos: nat, clock: int,
             sent: seq<seq<byte>>, delays: seq<int>, acks: seq<nat>, copies: seq<seq<byte>>, w: Wait)
    requires offset < |data| && IsInt32(offset) && pos <= |events|
    requires w == AwaitFrom(offset, events, pos) && !w.Acked?
    requires copies == Repeat(Encode(offset, Piece(data, offset)), (if w.Starved? then |events| else w.index) - pos + 1)
    ensures Then(sent, delays, acks, RunFrom(data, offset, events, pos, clock))
         == Trace(sent + copies, delays, acks, if w.Starved? then OutOfEvents else MalformedAck)
  {
    assert delays + [] == delays && acks + [] == acks;
  }

  /** A sequence number that does not fit the header ends the run with
      nothing more sent. */
  lemma Overflow(data: seq<byte>, offset: nat, events: seq<Event>, pos: nat, clock: int,
                 sent: seq<seq<byte>>, delays: seq<int>, acks: seq<nat>)
    requires pos <= |events| && !IsInt32(offset)
    ensures Then(sent, delays, acks, RunFrom(data, offset, events, pos, clock)) == Trace(sent, delays, acks, HeaderOverflow)
  {
    assert sent + [] == sent && delays + [] == delays && acks + [] == acks;
  }

  /** Once every chunk is acknowledged the run ends with the terminal
      exchange at header `len(data)`. */
  lemma Closing(data: seq<byte>, events: seq<Event>, pos: nat, clock: int,
                sent: seq<seq<byte>>, delays: seq<int>, acks: seq<nat>)
    requires pos <= |events| && IsInt32(|data|)
    ensures Then(sent, delays, acks, RunFrom(data, |data|, events, pos, clock))
         == Trace(sent + [Encode(|data|, [])] + [Encode(|data|, FinAckMsg)], delays, acks, Completed)
  {
    assert delays + [] == delays && acks + [] == acks;
  }

  /** Sending a packet one or more times in front of a run whose sends,
      but for its last two, repeat `packets`. */
  lemma RepeatsBefore(p: seq<byte>, n: nat, sent: seq<seq<byte>>, packets: seq<seq<byte>>, counts: seq<nat>,
                      all: seq<seq<byte>>, allPackets: seq<seq<byte>>)
    requires n >= 1 && |sent| >= 2 && RepeatsWith(sent[..|sent| - 2], packets, counts)
    requires all == Repeat(p, n) + sent && allPackets == [p] + packets
    ensures |all| >= 2 && RepeatsWith(all[..|all| - 2], allPackets, [n] + counts)
  {
    DropLastTwo(Repeat(p, n), sent);
    RepeatsCons(p, n, sent[..|sent| - 2], packets, counts);
  }

  lemma LastTwo(a: seq<seq<byte>>, b: seq<seq<byte>>, all: seq<seq<byte>>)
    requires |b| >= 2 && all == a + b
    ensures all[|all| - 2..] == b[|b| - 2..]
  {
  }

  lemma DropLastTwo(a: seq<seq<byte>>, b: seq<seq<byte>>)
    requires |b| >= 2
    ensures (a + b)[..|a + b| - 2] == a + b[..|b| - 2]
  {
  }

  /** An empty file sends only the bare header 0 and the close confirmation
      with header 0, whatever the network does. */
  lemma EmptyFile(events: seq<Event>, t0: int)
    ensures Transmit([], events, t0) == Trace([Encode(0, []), Encode(0, FinAckMsg)], [], [], Completed)
  {
    assert IsInt32(0);
  }

  /** The inner loop of `send_stop_and_wait`: send `packet`, then receive;
      again after a timeout or an ACK at or below `seqNum`. `copies` are the
      datagrams sent and `next` the first event not consumed. */
  method ResendUntilAcked(seqNum: int, packet: seq<byte>, events: seq<Event>, pos: nat)
    returns (copies: seq<seq<byte>>, next: nat, w: Wait)
    requires pos <= |events|
    ensures w == AwaitFrom(seqNum, events, pos)
    ensures w.Starved? ==> next == |events| && copies == Repeat(packet, |events| - pos + 1)
    ensures !w.Starved? ==> next == w.index + 1 && copies == Repeat(packet, w.index - pos + 1)
  {
    var acked := false;
    next := pos;
    copies := [];
    while !acked
      invariant pos <= next <= |events|
      invariant copies == Repeat(packet, next - pos)
      invariant !acked ==> AwaitFrom(seqNum, events, next) == AwaitFrom(seqNum, events, pos)
      invariant acked ==> pos < next && AwaitFrom(seqNum, events, pos) == Acked(next - 1)
      decreases |events| - next
    {
      copies := copies + [packet];
      if next == |events| {
        return copies, next, Starved;
      }
      var ev := events[next];
      next := next + 1;
      match ev
      case Timeout(_) =>
      case Datagram(_, bytes) =>
        if |bytes| < HeaderSize {
          return copies, next, Malformed(next - 1);
        }
        var ackSeq := FromSigned(bytes[..HeaderSize]);
        if ackSeq > seqNum {
          acked := true;
        }
    }
    w := Acked(next - 1);
  }

  /** One pass of the outer loop of `send_stop_and_wait` for the chunk at
      `offset`, appending to what the run recorded so far: the packet is
      built (or the header overflows), sent until an ACK above `offset`
      arrives, and its delay recorded. `stopped` is the outcome of a run that
      ends in this pass; otherwise the run goes on from the next chunk, event
      `next` and the clock `now`. */
  method SendChunk(data: seq<byte>, offset: nat, events: seq<Event>, pos: nat, clock: int,
                   sent: seq<seq<byte>>, delays: seq<int>, acks: seq<nat>)
    returns (sent': seq<seq<byte>>, delays': seq<int>, acks': seq<nat>, next: nat, now: int, stopped: Option<SawOutcome>)
    requires offset < |data| && pos <= |events|
    ensures next <= |events|
    ensures stopped.Some? ==>
      && stopped.value != Completed
      && Trace(sent', delays', acks', stopped.value) == Then(sent, delays, acks, RunFrom(data, offset, events, pos, clock))
    ensures stopped.None? ==>
      Then(sent', delays', acks', RunFrom(data, offset + |Piece(data, offset)|, events, next, now))
      == Then(sent, delays, acks, RunFrom(data, offset, events, pos, clock))
  {
    var seqNum := offset;
    var whole := Piece(data, offset);
    if !IsInt32(seqNum) {
      Overflow(data, offset, events, pos, clock, sent, delays, acks);
      return sent, delays, acks, pos, clock, Some(HeaderOverflow);
    }
    var packet := Encode(seqNum, whole);
    var packetStart := clock;
    var copies, w;
    copies, next, w := ResendUntilAcked(seqNum, packet, events, pos);
    if !w.Acked? {
      Stop(data, offset, events, pos, clock, sent, delays, acks, copies, w);
      return sent + copies, delays, acks, next, clock, Some(if w.Starved? then OutOfEvents else MalformedAck);
    }
    Advance(data, offset, events, pos, clock, sent, delays, acks, copies, w.index);
    now := events[w.index].at;
    sent', delays', acks' := sent + copies, delays + [now - packetStart], acks + [w.index];
    stopped := None;
  }

  /** The outer loop of `send_stop_and_wait`: `seqNum` and `offset` advance
      together, one chunk per pass. `stopped` is the outcome of a run that
      ended inside the loop; otherwise the run goes on with the terminal
      exchange at event `pos` and the clock `clock`. */
  method SendChunks(data: seq<byte>, events: seq<Event>, t0: int)
    returns (sent: seq<seq<byte>>, delays: seq<int>, acks: seq<nat>, pos: nat, clock: int, stopped: Option<SawOutcome>)
    ensures pos <= |events|
    ensures stopped.Some? ==> stopped.value != Completed && Trace(sent, delays, acks, stopped.value) == Transmit(data, events, t0)
    ensures stopped.None? ==> Then(sent, delays, acks, RunFrom(data, |data|, events, pos, clock)) == Transmit(data, events, t0)
  {
    var seqNum, offset := 0, 0;
    clock := t0;
    pos := 0;
    sent, delays, acks := [], [], [];
    ghost var target := Transmit(data, events, t0);
    while offset < |data|
      invariant seqNum == offset <= |data| && pos <= |events|
      invariant Then(sent, delays, acks, RunFrom(data, offset, events, pos, clock)) == target
      decreases |data| - offset
    {
      var step := |Piece(data, offset)|;
      sent, delays, acks, pos, clock, stopped := SendChunk(data, offset, events, pos, clock, sent, delays, acks);
      if stopped.Some? {
        return;
      }
      seqNum := seqNum + step;
      offset := offset + step;
    }
    stopped := None;
  }

  /** `send_stop_and_wait`: the data packets one at a time, then the bare
      header, one receive that waits for the receiver's final ACK (whatever
      arrives, or nothing), and the close confirmation. */
  method SendStopAndWait(data: seq<byte>, events: seq<Event>, t0: int)
    returns (sent: seq<seq<byte>>, delays: seq<int>, acks: seq<nat>, outcome: SawOutcome)
    ensures Trace(sent, delays, acks, outcome) == Transmit(data, events, t0)
    ensures outcome == Completed ==>
      && IsInt32(|data|)
      && |sent| >= 2 && sent[|sent| - 2..] == [Encode(|data|, []), Encode(|data|, FinAckMsg)]
      && |delays| == |Chunks(data)|
  {
    var pos, clock, stopped;
    sent, delays, acks, pos, clock, stopped := SendChunks(data, events, t0);
    if stopped.Some? {
      return sent, delays, acks, stopped.value;
    }
    var seqNum := |data|;
    if !IsInt32(seqNum) {
      Overflow(data, seqNum, events, pos, clock, sent, delays, acks);
      return sent, delays, acks, HeaderOverflow;
    }
    Closing(data, events, pos, clock, sent, delays, acks);
    sent := sent + [Encode(seqNum, [])];
    if pos < |events| {
      pos := pos + 1;
    }
    sent := sent + [Encode(seqNum, FinAckMsg)];
    outcome := Completed;
    CompletedEnd(data, 0, events, 0, t0, Transmit(data, events, t0));
    CompletedLengths(data, 0, events, 0, t0, Transmit(data, events, t0));
  }
}
