/** The sliding-window sender (`FixedWindowSender`): its fields are updated
    in place by `send_packet`, `receive_acks` and `check_timeouts`, and
    `send_file` drives them. The socket is modelled by `inbox` (what it will
    deliver) and `sent` (what was handed to it); the clock by `now`, set by
    each event. Every method is proved to follow the matching function of
    WindowSpec. */
module SlidingWindow {
  import opened Wire
  import opened Segmenter
  import opened WindowSpec

  /** The scan of `receive_acks` over the window's keys, in iteration
      order: every key below `ack` is deleted and gives one delay sample,
      `now` less its send time; the keys at or above `ack` stay, in order. */
  method ScanAck(keys: seq<int>, entries: map<int, Entry>, ack: int, now: int)
    returns (w: map<int, Entry>, samples: seq<int>, kept: seq<int>)
    requires WellFormed(keys, entries)
    ensures w == Prune(entries, ack)
    ensures kept == AtOrAbove(keys, ack)
    ensures samples == Samples(keys, entries, ack, now)
  {
    w := entries;
    samples := [];
    kept := [];
    var i := 0;
    while i < |keys|
      invariant 0 <= i <= |keys|
      invariant forall k :: k in keys[..i] ==> k in entries
      invariant kept == AtOrAbove(keys[..i], ack)
      invariant samples == Samples(keys[..i], entries, ack, now)
      invariant w == Retire(entries, keys[..i], ack)
    {
      AckScanStep(keys, entries, ack, now, i);
      var k := keys[i];
      assert keys[..i + 1] == keys[..i] + [k];
      AtOrAboveSnoc(keys[..i], k, ack);
      RetireSnoc(entries, keys[..i], k, ack);
      if k < ack {
        samples := samples + [now - entries[k].sentAt];
        w := w - {k};
      } else {
        kept := kept + [k];
      }
      i := i + 1;
    }
    assert keys[..i] == keys;
    RetireAll(entries, keys, ack);
  }

  class FixedWindowSender {
    const windowSize: int
    var base: int
    var nextSeq: int
    var window: map<int, Entry>
    var order: seq<int>
    var packetDelays: seq<int>
    var sent: seq<seq<byte>>
    var inbox: seq<Event>
    var now: int

    ghost predicate Valid()
      reads this
    {
      WellFormed(order, window)
    }

    function State(): Session
      reads this
    {
      Session(base, nextSeq, window, order, packetDelays, sent, inbox, now)
    }

    constructor (windowSize: int, inbox: seq<Event>, now: int)
      ensures Valid() && this.windowSize == windowSize
      ensures State() == Session(0, 0, map[], [], [], [], inbox, now)
    {
      this.windowSize := windowSize;
      base, nextSeq := 0, 0;
      window, order := map[], [];
      packetDelays, sent := [], [];
      this.inbox, this.now := inbox, now;
    }

    /** `send_packet`. When the sequence number does not fit the header the
        source raises before anything is sent or recorded. */
    method SendPacket(seqId: int, data: seq<byte>) returns (ok: bool)
      requires Valid()
      modifies this
      ensures Valid()
      ensures ok == IsInt32(seqId)
      ensures ok ==> State() == SendStep(old(State()), seqId, data)
      ensures !ok ==> State() == old(State())
    {
      var packet := CreatePacket(seqId, data);
      if packet.None? {
        return false;
      }
      sent := sent + [packet.value];
      if seqId !in window {
        order := order + [seqId];
      }
      window := window[seqId := Entry(data, now)];
      nextSeq := seqId + |data|;
      ok := true;
      SendStepEffect(old(State()), seqId, data);
    }

    /** The body of `receive_acks` for one non-`fin` ACK: retire, in the
        window's iteration order, every entry below the ACK with one delay
        sample each, then set `base`. */
    method ApplyAck(ack: int)
      requires Valid()
      modifies this
      ensures Valid()
      ensures State() == AckStep(old(State()), ack)
    {
      AckKeepsValid(State(), ack);
      var w, samples, kept := ScanAck(order, window, ack, now);
      window, packetDelays, order, base := w, packetDelays + samples, kept, ack;
    }

    /** `receive_acks`: read events until the socket times out, a `fin` ACK
        arrives, or the modelled network has nothing more. */
    method ReceiveAcks() returns (r: AckResult)
      requires Valid()
      modifies this
      ensures Valid()
      ensures (r, State()) == Drain(old(State()))
      ensures r != Exhausted ==> |inbox| < |old(inbox)|
      ensures sent == old(sent)
    {
      DrainAccounting(State());
      while true
        invariant Valid()
        invariant Drain(State()) == Drain(old(State()))
        decreases |inbox|
      {
        if inbox == [] {
          return Exhausted;
        }
        var ev := inbox[0];
        inbox := inbox[1..];
        now := ev.at;
        match ev
        case Timeout(_) =>
          return Quiet;
        case Datagram(_, bytes) =>
          var (ackSeq, ackMsg) := ParseAck(bytes);
          if ackMsg == FinMsg {
            return Fin;
          }
          ApplyAck(ackSeq);
      }
    }

    /** `check_timeouts`: re-send, in iteration order, every entry older
        than the threshold, with its original sequence number and data;
        nothing but the sent log changes. */
    method CheckTimeouts()
      requires Valid()
      modifies this
      ensures Valid()
      ensures State() == TimeoutStep(old(State()))
      ensures inbox == old(inbox)
    {
      var keys, entries, currentTime := order, window, now;
      assert WellFormed(keys, entries);
      var resent := [];
      var i := 0;
      while i < |keys|
        invariant 0 <= i <= |keys|
        invariant forall k :: k in keys[..i] ==> k in entries && IsInt32(k)
        invariant resent == Resends(keys[..i], entries, currentTime)
        modifies {}
      {
        ResendsStep(keys, entries, currentTime, i);
        var k := keys[i];
        var entry := entries[k];
        if currentTime - entry.sentAt > RetransmitAfter {
          resent := resent + [Encode(k, entry.data)];
        }
        i := i + 1;
      }
      assert keys[..i] == keys;
      sent := sent + resent;
    }

    /** One pass of the fill loop's body for a chunk inside the window edge
        `limit`: send the chunk at `next`, which extends the chunks sent since
        `start` by that chunk. */
    method FillOne(chunks: seq<Chunk>, chunkIndex: nat, next: nat, limit: int, ghost start: Session) returns (ok: bool)
      requires Valid() && chunkIndex <= next < |chunks| && chunks[next].offset < limit
      requires forall i :: chunkIndex <= i < next ==> IsInt32(chunks[i].offset) && chunks[i].offset < limit
      requires HeadersFit(chunks[chunkIndex..next]) && State() == SendAll(start, chunks[chunkIndex..next])
      modifies this
      ensures Valid() && inbox == old(inbox)
      ensures ok == IsInt32(chunks[next].offset)
      ensures ok ==> forall i :: chunkIndex <= i < next + 1 ==> IsInt32(chunks[i].offset) && chunks[i].offset < limit
      ensures ok ==> HeadersFit(chunks[chunkIndex..next + 1]) && State() == SendAll(start, chunks[chunkIndex..next + 1])
      ensures !ok ==> State() == old(State())
    {
      var c := chunks[next];
      ghost var before := State();
      ok := SendPacket(c.offset, c.payload);
      if ok {
        SendAllNext(start, chunks, chunkIndex, next, before, State());
      }
    }

    /** The fill loop of `send_file`: send chunks in index order from
        `chunkIndex` while their offset is below `base + window_size * 1020`. */
    method Fill(chunks: seq<Chunk>, chunkIndex: nat) returns (next: nat, ok: bool)
      requires Valid() && chunkIndex <= |chunks|
      modifies this
      ensures Valid()
      ensures chunkIndex <= next <= |chunks|
      ensures forall i :: chunkIndex <= i < next ==>
        IsInt32(chunks[i].offset) && chunks[i].offset < old(base) + windowSize * ChunkSize
      ensures ok ==> next == |chunks| || chunks[next].offset >= old(base) + windowSize * ChunkSize
      ensures !ok ==> next < |chunks| && !IsInt32(chunks[next].offset)
      ensures !ok ==> chunks[next].offset < old(base) + windowSize * ChunkSize
      ensures next == FillEnd(chunks, chunkIndex, old(base) + windowSize * ChunkSize)
      ensures State() == SendAll(old(State()), chunks[chunkIndex..next])
      ensures inbox == old(inbox)
    {
      var limit := base + windowSize * ChunkSize;
      ghost var start := State();
      next := chunkIndex;
      while next < |chunks|
        invariant chunkIndex <= next <= |chunks|
        invariant forall i :: chunkIndex <= i < next ==> IsInt32(chunks[i].offset) && chunks[i].offset < limit
        invariant HeadersFit(chunks[chunkIndex..next])
        invariant Valid() && State() == SendAll(start, chunks[chunkIndex..next])
        invariant inbox == old(inbox)
        invariant FillEnd(chunks, next, limit) == FillEnd(chunks, chunkIndex, limit)
      {
        if chunks[next].offset >= limit {
          break;
        }
        ok := FillOne(chunks, chunkIndex, next, limit, start);
        if !ok {
          return;
        }
        next := next + 1;
      }
      ok := true;
    }

    /** The retransmit step of the terminal wait: after more than a second
        since the last retransmission, re-send the empty terminal packet, but
        only while `fileSize` is still a key of the window; re-sending it
        refreshes its send time. */
    method RetransmitTerminal(fileSize: int, lastRetransmit: int) returns (last: int)
      requires Valid() && IsInt32(fileSize)
      modifies this
      ensures Valid()
      ensures now - lastRetransmit > RetransmitAfter && fileSize in old(window) ==>
        State() == SendStep(old(State()), fileSize, []) && last == now &&
        window[fileSize] == Entry([], now)
      ensures !(now - lastRetransmit > RetransmitAfter && fileSize in old(window)) ==>
        State() == old(State()) && last == lastRetransmit
      ensures (last, State()) == Retransmit(old(State()), fileSize, lastRetransmit)
    {
      last := lastRetransmit;
      if now - lastRetransmit > RetransmitAfter {
        if fileSize in window {
          var ok := SendPacket(fileSize, []);
          last := now;
        }
      }
    }

    /** One round of the main loop of `send_file`: fill, drain, and scan
        for timeouts. Either the loop ends in this round (`stop`, with its
        result) or it goes on from chunk `next` after the network delivered
        at least one event. */
    method Round(chunks: seq<Chunk>, chunkIndex: nat) returns (next: nat, stop: bool, done: bool, failure: Outcome)
      requires Valid() && chunkIndex < |chunks|
      modifies this
      ensures Valid() && next <= |chunks|
      ensures stop ==> LoopEnd(done, failure, next, State()) == MainLoop(old(State()), windowSize, chunks, chunkIndex)
      ensures !stop ==> |inbox| < |old(inbox)|
      ensures !stop ==> MainLoop(State(), windowSize, chunks, next) == MainLoop(old(State()), windowSize, chunks, chunkIndex)
    {
      ghost var s := State();
      ghost var fillEnd, s1 := MainLoopFill(s, windowSize, chunks, chunkIndex);
      var ok;
      next, ok := Fill(chunks, chunkIndex);
      assert next == fillEnd && State() == s1;
      if !ok {
        assert MainLoop(s, windowSize, chunks, chunkIndex) == LoopEnd(false, HeaderOverflow, next, s1);
        return next, true, false, HeaderOverflow;
      }
      assert MainLoop(s, windowSize, chunks, chunkIndex) == AfterFill(s1, windowSize, chunks, next);
      ghost var ack, s2 := AfterFillStep(s1, windowSize, chunks, next);
      var r := ReceiveAcks();
      assert r == ack && State() == s2;
      if r == Fin {
        return next, true, true, Closed;
      }
      if r == Exhausted {
        return next, true, false, OutOfEvents;
      }
      CheckTimeouts();
      assert State() == TimeoutStep(s2);
      stop, done, failure := false, false, Closed;
    }

    /** The main loop of `send_file`: rounds of fill, drain and timeout
        scan until every chunk is sent or a `fin` arrives (`done`), or a
        header overflow or the end of the modelled network stops it. It runs
        as MainLoop says, so what it sends, and under which window edge, is
        what MainLoopSends and MainLoopEdges state. */
    method Transfer(chunks: seq<Chunk>) returns (done: bool, failure: Outcome, chunkIndex: nat)
      requires Valid()
      modifies this
      ensures Valid()
      ensures LoopEnd(done, failure, chunkIndex, State()) == MainLoop(old(State()), windowSize, chunks, 0)
    {
      chunkIndex := 0;
      while chunkIndex < |chunks|
        invariant Valid() && chunkIndex <= |chunks|
        invariant MainLoop(State(), windowSize, chunks, chunkIndex) == MainLoop(old(State()), windowSize, chunks, 0)
        decreases |inbox|
      {
        var stop;
        chunkIndex, stop, done, failure := Round(chunks, chunkIndex);
        if stop {
          return;
        }
      }
      done, failure := true, Closed;
    }

    /** `send_file` on the bytes of the file: chunk it, run the main loop,
        then send the empty terminal packet, wait for `fin` and send the
        close confirmation. */
    method SendFile(fileData: seq<byte>) returns (outcome: Outcome)
      requires Valid()
      modifies this
      ensures Valid()
      ensures (outcome, State()) == Transmission(old(State()), windowSize, fileData)
      ensures outcome == HeaderOverflow ==> |fileData| > MaxInt32
      ensures outcome == Closed ==>
        && IsInt32(|fileData|)
        && Encode(|fileData|, []) in sent
        && sent[|sent| - 1] == Encode(0, FinAckMsg)
    {
      TransmissionEffect(State(), windowSize, fileData);
      var chunks := Segment(fileData);
      var done, chunkIndex;
      done, outcome, chunkIndex := Transfer(chunks);
      if !done {
        return;
      }
      outcome := Finish(|fileData|);
    }

    /** The end of `send_file`: send the empty terminal packet at
        `fileSize`, wait up to ten seconds for `fin` while re-sending the
        terminal packet as RetransmitTerminal says, then send the close
        confirmation, a header of 0 followed by `==FINACK==`. */
    method Finish(fileSize: int) returns (outcome: Outcome)
      requires Valid()
      modifies this
      ensures Valid()
      ensures (outcome, State()) == Shutdown(old(State()), fileSize)
      ensures outcome != OutOfEvents
      ensures outcome == HeaderOverflow <==> !IsInt32(fileSize)
      ensures outcome == Closed ==>
        && Encode(fileSize, []) in sent
        && sent[|sent| - 1] == Encode(0, FinAckMsg)
    {
      ShutdownEffect(State(), fileSize);
      var ok := SendPacket(fileSize, []);
      if !ok {
        return HeaderOverflow;
      }
      ghost var start := State();
      var finStart := now;
      var lastRetransmit := now;
      while now - finStart < FinishWait
        invariant Valid()
        invariant FinWait(State(), fileSize, finStart, lastRetransmit) == FinWait(start, fileSize, finStart, finStart)
        decreases |inbox|
      {
        DrainAccounting(State());
        var r := ReceiveAcks();
        if r != Quiet {
          break;
        }
        lastRetransmit := RetransmitTerminal(fileSize, lastRetransmit);
      }
      sent := sent + [Encode(0, FinAckMsg)];
      outcome := Closed;
    }
  }
}
