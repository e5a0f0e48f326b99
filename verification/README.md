# Fixed-window and stop-and-wait UDP senders, modelled in Dafny

This project models the two senders of a reliable byte-stream transfer over
UDP: the fixed sliding-window sender (`FixedWindowSender`) and the
stop-and-wait sender (`send_stop_and_wait`). Both share one wire format. A
datagram is a 4-byte signed big-endian sequence number followed by the
payload, and the sequence number is the byte offset of the payload in the
file.

Modules:

- `Wire` (wire.dfy): the int32 header, packets and their decoding, the
  `fin` and `==FINACK==` tokens, and the events a socket delivers.
  - A socket's receive call is an `Event`: a `Timeout` or a `Datagram`.
  - Each event carries the clock reading, in milliseconds, at which the
    call returns.
- `Segmenter` (segment.dfy): cuts the file into chunks of at most 1020
  bytes, each keyed by its offset.
- `WindowSpec` (window_spec.dfy): the sliding-window sender's fields as a
  `Session` value. It has one function per operation:
  - `SendStep` is `send_packet`;
  - `AckStep` is one cumulative ACK;
  - `Drain` is `receive_acks`;
  - `TimeoutStep` is `check_timeouts`;
  - `SendAll` is the fill loop, and `FillEnd` is where it stops;
  - `MainLoop` is the main loop of `send_file`;
  - `Shutdown` is the terminal packet, the terminal wait (`FinWait`) and
    the close confirmation;
  - `Transmission` is all of `send_file` on the file's bytes.

  The lemmas about these functions state what the sender promises.
- `SlidingWindow` (sliding_window.dfy): the class `FixedWindowSender`.
  - Its fields are updated in place, as in the source.
  - Python's dictionary iteration order is the field `order`.
  - `sent` logs every datagram handed to the socket, and `inbox` holds
    what the socket will deliver.
  - Every method is proved to move `State()` exactly as the matching
    `WindowSpec` function does: `SendPacket` as `SendStep`, `ApplyAck` as
    `AckStep`, `ReceiveAcks` as `Drain`, `CheckTimeouts` as
    `TimeoutStep`, `Fill` as `SendAll` up to `FillEnd`,
    `RetransmitTerminal` as `Retransmit`, `Round` and `Transfer` as
    `MainLoop`, `Finish` as `Shutdown`, and `SendFile` as `Transmission`.
- `StopAndWait` (stop_and_wait.dfy): the `send_stop_and_wait` loops as
  methods.
  - They are proved equal to the pure run `Transmit`.
  - `Transmit` maps the file, the delivered events and the start time to
    what is sent, the delays, the indices of the acknowledging events and
    how the run ends.

A sequence number outside int32 makes the source's `int.to_bytes` or
`struct.pack` raise. The model does not exclude such numbers: they lead to
the outcome `HeaderOverflow`. A datagram shorter than four bytes makes the
stop-and-wait sender's `struct.unpack` raise, and this gives
`MalformedAck`.

A cumulative-ACK sender is usually expected to ignore a stale ACK and to
keep `base` from decreasing. This code does neither: it assigns `base`
unconditionally, and the model follows the code. `WindowSpec.StaleAck`
shows a stale ACK moving `base` backwards.

## Model

| member | source | states |
|---|---|---|
| Wire.Int32ToBytes | docker/sender_fixed_sliding_window_CamilaNinoFrancia_921953126_NavyaGupta_922500277.py:28 | the header of an int32 is four bytes, and its first byte has the top bit set exactly when the number is negative |
| Wire.Int32RoundTrip | docker/sender_fixed_sliding_window_CamilaNinoFrancia_921953126_NavyaGupta_922500277.py:27-29 | reading the four header bytes back as a signed big-endian number gives the sequence number |
| Wire.BytesRoundTrip | docker/sender_fixed_sliding_window_CamilaNinoFrancia_921953126_NavyaGupta_922500277.py:46 | every 4-byte header reads as an int32 whose header is those same bytes |
| Wire.Encode | docker/sender_fixed_sliding_window_CamilaNinoFrancia_921953126_NavyaGupta_922500277.py:27-29 | a packet is `4 + len(data)` bytes long and everything after the header is the data |
| Wire.CreatePacket | docker/sender_fixed_sliding_window_CamilaNinoFrancia_921953126_NavyaGupta_922500277.py:27-29 | a packet is built exactly when the sequence number fits int32; its header reads back as that number and the data follows |
| Wire.Decode | docker/sender_stop_and_wait_CamilaNinoFrancia_921953126_NavyaGupta_922500277.py:40 | a datagram yields a header number exactly when it has four bytes, and encoding that number and the rest gives the datagram back |
| Wire.DecodeEncode | docker/sender_fixed_sliding_window_CamilaNinoFrancia_921953126_NavyaGupta_922500277.py:27-29 | decoding an encoded packet gives back its sequence number and its data |
| Wire.ParseAck | docker/sender_fixed_sliding_window_CamilaNinoFrancia_921953126_NavyaGupta_922500277.py:45-47 | an ACK of four or more bytes parses as `Decode` splits it; a shorter one has an empty message, so it is never `fin` |
| Segmenter.Piece | docker/sender_fixed_sliding_window_CamilaNinoFrancia_921953126_NavyaGupta_922500277.py:92 | a chunk is the slice at its offset, 1020 bytes long or whatever remains of the data if that is less |
| Segmenter.ChunksAreSegmentation | docker/sender_fixed_sliding_window_CamilaNinoFrancia_921953126_NavyaGupta_922500277.py:86-94 | chunks are non-empty slices of at most 1020 bytes; each offset is the sum of the lengths before it; together they are exactly the data; there are none exactly when the data is empty |
| Segmenter.OffsetsIncrease | docker/sender_fixed_sliding_window_CamilaNinoFrancia_921953126_NavyaGupta_922500277.py:86-94 | a later chunk has a strictly larger offset |
| Segmenter.Segment | docker/sender_fixed_sliding_window_CamilaNinoFrancia_921953126_NavyaGupta_922500277.py:87-94 | the chunking loop builds exactly the chunk list, which has every property above |
| WindowSpec.SendStepEffect | docker/sender_fixed_sliding_window_CamilaNinoFrancia_921953126_NavyaGupta_922500277.py:32-36 | after `send_packet`, `window[seq_id]` is `(data, now)` and `next_seq` is `seq_id + len(data)`; every other entry, `base` and the delays are unchanged; one packet that decodes to `seq_id` and data is sent; the window stays well formed |
| WindowSpec.AckRetires | docker/sender_fixed_sliding_window_CamilaNinoFrancia_921953126_NavyaGupta_922500277.py:54-63 | after a non-`fin` ACK `a`, no key is below `a`, every key at or above `a` keeps its entry, and `base == a` |
| WindowSpec.SamplesBelow | docker/sender_fixed_sliding_window_CamilaNinoFrancia_921953126_NavyaGupta_922500277.py:55-60 | the delay samples of one ACK are, one for one and in iteration order, the ages at `now` of the keys below the ACK |
| WindowSpec.AckSamples | docker/sender_fixed_sliding_window_CamilaNinoFrancia_921953126_NavyaGupta_922500277.py:54-60 | a non-`fin` ACK keeps the earlier delay samples and appends exactly one per removed key: the keys below the ACK, each once, in iteration order, each contributing the age of its own entry |
| WindowSpec.StaleAck | docker/sender_fixed_sliding_window_CamilaNinoFrancia_921953126_NavyaGupta_922500277.py:54-63 | an ACK at or below `base`, with nothing outstanding below `base`, removes nothing and records no delay, yet `base` becomes that lower number |
| WindowSpec.RetireAll | docker/sender_fixed_sliding_window_CamilaNinoFrancia_921953126_NavyaGupta_922500277.py:55-60 | once the scan has deleted, key by key, every key below the ACK, the window is the old one less exactly those keys |
| WindowSpec.DrainAccounting | docker/sender_fixed_sliding_window_CamilaNinoFrancia_921953126_NavyaGupta_922500277.py:40-68 | over a whole `receive_acks`, entries are only removed, never altered; exactly one delay is appended per removed entry; nothing is sent; at least one event is consumed unless none was left |
| WindowSpec.DrainBase | docker/sender_fixed_sliding_window_CamilaNinoFrancia_921953126_NavyaGupta_922500277.py:40-68 | `receive_acks` only consumes events from the front of the network, and leaves `base` where it was or at the number of an ACK it consumed |
| WindowSpec.FinLeavesStateAlone | docker/sender_fixed_sliding_window_CamilaNinoFrancia_921953126_NavyaGupta_922500277.py:50-52 | a `fin` ACK ends `receive_acks` with FIN; only the consumed event and the clock change |
| WindowSpec.ResendsExactly | docker/sender_fixed_sliding_window_CamilaNinoFrancia_921953126_NavyaGupta_922500277.py:71-76 | `check_timeouts` sends a packet exactly when it carries the original sequence number and data of an entry older than one second, one per such entry |
| WindowSpec.SendAllEffect | docker/sender_fixed_sliding_window_CamilaNinoFrancia_921953126_NavyaGupta_922500277.py:106-114 | the fill loop sends one packet per chunk, in index order; every chunk sent and every earlier key is in the window; `base`, the delays and the inbox are unchanged; `next_seq` ends past the last chunk sent |
| WindowSpec.WindowEdge | docker/sender_fixed_sliding_window_CamilaNinoFrancia_921953126_NavyaGupta_922500277.py:106-111 | once a chunk is at or past the window's edge, every later chunk is too, so the break skips no chunk inside the window |
| WindowSpec.FillEnd | docker/sender_fixed_sliding_window_CamilaNinoFrancia_921953126_NavyaGupta_922500277.py:106-114 | the fill stops at the end of the list, at the first chunk at or past the window edge, or at the first chunk whose offset does not fit the header; every chunk before that point fits and is inside the edge |
| WindowSpec.MainLoop | docker/sender_fixed_sliding_window_CamilaNinoFrancia_921953126_NavyaGupta_922500277.py:102-122 | the main loop keeps the session well formed, never takes back anything sent, only moves the chunk index forward, is done exactly when it closed, and reports a header overflow at a chunk whose offset does not fit |
| WindowSpec.MainLoopSends | docker/sender_fixed_sliding_window_CamilaNinoFrancia_921953126_NavyaGupta_922500277.py:104-122 | the main loop sends the packets of the chunks it fills, in index order, at increasing positions after everything sent before; re-sends may come between them |
| WindowSpec.MainLoopEdges | docker/sender_fixed_sliding_window_CamilaNinoFrancia_921953126_NavyaGupta_922500277.py:104-122 | each chunk the main loop fills was sent while its offset was below `b + window_size * 1020`, where `b` is the starting `base` or the number of an ACK the network delivered |
| WindowSpec.FinWait | docker/sender_fixed_sliding_window_CamilaNinoFrancia_921953126_NavyaGupta_922500277.py:132-141 | the terminal wait keeps the session well formed and never takes back anything sent |
| WindowSpec.ShutdownEffect | docker/sender_fixed_sliding_window_CamilaNinoFrancia_921953126_NavyaGupta_922500277.py:125-145 | the shutdown never runs out of events; it fails exactly when `file_size` does not fit the header; when it closes, the terminal packet was sent and `==FINACK==` after header 0 is the last datagram |
| WindowSpec.TransmissionEffect | docker/sender_fixed_sliding_window_CamilaNinoFrancia_921953126_NavyaGupta_922500277.py:79-145 | a whole `send_file` fails with a header overflow only when the file is longer than the largest int32; when it closes, `len(data)` fits, its terminal packet was sent and the close confirmation came last |
| SlidingWindow.ScanAck | docker/sender_fixed_sliding_window_CamilaNinoFrancia_921953126_NavyaGupta_922500277.py:55-60 | the scan over the window's keys, in iteration order, leaves exactly the entries at or above the ACK and yields one delay sample per deleted key, in that order |
| SlidingWindow.FixedWindowSender.constructor | docker/sender_fixed_sliding_window_CamilaNinoFrancia_921953126_NavyaGupta_922500277.py:9-24 | a new sender has `base == next_seq == 0`, an empty window, no delays and nothing sent |
| SlidingWindow.FixedWindowSender.SendPacket | docker/sender_fixed_sliding_window_CamilaNinoFrancia_921953126_NavyaGupta_922500277.py:32-36 | when the sequence number fits the header, the fields change as `SendStep` says; otherwise nothing changes and the failure is reported |
| SlidingWindow.FixedWindowSender.ApplyAck | docker/sender_fixed_sliding_window_CamilaNinoFrancia_921953126_NavyaGupta_922500277.py:54-63 | one non-`fin` ACK changes the fields as `AckStep` says |
| SlidingWindow.FixedWindowSender.ReceiveAcks | docker/sender_fixed_sliding_window_CamilaNinoFrancia_921953126_NavyaGupta_922500277.py:40-68 | the result and the new fields are those of `Drain`; nothing is sent; at least one event is consumed unless the result is that none was left |
| SlidingWindow.FixedWindowSender.CheckTimeouts | docker/sender_fixed_sliding_window_CamilaNinoFrancia_921953126_NavyaGupta_922500277.py:71-76 | only the sent log changes, by the re-sends of `TimeoutStep` |
| SlidingWindow.FixedWindowSender.FillOne | docker/sender_fixed_sliding_window_CamilaNinoFrancia_921953126_NavyaGupta_922500277.py:107-114 | sending the chunk at `chunk_index` extends the chunks sent so far by that chunk, or changes nothing when its offset does not fit the header |
| SlidingWindow.FixedWindowSender.Fill | docker/sender_fixed_sliding_window_CamilaNinoFrancia_921953126_NavyaGupta_922500277.py:106-114 | `chunk_index` never decreases; every chunk sent had its offset below `base + window_size * 1020`; the loop stops where `FillEnd` says, at the end, at the first chunk past that edge or at a header overflow; the fields change as `SendAll` over exactly the chunks sent |
| SlidingWindow.FixedWindowSender.RetransmitTerminal | docker/sender_fixed_sliding_window_CamilaNinoFrancia_921953126_NavyaGupta_922500277.py:138-141 | after more than a second, the terminal packet is re-sent only while `file_size` is a window key, and re-sending it refreshes its send time; otherwise nothing changes; the fields and the new `last_retransmit` are those of `Retransmit` |
| SlidingWindow.FixedWindowSender.Round | docker/sender_fixed_sliding_window_CamilaNinoFrancia_921953126_NavyaGupta_922500277.py:106-122 | one round of fill, drain and timeout scan: either the loop stops, with what `MainLoop` gives, or at least one event was consumed and `MainLoop` from the new fields and chunk index gives what it gave before the round |
| SlidingWindow.FixedWindowSender.Transfer | docker/sender_fixed_sliding_window_CamilaNinoFrancia_921953126_NavyaGupta_922500277.py:102-122 | the loop ends with the done flag, the failure, the chunk index and the fields that `MainLoop` gives from the starting fields, so what it sends, and under which window edge, is what `MainLoopSends` and `MainLoopEdges` state |
| SlidingWindow.FixedWindowSender.SendFile | docker/sender_fixed_sliding_window_CamilaNinoFrancia_921953126_NavyaGupta_922500277.py:79-145 | the outcome and the new fields are those of `Transmission` on the file's bytes; a header overflow happens only for a file larger than int32 allows; a closed session sent the bare header of `file_size` and ended with the `==FINACK==` packet |
| SlidingWindow.FixedWindowSender.Finish | docker/sender_fixed_sliding_window_CamilaNinoFrancia_921953126_NavyaGupta_922500277.py:125-145 | the outcome and the new fields are those of `Shutdown`; the terminal packet is sent (or the header overflows, exactly when `file_size` is outside int32), and the last datagram is the header 0 followed by `==FINACK==` |
| StopAndWait.AwaitSpec | docker/sender_stop_and_wait_CamilaNinoFrancia_921953126_NavyaGupta_922500277.py:34-51 | the wait for an ACK ends at the first event that is not a retry; it is acknowledged exactly when that event's ACK exceeds `seq_num`; every earlier event is a timeout or an ACK at or below `seq_num` |
| StopAndWait.ResendUntilAcked | docker/sender_stop_and_wait_CamilaNinoFrancia_921953126_NavyaGupta_922500277.py:34-51 | the identical packet is sent once per event of the wait, up to and including the acknowledging one |
| StopAndWait.SendChunk | docker/sender_stop_and_wait_CamilaNinoFrancia_921953126_NavyaGupta_922500277.py:27-55 | one pass of the outer loop adds to the record exactly what the run from that chunk records for it, and the run goes on from the next chunk |
| StopAndWait.SendChunks | docker/sender_stop_and_wait_CamilaNinoFrancia_921953126_NavyaGupta_922500277.py:20-55 | the outer loop records exactly what `Transmit` records before the terminal exchange, or all of it when the run ends inside the loop |
| StopAndWait.SendStopAndWait | docker/sender_stop_and_wait_CamilaNinoFrancia_921953126_NavyaGupta_922500277.py:11-69 | the sends, delays and ACK indices are those of `Transmit`; a completed run ends with the bare header of `len(data)` and that header followed by `==FINACK==`, and recorded one delay per chunk |
| StopAndWait.RunAcks | docker/sender_stop_and_wait_CamilaNinoFrancia_921953126_NavyaGupta_922500277.py:32-47 | the acknowledging events come in increasing order; each delay runs from the time before the packet's first send to its ACK, so retransmissions do not restart it |
| StopAndWait.RunAcksChunks | docker/sender_stop_and_wait_CamilaNinoFrancia_921953126_NavyaGupta_922500277.py:34-51 | each acknowledging event carries an ACK above its chunk's offset; every earlier event of the same wait made the packet be sent again |
| StopAndWait.CompletedEnd | docker/sender_stop_and_wait_CamilaNinoFrancia_921953126_NavyaGupta_922500277.py:58-69 | a completed run ends with the bare 4-byte header of `len(data)`, then that header followed by `==FINACK==` |
| StopAndWait.CompletedLengths | docker/sender_stop_and_wait_CamilaNinoFrancia_921953126_NavyaGupta_922500277.py:44-47 | a completed run recorded exactly one delay and one acknowledging event per chunk |
| StopAndWait.CompletedSends | docker/sender_stop_and_wait_CamilaNinoFrancia_921953126_NavyaGupta_922500277.py:27-55 | before the terminal exchange, a completed run sent each chunk's packet, in offset order, one or more times in a row, so together they cover the data with no gap or overlap |
| StopAndWait.EmptyFile | docker/sender_stop_and_wait_CamilaNinoFrancia_921953126_NavyaGupta_922500277.py:27-69 | for empty data the only packets are the bare header 0 and the header 0 followed by `==FINACK==`, whatever the network does |

## Left out

- Sockets are not modelled. Each sender reads a list of events and appends to a log of sent datagrams. Binding, `settimeout` and `close` have no counterpart.
- Wall-clock time is the `at` reading of the last event, in integer milliseconds. Every `time.time()` between two receive calls reads that same value. Delays are integer differences, not floating-point seconds.
- The receive timeouts, 0.5 s and 1 s, are `Timeout` events, not durations.
- Reading the file is not modelled: the file's bytes are a parameter.
- `recvfrom(1024)` truncating a longer datagram is not modelled: a datagram arrives whole.
- The UTF-8 `decode()` of an ACK's message is not modelled. The bytes after the header are compared with the bytes of `fin`. A message that is not valid UTF-8, on which the source raises, is treated as an ordinary ACK.
- `print`, the throughput, average-delay and score computations, `get_metrics`, and the driver that runs the sender ten times and averages are not modelled.
- The event list is finite, while the source can keep waiting forever.
  - The main loops stop with `OutOfEvents` when no event is left.
  - The sliding sender's terminal wait treats running out of events as its 10-second deadline.
  - The stop-and-wait sender's final receive treats it as a timeout.
- The 10-second deadline of the terminal wait is checked on event clock readings only: the wait ends after the first round whose last event was read at or after the deadline.
- WindowSpec.FinWait: its own contract states only that the session stays well formed and nothing sent is taken back. What the terminal wait sends is stated through `Shutdown` (`ShutdownEffect`, and `Finish`, which follows `Shutdown` exactly). The number of terminal re-sends is not stated as a separate property.
- SlidingWindow.ScanAck: the scan works on a copy of the window and writes the result back after the loop. The source deletes from the live dictionary while iterating over a snapshot of its keys. Both give the same final window and samples.
- StopAndWait.RunAcks: the time before a packet's first send is the clock reading of the previous ACK, or the start time for the first packet. No time passes between an ACK and the next send.
- No guarantee that `base` never decreases is stated, because the code does not provide one (`WindowSpec.StaleAck`).
