/** The wire format shared by both senders: a 4-byte signed big-endian
    sequence header followed by the payload, the two control tokens, and the
    events the socket delivers to a sender. */
module Wire {

  datatype Option<+T> = None | Some(value: T)

  type byte = b: int | 0 <= b < 256

  const MinInt32: int := -0x8000_0000
  const MaxInt32: int := 0x7FFF_FFFF

  /** Size of the header that carries the sequence number. */
  const HeaderSize: nat := 4

  /** The bytes `fin` the receiver puts after the header of its closing ACK. */
  const FinMsg: seq<byte> := [102, 105, 110]

  /** The bytes `==FINACK==` of the sender's final close confirmation. */
  const FinAckMsg: seq<byte> := [61, 61, 70, 73, 78, 65, 67, 75, 61, 61]

  predicate IsInt32(n: int) {
    MinInt32 <= n <= MaxInt32
  }

  /** Unsigned big-endian value of a byte string. */
  function Unsigned(b: seq<byte>): nat {
    if b == [] then 0 else Unsigned(b[..|b| - 1]) * 256 + b[|b| - 1]
  }

  function Pow256(n: nat): nat {
    if n == 0 then 1 else 256 * Pow256(n - 1)
  }

  /** Signed (two's complement) big-endian value of a byte string of any
      length; the empty string is 0. */
  function FromSigned(b: seq<byte>): int {
    if b != [] && b[0] >= 128 then Unsigned(b) - Pow256(|b|) else Unsigned(b)
  }

  /** The 4-byte two's complement big-endian form of an int32. */
  function Int32ToBytes(n: int): (b: seq<byte>)
    requires IsInt32(n)
    ensures |b| == HeaderSize
    ensures (n < 0) <==> b[0] >= 128
  {
    var u := if n < 0 then n + 0x1_0000_0000 else n;
    var q1 := u / 0x100;
    var q2 := q1 / 0x100;
    [q2 / 0x100, q2 % 0x100, q1 % 0x100, u % 0x100]
  }

  lemma Unsigned4(b: seq<byte>)
    requires |b| == 4
    ensures Unsigned(b) == (b[0] as int) * 0x100_0000 + (b[1] as int) * 0x1_0000 + (b[2] as int) * 0x100 + b[3] as int
  {
    assert b[..3][..2] == b[..2];
    assert b[..2][..1] == b[..1];
    assert b[..1][..0] == [];
    calc {
      Unsigned(b);
      Unsigned(b[..3]) * 256 + b[3];
      (Unsigned(b[..2]) * 256 + b[2]) * 256 + b[3];
      ((Unsigned(b[..1]) * 256 + b[1]) * 256 + b[2]) * 256 + b[3];
      (((b[0] as int) * 256 + b[1]) * 256 + b[2]) * 256 + b[3];
    }
  }

  /** Reading back the header of an int32 gives the number. */
  lemma Int32RoundTrip(n: int)
    requires IsInt32(n)
    ensures FromSigned(Int32ToBytes(n)) == n
  {
    var b := Int32ToBytes(n);
    Unsigned4(b);
    var u := if n < 0 then n + 0x1_0000_0000 else n;
    var q1 := u / 0x100;
    var q2 := q1 / 0x100;
    assert u == q1 * 0x100 + u % 0x100;
    assert q1 == q2 * 0x100 + q1 % 0x100;
    assert q2 == (q2 / 0x100) * 0x100 + q2 % 0x100;
    assert Unsigned(b) == u;
    assert Pow256(4) == 0x1_0000_0000;
  }

  /** Every 4-byte header is the header of the int32 it reads as. */
  lemma BytesRoundTrip(b: seq<byte>)
    requires |b| == HeaderSize
    ensures IsInt32(FromSigned(b))
    ensures Int32ToBytes(FromSigned(b)) == b
  {
    Unsigned4(b);
    assert Pow256(4) == 0x1_0000_0000;
    var n := FromSigned(b);
    var u := Unsigned(b);
    assert (if n < 0 then n + 0x1_0000_0000 else n) == u;
    var r := Int32ToBytes(n);
    var b0, b1, b2, b3 := b[0] as int, b[1] as int, b[2] as int, b[3] as int;
    assert u / 0x100 == b0 * 0x1_0000 + b1 * 0x100 + b2;
    assert (b0 * 0x1_0000 + b1 * 0x100 + b2) / 0x100 == b0 * 0x100 + b1;
    assert (b0 * 0x100 + b1) / 0x100 == b0;
    assert r[0] == b[0] && r[1] == b[1] && r[2] == b[2] && r[3] == b[3];
  }

  /** `create_packet` for a sequence number that fits the header. */
  function Encode(seqId: int, data: seq<byte>): (p: seq<byte>)
    requires IsInt32(seqId)
    ensures |p| == HeaderSize + |data|
    ensures p[HeaderSize..] == data
  {
    Int32ToBytes(seqId) + data
  }

  /** `create_packet` as the source runs it: `int.to_bytes(seq_id, 4,
      signed=True)` raises for a number outside int32, so no packet is built. */
  function CreatePacket(seqId: int, data: seq<byte>): (r: Option<seq<byte>>)
    ensures r.Some? <==> IsInt32(seqId)
    ensures r.Some? ==> |r.value| == HeaderSize + |data| && FromSigned(r.value[..HeaderSize]) == seqId
    ensures r.Some? ==> r.value[HeaderSize..] == data
  {
    if IsInt32(seqId) then
      var p := Encode(seqId, data);
      Int32RoundTrip(seqId);
      assert p[..HeaderSize] == Int32ToBytes(seqId);
      Some(p)
    else None
  }

  /** Splits a datagram into its header number and the bytes after it; a
      datagram shorter than the header has none (`struct.unpack('!i', ...)`
      raises on it). */
  function Decode(p: seq<byte>): (r: Option<(int, seq<byte>)>)
    ensures r.Some? <==> |p| >= HeaderSize
    ensures r.Some? ==> IsInt32(r.value.0) && Encode(r.value.0, r.value.1) == p
  {
    if |p| < HeaderSize then None
    else
      BytesRoundTrip(p[..HeaderSize]);
      assert Int32ToBytes(FromSigned(p[..HeaderSize])) + p[HeaderSize..] == p;
      Some((FromSigned(p[..HeaderSize]), p[HeaderSize..]))
  }

  /** Decoding an encoded packet gives back its sequence number and payload. */
  lemma DecodeEncode(seqId: int, data: seq<byte>)
    requires IsInt32(seqId)
    ensures Decode(Encode(seqId, data)) == Some((seqId, data))
  {
    var p := Encode(seqId, data);
    assert p[..HeaderSize] == Int32ToBytes(seqId);
    Int32RoundTrip(seqId);
  }

  /** How the sliding-window sender reads an ACK: `int.from_bytes` of at most
      the first four bytes, signed, and the rest as the message. */
  function ParseAck(p: seq<byte>): (r: (int, seq<byte>))
    ensures |p| >= HeaderSize ==> Decode(p) == Some(r)
    ensures |p| < HeaderSize ==> r.1 == []
  {
    var h := if |p| < HeaderSize then |p| else HeaderSize;
    (FromSigned(p[..h]), p[h..])
  }

  /** What a sender's socket delivers: a datagram, or the end of a receive
      wait with nothing received. `at` is the clock reading, in milliseconds,
      when the receive call returns. */
  datatype Event = Timeout(at: int) | Datagram(at: int, bytes: seq<byte>)
}
