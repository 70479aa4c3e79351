/** Wire format of the transfer protocol, shared by the client and the server
    worker: opcodes, packet builders, the receive buffers both sides read
    datagrams into, and the one-byte block counter. */
module Wire {

  /** An unsigned byte. Java compares its signed bytes bit for bit, so reading
      them unsigned changes no comparison the protocol makes. */
  type Byte = x: int | 0 <= x < 256

  type Datagram = seq<Byte>

  datatype Option<T> = None | Some(value: T)

  const RRQ: Byte := 1
  const DATA: Byte := 2
  const ACK: Byte := 3
  const ERROR: Byte := 4

  /** Largest data datagram: opcode, block number and 512 content bytes. */
  const PACKETSIZE: nat := 514
  /** Content bytes per data block. */
  const BLOCKSIZE: nat := 512   // PACKETSIZE - 2
  /** Largest block number before the counter resets. */
  const BYTESIZE: Byte := 255
  /** Size of the server listener's receive buffer. */
  const LISTENSIZE: nat := 1472

  /** What a blocking receive with a timeout returns. */
  datatype Event = Recv(datagram: Datagram) | Timeout

  /** Every datagram of `ds`, delivered in order and without loss. */
  function Deliver(ds: seq<Datagram>): (evs: seq<Event>)
    ensures |evs| == |ds|
    ensures forall j :: 0 <= j < |ds| ==> evs[j] == Recv(ds[j])
  {
    seq(|ds|, j requires 0 <= j < |ds| => Recv(ds[j]))
  }

  // ---------------------------------------------------------------------------
  // Block counter

  /** The block counter step used by both sides: at 255 or above it is reset
      to 0, and then incremented, so 255 is followed by 1. */
  function Next(b: Byte): (n: Byte)
    ensures n != 0 && n != b
  {
    var reset: Byte := if b >= BYTESIZE then 0 else b;
    reset + 1
  }

  /** The block number of the k-th data block (counting from 0). */
  function BlockNumber(k: nat): (b: Byte)
    ensures b != 0
  {
    if k == 0 then 1 else Next(BlockNumber(k - 1))
  }

  /** The first 255 blocks are numbered 1 to 255. */
  lemma {:induction false} BlockNumberCounts(k: nat)
    requires k < 255
    ensures BlockNumber(k) == k + 1
  {
    if k > 0 {
      BlockNumberCounts(k - 1);
    }
  }

  /** After 255 blocks the numbering starts over. */
  lemma {:induction false} BlockNumberPeriod(k: nat)
    ensures BlockNumber(k + 255) == BlockNumber(k)
  {
    if k == 0 {
      BlockNumberCounts(254);
    } else {
      BlockNumberPeriod(k - 1);
    }
  }

  /** Block numbers run 1, 2, ..., 255, 1, 2, ...: block k carries
      k % 255 + 1, never 0. */
  lemma {:induction false} BlockNumberWraps(k: nat)
    ensures BlockNumber(k) == k % 255 + 1
  {
    if k < 255 {
      BlockNumberCounts(k);
    } else {
      BlockNumberWraps(k - 255);
      BlockNumberPeriod(k - 255);
    }
  }

  /** Consecutive data blocks always carry different block numbers. */
  lemma BlockNumbersDiffer(k: nat)
    ensures BlockNumber(k + 1) != BlockNumber(k)
  {
  }

  // ---------------------------------------------------------------------------
  // Packet builders

  /** A read request: the opcode, then the filename bytes, with no
      terminator and no mode field. */
  function RequestPacket(filename: seq<Byte>): (p: Datagram)
    ensures |p| == |filename| + 1 && p[0] == RRQ && p[1..] == filename
  {
    [RRQ] + filename
  }

  /** A data packet: the opcode, the block number, then the content. */
  function DataPacket(block: Byte, payload: seq<Byte>): (p: Datagram)
    ensures |p| == |payload| + 2 && p[0] == DATA && p[1] == block && p[2..] == payload
  {
    [DATA, block] + payload
  }

  /** An acknowledgment: exactly the opcode and the block number. */
  function AckPacket(block: Byte): (p: Datagram)
    ensures |p| == 2 && p[0] == ACK && p[1] == block
  {
    [ACK, block]
  }

  /** The one error packet the server ever sends: the opcode, then the
      bytes of the text "file not found". */
  const ErrorPacket: Datagram := [ERROR, 102, 105, 108, 101, 32, 110, 111, 116, 32, 102, 111, 117, 110, 100]

  /** The message the error packet carries. */
  const NotFoundText: seq<Byte> := ErrorPacket[1..]

  /** The error packet is 15 bytes long, so a receive buffer of 514 bytes
      holds it whole, and it is not a data packet. */
  lemma ErrorPacketLayout()
    ensures |ErrorPacket| == 15 && ErrorPacket[0] == ERROR && ErrorPacket[0] != DATA
    ensures Truncate(ErrorPacket, PACKETSIZE) == ErrorPacket
  {
  }

  // ---------------------------------------------------------------------------
  // Receive buffers

  function Min(a: nat, b: nat): nat
  {
    if a <= b then a else b
  }

  /** The part of `d` that a receive into a buffer of `capacity` bytes keeps;
      its length is the packet length the receiver sees: a prefix of `d`
      that fills the buffer unless it is the whole of `d`. */
  function Truncate(d: Datagram, capacity: nat): (r: Datagram)
    ensures r <= d && |r| <= capacity
    ensures |r| < capacity ==> r == d
  {
    d[..Min(|d|, capacity)]
  }

  /** Byte `j` of a zero-filled receive buffer after `r` was received into it. */
  function ByteAt(r: Datagram, j: nat): Byte
  {
    if j < |r| then r[j] else 0
  }

  function Zeros(n: nat): (z: seq<Byte>)
    ensures |z| == n
    ensures forall j :: 0 <= j < n ==> z[j] == 0
  {
    if n == 0 then [] else Zeros(n - 1) + [0]
  }
}
