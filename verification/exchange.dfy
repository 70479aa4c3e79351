/** Properties that connect the two sides: what the client sends is what the
    server worker decodes, and over a channel that loses nothing the file
    arrives whole and both sides stop after the final short data packet. */
module Exchange {
  import opened Wire
  import Server
  import Client

  /** The name the worker looks up when the client asks for `name`: the part
      of the request the listener's buffer holds, trimmed. */
  function Requested(name: seq<Byte>): seq<Byte>
  {
    Server.Trim(name[..Min(|name|, LISTENSIZE - 1)])
  }

  /** The worker acts on every request the client sends and looks up the
      name it carried, trimmed, as far as the listener's buffer holds it; a
      name that fits the buffer is looked up as it is, trimmed. */
  lemma RequestRoundTrip(name: seq<Byte>)
    ensures Server.DecodeRequest(RequestPacket(name)).Some?
    ensures Server.Trim(Server.DecodeRequest(RequestPacket(name)).value) == Requested(name)
    ensures |name| < LISTENSIZE ==> Requested(name) == Server.Trim(name)
  {
    var d := RequestPacket(name);
    Server.DecodeRequestName(d);
    assert d[1..Min(|d|, LISTENSIZE)] == name[..Min(|name|, LISTENSIZE - 1)];
    if |name| < LISTENSIZE {
      assert name[..Min(|name|, LISTENSIZE - 1)] == name;
    }
  }

  /** An acknowledgment matches exactly the block it carries. */
  lemma AckRoundTrip(b: Byte, c: Byte)
    ensures Server.Acknowledges(Recv(AckPacket(b)), c) <==> b == c
  {
  }

  /** The acknowledgments a client sends, in order, for the data packets
      of the unread rest of a file when none is lost: one per packet, each
      carrying that packet's block number. */
  function AcksFrom(rest: seq<Byte>, block: Byte): (acks: seq<Datagram>)
    ensures |acks| == |Server.PacketsFrom(rest, block)|
    decreases |rest|
  {
    if |rest| < BLOCKSIZE then [AckPacket(block)]
    else [AckPacket(block)] + AcksFrom(rest[BLOCKSIZE..], Next(block))
  }

  /** Each acknowledgment carries the block number of the data packet at the
      same position. */
  lemma {:induction false} AcksMatchPackets(rest: seq<Byte>, block: Byte, k: nat)
    requires k < |Server.PacketsFrom(rest, block)|
    ensures AcksFrom(rest, block)[k] == AckPacket(Server.PacketsFrom(rest, block)[k][1])
    decreases |rest|
  {
    if k > 0 {
      AcksMatchPackets(rest[BLOCKSIZE..], Next(block), k - 1);
    }
  }

  /** `ds` is delivered, in order and without loss, from index `i` of
      `events` on. */
  predicate DeliveredAt(events: seq<Event>, i: nat, ds: seq<Datagram>)
  {
    i + |ds| <= |events| && forall m :: 0 <= m < |ds| ==> events[i + m] == Recv(ds[m])
  }

  /** Dropping the first datagram delivered. */
  lemma DeliveredShift(events: seq<Event>, i: nat, ds: seq<Datagram>)
    requires DeliveredAt(events, i, ds) && ds != []
    ensures events[i] == Recv(ds[0]) && DeliveredAt(events, i + 1, ds[1..])
  {
    forall m | 0 <= m < |ds| - 1
      ensures events[i + 1 + m] == Recv(ds[1..][m])
    {
      assert events[i + (m + 1)] == Recv(ds[m + 1]);
    }
  }

  /** With every acknowledgment arriving at once, the worker sends each data
      packet exactly once and completes. */
  lemma {:induction false} ServerLosslessFrom(rest: seq<Byte>, block: Byte, events: seq<Event>, i: nat)
    requires DeliveredAt(events, i, AcksFrom(rest, block))
    ensures Server.Session(rest, block, events, i) == Server.Transfer(Server.PacketsFrom(rest, block), Server.Done)
    decreases |rest|
  {
    var acks := AcksFrom(rest, block);
    DeliveredShift(events, i, acks);
    assert acks[0] == AckPacket(block);
    assert Server.AwaitAck(block, events, i, 0) == Server.Round(1, 0, true, i + 1);
    var p := DataPacket(block, Server.NextChunk(rest));
    assert Server.Repeat(p, 1) == [p];
    if |rest| >= BLOCKSIZE {
      assert acks[1..] == AcksFrom(rest[BLOCKSIZE..], Next(block));
      ServerLosslessFrom(rest[BLOCKSIZE..], Next(block), events, i + 1);
    }
  }

  /** The client accepts the data packet it expects: it writes the content,
      acknowledges the block, moves on to the next block, and stops exactly
      when the packet is short. */
  lemma ClientAccepts(s: Client.Receiver, rest: seq<Byte>)
    requires Client.Valid(s) && s.outcome.None?
    ensures var t := Client.Step(s, Recv(DataPacket(s.block, Server.NextChunk(rest))));
      && t.sink == s.sink + Server.NextChunk(rest)
      && t.sent == s.sent + [AckPacket(s.block)]
      && t.block == Next(s.block)
      && t.outcome == (if |rest| < BLOCKSIZE then Some(Client.Finished) else None)
  {
    var p := DataPacket(s.block, Server.NextChunk(rest));
    assert Truncate(p, PACKETSIZE) == p;
    assert p[2..] == Server.NextChunk(rest);
  }

  /** The bytes written for a full block followed by those for the rest of
      the file are the bytes of the whole rest. */
  lemma SinkAppend(sink: seq<Byte>, rest: seq<Byte>)
    requires |rest| >= BLOCKSIZE
    ensures (sink + rest[..BLOCKSIZE]) + rest[BLOCKSIZE..] == sink + rest
  {
    assert rest == rest[..BLOCKSIZE] + rest[BLOCKSIZE..];
  }

  /** The acknowledgment of a full block followed by those for the rest of
      the file are the acknowledgments for the whole rest. */
  lemma AcksAppend(sent: seq<Datagram>, rest: seq<Byte>, block: Byte)
    requires |rest| >= BLOCKSIZE
    ensures (sent + [AckPacket(block)]) + AcksFrom(rest[BLOCKSIZE..], Next(block)) == sent + AcksFrom(rest, block)
  {
    Server.AppendAssoc(sent, [AckPacket(block)], AcksFrom(rest[BLOCKSIZE..], Next(block)));
  }

  /** Receiving the data packets of the unread rest of a file in order and
      without loss, the client writes exactly that rest, acknowledges every
      packet, and stops after the last one. */
  lemma {:induction false} ClientLosslessFrom(s: Client.Receiver, rest: seq<Byte>, events: seq<Event>, i: nat)
    requires Client.Valid(s) && s.outcome.None?
    requires DeliveredAt(events, i, Server.PacketsFrom(rest, s.block))
    ensures var t := Client.Run(s, events, i);
      && t.sink == s.sink + rest
      && t.sent == s.sent + AcksFrom(rest, s.block)
      && t.outcome == Some(Client.Finished)
    decreases |rest|
  {
    var ps := Server.PacketsFrom(rest, s.block);
    DeliveredShift(events, i, ps);
    ClientAccepts(s, rest);
    var t := Client.Step(s, events[i]);
    assert Client.Run(s, events, i) == Client.Run(t, events, i + 1);
    if |rest| >= BLOCKSIZE {
      var rest' := rest[BLOCKSIZE..];
      assert ps[1..] == Server.PacketsFrom(rest', t.block);
      ClientLosslessFrom(t, rest', events, i + 1);
      SinkAppend(s.sink, rest);
      AcksAppend(s.sent, rest, s.block);
    }
  }

  /** A lossless exchange for a file that exists. The client, receiving the
      file's data packets followed by anything at all, writes exactly the
      file, reports success and has sent the request followed by one
      acknowledgment per packet; the worker, handed that request and then
      those acknowledgments followed by anything at all, sends every data
      packet exactly once and completes. Neither side reads past the final
      short packet or its acknowledgment. */
  lemma LosslessExchange(name: seq<Byte>, fs: map<seq<Byte>, seq<Byte>>, extraC: seq<Event>, extraS: seq<Event>)
    requires Server.Exists(Requested(name), fs)
    ensures var file := fs[Requested(name)];
      var c := Client.Run(Client.Start(name), Deliver(Server.Packets(file)) + extraC, 0);
      && c.sink == file
      && c.outcome == Some(Client.Finished)
      && c.sent == [RequestPacket(name)] + AcksFrom(file, 1)
      && Server.Handle(c.sent[0], fs, Deliver(c.sent[1..]) + extraS) == Server.Transfer(Server.Packets(file), Server.Done)
  {
    var file := fs[Requested(name)];
    var ps := Server.Packets(file);
    var s := Client.Start(name);
    ClientLosslessFrom(s, file, Deliver(ps) + extraC, 0);
    var c := Client.Run(s, Deliver(ps) + extraC, 0);
    assert c.sent[0] == RequestPacket(name);
    assert c.sent[1..] == AcksFrom(file, 1);
    RequestRoundTrip(name);
    ServerLosslessFrom(file, 1, Deliver(AcksFrom(file, 1)) + extraS, 0);
  }

  /** A request for a file that does not exist, or for a name that is blank
      once trimmed: the worker sends exactly one packet, the error
      packet, whatever arrives afterwards; the client, receiving it, writes
      nothing, sends nothing more and reports the error text. */
  lemma MissingFile(name: seq<Byte>, fs: map<seq<Byte>, seq<Byte>>, extraC: seq<Event>, extraS: seq<Event>)
    requires !Server.Exists(Requested(name), fs)
    ensures Server.Handle(RequestPacket(name), fs, extraS) == Server.Transfer([ErrorPacket], Server.NotFound)
    ensures var c := Client.Run(Client.Start(name), Deliver([ErrorPacket]) + extraC, 0);
      && c.sink == []
      && c.sent == [RequestPacket(name)]
      && c.outcome == Some(Client.ServerMessage(NotFoundText))
  {
    RequestRoundTrip(name);
    var events := Deliver([ErrorPacket]) + extraC;
    assert events[0] == Recv(ErrorPacket);
    ErrorPacketLayout();
  }
}
