/** The client session: one read request, then a receive/acknowledge loop
    that writes accepted blocks to a sink until a short data packet, a
    non-data packet or a receive timeout ends it. The socket is replaced by a
    finite stream of receive events (past its end every receive times out) and
    the output file by the sink byte sequence. */
module Client {
  import opened Wire

  /** How the session ends: after a data packet shorter than 514 bytes, on a
      packet that is not a data packet (its bytes after the opcode are the
      message), on a receive timeout, or with an exception on an empty
      datagram, whose message cannot be extracted. */
  datatype Outcome = Finished | ServerMessage(text: seq<Byte>) | TimedOut | EmptyDatagram

  /** The client's loop state: the block expected next, the block last
      accepted, the bytes written so far, every datagram sent so far, and the
      outcome once the loop has ended. */
  datatype Receiver = Receiver(
    block: Byte,
    lastBlock: Byte,
    sink: seq<Byte>,
    sent: seq<Datagram>,
    outcome: Option<Outcome>)

  /** The loop invariant: the expected block always follows the last
      accepted one. */
  predicate Valid(s: Receiver)
  {
    s.block == Next(s.lastBlock)
  }

  /** The state after the read request for `filename` has been sent. */
  function Start(filename: seq<Byte>): (s: Receiver)
    ensures s.block == 1 && s.lastBlock == 0 && Valid(s)
    ensures s.sink == [] && s.sent == [RequestPacket(filename)] && s.outcome == None
  {
    Receiver(1, 0, [], [RequestPacket(filename)], None)
  }

  /** Whether `r`, as the client's 514-byte buffer holds it, is a data packet
      carrying block `b`. */
  predicate Carries(r: Datagram, b: Byte)
  {
    ByteAt(r, 0) == DATA && ByteAt(r, 1) == b
  }

  /** One pass of the receive loop. */
  function Step(s: Receiver, ev: Event): (t: Receiver)
    requires Valid(s) && s.outcome.None?
    ensures Valid(t)
    ensures t.outcome.None? <==> ev.Recv? && ByteAt(ev.datagram, 0) == DATA && |ev.datagram| >= PACKETSIZE
    ensures ev.Recv? && ByteAt(ev.datagram, 0) == DATA ==> t.sent == s.sent + [AckPacket(t.lastBlock)]
    ensures !(ev.Recv? && ByteAt(ev.datagram, 0) == DATA) ==> t.sent == s.sent && t.sink == s.sink
    ensures ev.Recv? && Carries(ev.datagram, s.block) ==>
              t.lastBlock == s.block && t.sink == s.sink + Truncate(ev.datagram, PACKETSIZE)[2..]
    ensures !(ev.Recv? && Carries(ev.datagram, s.block)) ==>
              t.block == s.block && t.lastBlock == s.lastBlock && t.sink == s.sink
    ensures ev.Timeout? ==> t.outcome == Some(TimedOut)
    ensures ev.Recv? && ByteAt(ev.datagram, 0) == DATA && |ev.datagram| < PACKETSIZE ==>
              t.outcome == Some(Finished)
    ensures ev.Recv? && |ev.datagram| == 0 ==> t.outcome == Some(EmptyDatagram)
    ensures ev.Recv? && 0 < |ev.datagram| && ev.datagram[0] != DATA ==>
              t.outcome == Some(ServerMessage(Truncate(ev.datagram, PACKETSIZE)[1..]))
  {
    match ev
    case Timeout => s.(outcome := Some(TimedOut))
    case Recv(d) =>
      var r := Truncate(d, PACKETSIZE);
      if ByteAt(r, 0) == DATA then
        var t := if ByteAt(r, 1) == s.block
                 then Receiver(Next(s.block), s.block, s.sink + r[2..], s.sent + [AckPacket(s.block)], None)
                 else s.(sent := s.sent + [AckPacket(s.lastBlock)]);
        if |r| < PACKETSIZE then t.(outcome := Some(Finished)) else t
      else if |r| == 0 then s.(outcome := Some(EmptyDatagram))
      else s.(outcome := Some(ServerMessage(r[1..])))
  }

  /** When the acknowledgment of a full data packet is lost and the server
      sends the packet again, the client writes nothing more and sends the
      same acknowledgment again. */
  lemma LostAckRecovery(s: Receiver, p: Datagram)
    requires Valid(s) && s.outcome.None?
    requires |p| == PACKETSIZE && p[0] == DATA && p[1] == s.block
    ensures var t := Step(s, Recv(p));
      && t.outcome.None? && t.lastBlock == s.block
      && Step(t, Recv(p)) == t.(sent := t.sent + [AckPacket(s.block)])
  {
    var t := Step(s, Recv(p));
    assert Truncate(p, PACKETSIZE) == p;
    assert t.block != s.block;
  }

  /** The loop run over `events` from index `i` until it ends. */
  function Run(s: Receiver, events: seq<Event>, i: nat): (t: Receiver)
    requires Valid(s) && i <= |events|
    ensures Valid(t) && t.outcome.Some?
    ensures s.sink <= t.sink
    decreases |events| - i, if s.outcome.None? then 1 else 0
  {
    if s.outcome.Some? then s
    else if i < |events| then Run(Step(s, events[i]), events, i + 1)
    else Run(Step(s, Timeout), events, i)
  }

  /** The client session for `filename`: send the request, then receive,
      acknowledge and write until the loop ends. */
  method Session(filename: seq<Byte>, events: seq<Event>)
    returns (sent: seq<Datagram>, sink: seq<Byte>, outcome: Outcome)
    ensures var t := Run(Start(filename), events, 0);
      sent == t.sent && sink == t.sink && t.outcome == Some(outcome)
  {
    ghost var final := Run(Start(filename), events, 0);
    sent := [RequestPacket(filename)];
    sink := [];
    var block: Byte := 1;
    var lastBlock: Byte := 0;
    var i: nat := 0;
    while true
      invariant i <= |events| && block == Next(lastBlock)
      invariant Run(Receiver(block, lastBlock, sink, sent, None), events, i) == final
      decreases |events| - i
    {
      ghost var s := Receiver(block, lastBlock, sink, sent, None);
      if i == |events| {
        // nothing arrives within the receive timeout
        assert Run(s, events, i) == Step(s, Timeout);
        outcome := TimedOut;
        return;
      }
      var ev := events[i];
      i := i + 1;
      ghost var t := Step(s, ev);
      assert Run(s, events, i - 1) == Run(t, events, i);
      if ev.Timeout? {
        outcome := TimedOut;
        return;
      }
      var receiveData := Truncate(ev.datagram, PACKETSIZE);
      if ByteAt(receiveData, 0) == DATA {
        if ByteAt(receiveData, 1) == block {
          sent := sent + [AckPacket(block)];
          sink := sink + receiveData[2..];
          lastBlock := block;
          if block >= BYTESIZE {
            block := 0;
          }
          block := block + 1;
        } else {
          sent := sent + [AckPacket(lastBlock)];
        }
        if |receiveData| < PACKETSIZE {
          outcome := Finished;
          return;
        }
      } else if |receiveData| == 0 {
        outcome := EmptyDatagram;
        return;
      } else {
        outcome := ServerMessage(receiveData[1..]);
        return;
      }
    }
  }
}
