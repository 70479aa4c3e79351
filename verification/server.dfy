/** The server worker that owns one file transfer: it decodes the read
    request, looks the file up, and either sends the not-found error packet or
    sends the file block by block, each block stop-and-wait with a bounded
    number of timeouts. Sockets are replaced by a finite stream of receive
    events (past its end every receive times out) and the file system by a map
    from names to contents. */
module Server {
  import opened Wire

  /** Timeouts for one block after which the transfer is abandoned. */
  const MAXTRIES: nat := 5

  // ---------------------------------------------------------------------------
  // Request decoding

  /** Java's String.trim counts every byte up to 0x20 as blank, the NUL
      padding of the receive buffer included. */
  predicate Blank(b: Byte)
  {
    b <= 0x20
  }

  /** A name with nothing for trim to remove. */
  predicate Trimmed(s: seq<Byte>)
  {
    s == [] || (!Blank(s[0]) && !Blank(s[|s| - 1]))
  }

  /** Number of blank bytes at the front of `s`. */
  function LeadingBlanks(s: seq<Byte>): (n: nat)
    ensures n <= |s|
    ensures forall j :: 0 <= j < n ==> Blank(s[j])
    ensures n < |s| ==> !Blank(s[n])
  {
    if |s| > 0 && Blank(s[0]) then 1 + LeadingBlanks(s[1..]) else 0
  }

  /** Index where the blank bytes at the back of `s` begin. */
  function TrailingStart(s: seq<Byte>): (n: nat)
    ensures n <= |s|
    ensures forall j :: n <= j < |s| ==> Blank(s[j])
    ensures 0 < n ==> !Blank(s[n - 1])
  {
    if |s| > 0 && Blank(s[|s| - 1]) then TrailingStart(s[..|s| - 1]) else |s|
  }

  /** String.trim on bytes: `s` without its blank bytes at either end. The
      result starts after the leading blanks, everything after it is blank,
      and it has no blank at either end, which pins it down. */
  function Trim(s: seq<Byte>): (t: seq<Byte>)
    ensures LeadingBlanks(s) + |t| <= |s|
    ensures t == s[LeadingBlanks(s)..LeadingBlanks(s) + |t|]
    ensures forall j :: LeadingBlanks(s) + |t| <= j < |s| ==> Blank(s[j])
    ensures Trimmed(t)
    ensures Trimmed(s) ==> t == s
    ensures t == [] <==> forall j :: 0 <= j < |s| ==> Blank(s[j])
  {
    var a := LeadingBlanks(s);
    if a == |s| then [] else s[a..TrailingStart(s)]
  }

  /** Whatever surrounds a non-blank middle s[a..b] is removed by trim, as
      long as it is blank. */
  lemma TrimUnique(s: seq<Byte>, a: nat, b: nat)
    requires a < b <= |s| && !Blank(s[a]) && !Blank(s[b - 1])
    requires forall j :: 0 <= j < a ==> Blank(s[j])
    requires forall j :: b <= j < |s| ==> Blank(s[j])
    ensures Trim(s) == s[a..b]
  {
    assert LeadingBlanks(s) == a;
    assert TrailingStart(s) == b;
  }

  /** Past the end of `s`, padding is blank. */
  lemma PaddingBlank(s: seq<Byte>, n: nat, b: nat)
    requires b <= |s|
    requires forall j :: b <= j < |s| ==> Blank(s[j])
    ensures forall j :: b <= j < |s + Zeros(n)| ==> Blank((s + Zeros(n))[j])
  {
  }

  /** Padding does not change a slice of `s`. */
  lemma SliceOfPadded(s: seq<Byte>, n: nat, a: nat, b: nat)
    requires a <= b <= |s|
    ensures (s + Zeros(n))[a..b] == s[a..b]
  {
  }

  /** Blank padding, the listener's NUL bytes included, never changes the
      name trim yields. */
  lemma TrimPadding(s: seq<Byte>, n: nat)
    ensures Trim(s + Zeros(n)) == Trim(s)
  {
    var p := s + Zeros(n);
    if forall j :: 0 <= j < |s| ==> Blank(s[j]) {
      PaddingBlank(s, n, 0);
    } else {
      var a := LeadingBlanks(s);
      var b := TrailingStart(s);
      assert a < |s| && !Blank(s[a]);
      assert a < b;
      TrimUnique(s, a, b);
      PaddingBlank(s, n, b);
      SliceOfPadded(s, n, 0, b);
      TrimUnique(p, a, b);
      SliceOfPadded(s, n, a, b);
    }
  }

  /** The worker's reading of a datagram the listener received into its
      1472-byte buffer: it acts only when byte 0 is the read-request opcode,
      and the filename is every buffer byte after it: the datagram's bytes
      from 1 on, then zero bytes to the end of the buffer. */
  function DecodeRequest(d: Datagram): (r: Option<seq<Byte>>)
    ensures r.Some? <==> |d| > 0 && d[0] == RRQ
    ensures r.Some? ==> |r.value| == LISTENSIZE - 1
    ensures r.Some? ==> forall j :: 0 <= j < LISTENSIZE - 1 ==> r.value[j] == ByteAt(d, j + 1)
  {
    var buffer := Truncate(d, LISTENSIZE) + Zeros(LISTENSIZE - Min(|d|, LISTENSIZE));
    if buffer[0] == RRQ then Some(buffer[1..]) else None
  }

  /** The name the worker looks up is bytes 1.. of the request, as far as the
      listener's buffer holds them, trimmed. */
  lemma DecodeRequestName(d: Datagram)
    requires |d| > 0 && d[0] == RRQ
    ensures Trim(DecodeRequest(d).value) == Trim(d[1..Min(|d|, LISTENSIZE)])
  {
    var m := Min(|d|, LISTENSIZE);
    var body := d[1..m];
    var pad := Zeros(LISTENSIZE - m);
    assert DecodeRequest(d).value == body + pad;
    TrimPadding(body, LISTENSIZE - m);
  }

  // ---------------------------------------------------------------------------
  // Chunking

  /** The contents of the data blocks for a file: full blocks of 512 bytes,
      then one block of the remaining size % 512 bytes, which is empty when the
      size is a multiple of 512 (0 included). */
  function Chunks(file: seq<Byte>): (cs: seq<seq<Byte>>)
    ensures |cs| == |file| / BLOCKSIZE + 1
    ensures forall k :: 0 <= k < |cs| - 1 ==> |cs[k]| == BLOCKSIZE
    ensures |cs[|cs| - 1]| == |file| % BLOCKSIZE
    decreases |file|
  {
    if |file| < BLOCKSIZE then [file]
    else [file[..BLOCKSIZE]] + Chunks(file[BLOCKSIZE..])
  }

  /** Concatenation of a sequence of byte strings, in order. */
  function Flatten(ss: seq<seq<Byte>>): seq<Byte>
  {
    if ss == [] then [] else Flatten(ss[..|ss| - 1]) + ss[|ss| - 1]
  }

  lemma {:induction false} FlattenCons(a: seq<Byte>, ss: seq<seq<Byte>>)
    ensures Flatten([a] + ss) == a + Flatten(ss)
  {
    if ss != [] {
      var l := [a] + ss;
      assert l[..|l| - 1] == [a] + ss[..|ss| - 1];
      FlattenCons(a, ss[..|ss| - 1]);
    }
  }

  /** The blocks, put back together in order, are exactly the file. */
  lemma {:induction false} ChunksReassemble(file: seq<Byte>)
    ensures Flatten(Chunks(file)) == file
  {
    if |file| < BLOCKSIZE {
      assert Flatten([file]) == Flatten([]) + file;
    } else {
      ChunksReassemble(file[BLOCKSIZE..]);
      FlattenCons(file[..BLOCKSIZE], Chunks(file[BLOCKSIZE..]));
      assert file == file[..BLOCKSIZE] + file[BLOCKSIZE..];
    }
  }

  /** The content of the next block when `rest` is what remains unread: up
      to 512 bytes. */
  function NextChunk(rest: seq<Byte>): (c: seq<Byte>)
    ensures |c| == Min(|rest|, BLOCKSIZE) && c == rest[..|c|]
  {
    rest[..Min(|rest|, BLOCKSIZE)]
  }

  /** The next block sent is the first chunk of the unread rest. */
  lemma NextChunkIsFirst(rest: seq<Byte>)
    ensures NextChunk(rest) == Chunks(rest)[0]
  {
  }

  /** The data packets for the unread rest of a file, the first one
      carrying `block`, in order. */
  function PacketsFrom(rest: seq<Byte>, block: Byte): (ps: seq<Datagram>)
    ensures ps != [] && ps[0] == DataPacket(block, NextChunk(rest))
    ensures forall k :: 0 <= k < |ps| ==> 2 <= |ps[k]| <= PACKETSIZE && ps[k][0] == DATA
    decreases |rest|
  {
    if |rest| < BLOCKSIZE then [DataPacket(block, rest)]
    else [DataPacket(block, rest[..BLOCKSIZE])] + PacketsFrom(rest[BLOCKSIZE..], Next(block))
  }

  /** The data packets for `file`, block numbers starting at 1. */
  function Packets(file: seq<Byte>): seq<Datagram>
  {
    PacketsFrom(file, 1)
  }

  lemma {:induction false} PacketsFromAt(rest: seq<Byte>, j: nat, k: nat)
    requires k < |Chunks(rest)|
    ensures |PacketsFrom(rest, BlockNumber(j))| == |Chunks(rest)|
    ensures PacketsFrom(rest, BlockNumber(j))[k] == DataPacket(BlockNumber(j + k), Chunks(rest)[k])
    decreases |rest|
  {
    if |rest| >= BLOCKSIZE {
      var rest' := rest[BLOCKSIZE..];
      PacketsFromAt(rest', j + 1, if k == 0 then 0 else k - 1);
    }
  }

  /** The data packets of a file of size S: there are S / 512 + 1 of them;
      packet k is opcode 2, then the block number k % 255 + 1, then the k-th
      block of content; all are 514 bytes long except the last, which is
      shorter. */
  lemma PacketsLayout(file: seq<Byte>, k: nat)
    requires k < |file| / BLOCKSIZE + 1
    ensures |Packets(file)| == |file| / BLOCKSIZE + 1
    ensures Packets(file)[k] == [DATA, k % 255 + 1] + Chunks(file)[k]
    ensures |Packets(file)[k]| == PACKETSIZE <==> k < |Packets(file)| - 1
  {
    PacketsFromAt(file, 0, k);
    BlockNumberWraps(k);
    var c := Chunks(file);
    assert Packets(file)[k] == DataPacket(BlockNumber(k), c[k]);
    assert |c[k]| == BLOCKSIZE <==> k < |c| - 1;
  }

  // ---------------------------------------------------------------------------
  // Waiting for one acknowledgment

  /** Whether a reply acknowledges `block`. The worker reads byte 1 only; the
      opcode in byte 0 is never inspected. A reply shorter than two bytes
      leaves byte 1 of the receive buffer holding a byte that already failed
      to match (see Transmit), so it never acknowledges. */
  predicate Acknowledges(ev: Event, block: Byte)
    ensures block != 0 ==> (Acknowledges(ev, block) <==> ev.Recv? && ByteAt(ev.datagram, 1) == block)
  {
    ev.Recv? && |ev.datagram| >= 2 && ev.datagram[1] == block
  }

  /** A reply that does not acknowledge `block`. */
  predicate Mismatch(ev: Event, block: Byte)
  {
    ev.Recv? && !Acknowledges(ev, block)
  }

  /** Number of mismatched replies among events[i..j]. */
  function CountMismatches(events: seq<Event>, block: Byte, i: nat, j: nat): nat
    requires i <= j <= |events|
    decreases j - i
  {
    if i == j then 0
    else (if Mismatch(events[i], block) then 1 else 0) + CountMismatches(events, block, i + 1, j)
  }

  /** How one block's retry loop ends: how often the packet was sent, how many
      timeouts occurred, whether the block was acknowledged, and the index of
      the first event not consumed. */
  datatype Round = Round(sends: nat, timeouts: nat, acked: bool, next: nat)

  /** The retry loop for one block, starting at event `i` with `count`
      timeouts already counted: send the packet, then receive. A matching
      acknowledgment ends the loop; a timeout is counted and the fifth ends the
      loop unacknowledged; a mismatched reply is not counted and leads
      straight to the next send. */
  function AwaitAck(block: Byte, events: seq<Event>, i: nat, count: nat): (r: Round)
    requires i <= |events| && count < MAXTRIES
    ensures i <= r.next <= |events|
    decreases |events| - i, MAXTRIES - count
  {
    var ev := if i < |events| then events[i] else Timeout;
    var after := if i < |events| then i + 1 else i;
    if Acknowledges(ev, block) then
      Round(1, 0, true, after)
    else if ev.Timeout? then
      if count + 1 == MAXTRIES then Round(1, 1, false, after)
      else
        var r := AwaitAck(block, events, after, count + 1);
        r.(sends := r.sends + 1, timeouts := r.timeouts + 1)
    else
      var r := AwaitAck(block, events, after, count);
      r.(sends := r.sends + 1)
  }

  /** How a block's retry loop ends. It ends acknowledged exactly when fewer
      than five timeouts were counted, and then only on a reply carrying the
      block in byte 1, every earlier reply having failed to match; otherwise
      it ends on the fifth timeout. Every send but the first follows a timeout
      or a mismatched reply, so the sends are the timeouts plus the
      mismatched replies, plus one for the acknowledged send. */
  lemma {:induction false} AwaitAckSpec(block: Byte, events: seq<Event>, i: nat, count: nat)
    requires i <= |events| && count < MAXTRIES
    ensures var r := AwaitAck(block, events, i, count);
      && count + r.timeouts <= MAXTRIES
      && (r.acked <==> count + r.timeouts < MAXTRIES)
      && (r.acked ==> i < r.next && Acknowledges(events[r.next - 1], block))
      && (forall j :: i <= j < r.next - (if r.acked then 1 else 0) ==> !Acknowledges(events[j], block))
      && r.sends == r.timeouts + CountMismatches(events, block, i, r.next) + (if r.acked then 1 else 0)
    decreases |events| - i, MAXTRIES - count
  {
    var ev := if i < |events| then events[i] else Timeout;
    var after := if i < |events| then i + 1 else i;
    if Acknowledges(ev, block) {
    } else if ev.Timeout? {
      if count + 1 < MAXTRIES {
        AwaitAckSpec(block, events, after, count + 1);
      }
    } else {
      AwaitAckSpec(block, events, after, count);
    }
  }

  /** Number of timeouts among events[i..j]. */
  function CountTimeouts(events: seq<Event>, i: nat, j: nat): nat
    requires i <= j <= |events|
    decreases j - i
  {
    if i == j then 0
    else (if events[i].Timeout? then 1 else 0) + CountTimeouts(events, i + 1, j)
  }

  /** Each send is followed by one receive, so the retry loop consumes one
      event per send, up to the end of the stream. An acknowledged round
      received every one of its replies from the stream. An abandoned round
      ends on a timeout and sends nothing after it: its last send is followed
      either by a timeout event or by the end of the stream. */
  lemma {:induction false} AwaitAckConsumes(block: Byte, events: seq<Event>, i: nat, count: nat)
    requires i <= |events| && count < MAXTRIES
    ensures var r := AwaitAck(block, events, i, count);
      && r.sends >= 1 && r.next == Min(i + r.sends, |events|)
      && (r.acked ==> r.sends == r.next - i)
      && (!r.acked && i + r.sends <= |events| ==> i < r.next && events[r.next - 1].Timeout?)
    decreases |events| - i, MAXTRIES - count
  {
    var ev := if i < |events| then events[i] else Timeout;
    var after := if i < |events| then i + 1 else i;
    if Acknowledges(ev, block) {
    } else if ev.Timeout? {
      if count + 1 < MAXTRIES {
        AwaitAckConsumes(block, events, after, count + 1);
      }
    } else {
      AwaitAckConsumes(block, events, after, count);
    }
  }

  /** The timeouts the retry loop counts are real ones: the timeout events it
      consumed, plus one for each receive it attempted past the end of the
      stream, where every receive times out. */
  lemma {:induction false} AwaitAckTimeouts(block: Byte, events: seq<Event>, i: nat, count: nat)
    requires i <= |events| && count < MAXTRIES
    ensures var r := AwaitAck(block, events, i, count);
      r.next <= i + r.sends && r.timeouts == CountTimeouts(events, i, r.next) + (i + r.sends - r.next)
    decreases |events| - i, MAXTRIES - count
  {
    var ev := if i < |events| then events[i] else Timeout;
    var after := if i < |events| then i + 1 else i;
    AwaitAckConsumes(block, events, i, count);
    if Acknowledges(ev, block) {
    } else if ev.Timeout? {
      if count + 1 < MAXTRIES {
        AwaitAckTimeouts(block, events, after, count + 1);
        AwaitAckConsumes(block, events, after, count + 1);
      }
    } else {
      AwaitAckTimeouts(block, events, after, count);
      AwaitAckConsumes(block, events, after, count);
    }
  }

  lemma {:induction false} NoMismatchesCounted(events: seq<Event>, block: Byte, i: nat, j: nat)
    requires i <= j <= |events|
    requires forall m :: i <= m < j ==> !Mismatch(events[m], block)
    ensures CountMismatches(events, block, i, j) == 0
    decreases j - i
  {
    if i < j {
      NoMismatchesCounted(events, block, i + 1, j);
    }
  }

  /** Unless the block's own round receives a mismatched reply, the block is
      sent at most five times before it is acknowledged or the transfer is
      abandoned; later events, such as the acknowledgments of later blocks,
      do not matter. */
  lemma AtMostFiveSends(block: Byte, events: seq<Event>, i: nat)
    requires i <= |events|
    requires forall m :: i <= m < AwaitAck(block, events, i, 0).next ==> !Mismatch(events[m], block)
    ensures AwaitAck(block, events, i, 0).sends <= MAXTRIES
  {
    var r := AwaitAck(block, events, i, 0);
    AwaitAckSpec(block, events, i, 0);
    NoMismatchesCounted(events, block, i, r.next);
  }

  // ---------------------------------------------------------------------------
  // The whole transfer

  datatype Outcome = Done | Aborted | NotFound | Ignored

  /** What the worker sent, in order, and how it ended. */
  datatype Transfer = Transfer(sent: seq<Datagram>, outcome: Outcome)

  /** `n` copies of `p`. */
  function Repeat(p: Datagram, n: nat): (ps: seq<Datagram>)
    ensures |ps| == n
    ensures forall j :: 0 <= j < n ==> ps[j] == p
  {
    if n == 0 then [] else Repeat(p, n - 1) + [p]
  }

  /** The transfer of the unread rest of a file, starting with `block` and
      reading events from `i`: each block is sent until acknowledged, a short
      block (fewer than 512 bytes, possibly none) is the last, and an
      unacknowledged block abandons the transfer. */
  function Session(rest: seq<Byte>, block: Byte, events: seq<Event>, i: nat): (t: Transfer)
    requires i <= |events|
    decreases |rest|
  {
    var r := AwaitAck(block, events, i, 0);
    var burst := Repeat(DataPacket(block, NextChunk(rest)), r.sends);
    if !r.acked then Transfer(burst, Aborted)
    else if |rest| < BLOCKSIZE then Transfer(burst, Done)
    else
      var more := Session(rest[BLOCKSIZE..], Next(block), events, r.next);
      Transfer(burst + more.sent, more.outcome)
  }

  /** A transfer of an existing file sends at least one packet and either
      completes or is abandoned. */
  lemma {:induction false} SessionEnds(rest: seq<Byte>, block: Byte, events: seq<Event>, i: nat)
    requires i <= |events|
    ensures var t := Session(rest, block, events, i);
      t.sent != [] && (t.outcome == Done || t.outcome == Aborted)
    decreases |rest|
  {
    var r := AwaitAck(block, events, i, 0);
    AwaitAckConsumes(block, events, i, 0);
    if r.acked && |rest| >= BLOCKSIZE {
      SessionEnds(rest[BLOCKSIZE..], Next(block), events, r.next);
    }
  }

  /** Whether the trimmed name refers to a file. The empty name never does. */
  predicate Exists(name: seq<Byte>, fs: map<seq<Byte>, seq<Byte>>)
  {
    name != [] && name in fs
  }

  /** What the worker does for a requested filename: trim it, look it up, and
      either send the file or the error packet. */
  function Serve(filename: seq<Byte>, fs: map<seq<Byte>, seq<Byte>>, events: seq<Event>): (t: Transfer)
    ensures t.outcome == NotFound <==> !Exists(Trim(filename), fs)
    ensures t.outcome == NotFound ==> t.sent == [ErrorPacket]
    ensures t.outcome != Ignored
  {
    var name := Trim(filename);
    if Exists(name, fs) then
      SessionEnds(fs[name], 1, events, 0);
      Session(fs[name], 1, events, 0)
    else Transfer([ErrorPacket], NotFound)
  }

  /** What the worker does for the datagram that started it. */
  function Handle(req: Datagram, fs: map<seq<Byte>, seq<Byte>>, events: seq<Event>): (t: Transfer)
    ensures t.outcome == Ignored <==> !(|req| > 0 && req[0] == RRQ)
    ensures t.outcome == Ignored ==> t.sent == []
  {
    match DecodeRequest(req)
    case None => Transfer([], Ignored)
    case Some(filename) => Serve(filename, fs, events)
  }

  // ---------------------------------------------------------------------------
  // Order of the packets sent

  /** `s` with every run of equal adjacent elements cut down to one. */
  function Collapse(s: seq<Datagram>): seq<Datagram>
  {
    if |s| <= 1 then s
    else if s[0] == s[1] then Collapse(s[1..])
    else [s[0]] + Collapse(s[1..])
  }

  lemma {:induction false} CollapseRun(p: Datagram, n: nat, rest: seq<Datagram>)
    requires n >= 1
    requires rest == [] || rest[0] != p
    ensures Collapse(Repeat(p, n) + rest) == [p] + Collapse(rest)
  {
    var s := Repeat(p, n) + rest;
    if n == 1 {
      assert s == [p] + rest;
      if rest != [] {
        assert s[1..] == rest;
      }
    } else {
      assert s[0] == p && s[1] == p;
      assert s[1..] == Repeat(p, n - 1) + rest;
      CollapseRun(p, n - 1, rest);
    }
  }

  lemma {:induction false} SessionInOrderFrom(rest: seq<Byte>, block: Byte, events: seq<Event>, i: nat)
    requires i <= |events|
    ensures Collapse(Session(rest, block, events, i).sent) <= PacketsFrom(rest, block)
    ensures Session(rest, block, events, i).outcome == Done ==>
              Collapse(Session(rest, block, events, i).sent) == PacketsFrom(rest, block)
    decreases |rest|
  {
    var r := AwaitAck(block, events, i, 0);
    AwaitAckSpec(block, events, i, 0);
    var p := DataPacket(block, NextChunk(rest));
    if !r.acked || |rest| < BLOCKSIZE {
      CollapseRun(p, r.sends, []);
      assert Repeat(p, r.sends) + [] == Repeat(p, r.sends);
    } else {
      var more := Session(rest[BLOCKSIZE..], Next(block), events, r.next);
      assert more.sent[0][1] == Next(block) != p[1];
      CollapseRun(p, r.sends, more.sent);
      SessionInOrderFrom(rest[BLOCKSIZE..], Next(block), events, r.next);
    }
  }

  /** The worker sends the data packets in block order, each one or more
      times in a row, never skipping one; a completed transfer has sent every
      one of them. */
  lemma SessionInOrder(file: seq<Byte>, events: seq<Event>)
    ensures Collapse(Session(file, 1, events, 0).sent) <= Packets(file)
    ensures Session(file, 1, events, 0).outcome == Done ==>
              Collapse(Session(file, 1, events, 0).sent) == Packets(file)
  {
    SessionInOrderFrom(file, 1, events, 0);
  }

  // ---------------------------------------------------------------------------
  // The worker

  /** The stream read: copies `n` bytes of `data` from position `pos` into
      `buf` from index `off`. */
  method Read(buf: array<Byte>, off: nat, data: seq<Byte>, pos: nat, n: nat)
    requires off + n <= buf.Length && pos + n <= |data|
    modifies buf
    ensures buf[..] == old(buf[..off]) + data[pos..pos + n] + old(buf[off + n..])
  {
    var j := 0;
    while j < n
      invariant 0 <= j <= n
      invariant forall k :: 0 <= k < off ==> buf[k] == old(buf[k])
      invariant forall k :: off <= k < off + j ==> buf[k] == data[pos + (k - off)]
      invariant forall k :: off + j <= k < buf.Length ==> buf[k] == old(buf[k])
    {
      buf[off + j] := data[pos + j];
      j := j + 1;
    }
    var front, copied, back := old(buf[..off]), data[pos..pos + n], old(buf[off + n..]);
    assert forall k :: 0 <= k < buf.Length ==> buf[..][k] == (front + copied + back)[k];
  }

  /** The retry loop for one block: send `sendPacket`, wait for a reply, and
      repeat until a reply carries `block` in byte 1 or the fifth timeout. Each
      send is appended to `sent0`. */
  method Transmit(sendPacket: Datagram, block: Byte, events: seq<Event>, i0: nat, sent0: seq<Datagram>)
    returns (sent: seq<Datagram>, ackReceived: bool, i: nat)
    requires block != 0 && i0 <= |events|
    ensures var r := AwaitAck(block, events, i0, 0);
      sent == sent0 + Repeat(sendPacket, r.sends) && ackReceived == r.acked && i == r.next
  {
    ghost var r0 := AwaitAck(block, events, i0, 0);
    sent := sent0;
    i := i0;
    var ack := new Byte[2][0, 0];   // Java zero-fills a new buffer
    ackReceived := false;
    var transmitCount := 0;
    ghost var m := 0;
    while !ackReceived
      invariant i <= |events|
      invariant sent == sent0 + Repeat(sendPacket, m)
      invariant !ackReceived ==> transmitCount < MAXTRIES && ack[1] != block
      invariant !ackReceived ==>
                  var r := AwaitAck(block, events, i, transmitCount);
                  m + r.sends == r0.sends && r.acked == r0.acked && r.next == r0.next
      invariant ackReceived ==> r0.acked && m == r0.sends && i == r0.next
      decreases |events| - i, MAXTRIES - transmitCount
    {
      sent := sent + [sendPacket];
      m := m + 1;
      var ev := if i < |events| then events[i] else Timeout;
      i := if i < |events| then i + 1 else i;
      if ev.Recv? {
        // the receive copies at most the two bytes the buffer holds
        if |ev.datagram| >= 1 { ack[0] := ev.datagram[0]; }
        if |ev.datagram| >= 2 { ack[1] := ev.datagram[1]; }
        if block == ack[1] {
          ackReceived := true;
        }
      } else {
        transmitCount := transmitCount + 1;
        if transmitCount >= MAXTRIES {
          return;
        }
      }
    }
  }

  /** One step of Session: the retry loop for the next block, then the
      abort, the end, or the rest of the transfer. */
  lemma SessionStep(rest: seq<Byte>, block: Byte, events: seq<Event>, i: nat)
    requires i <= |events|
    ensures var r := AwaitAck(block, events, i, 0);
      var burst := Repeat(DataPacket(block, NextChunk(rest)), r.sends);
      && (!r.acked ==> Session(rest, block, events, i) == Transfer(burst, Aborted))
      && (r.acked && |rest| < BLOCKSIZE ==> Session(rest, block, events, i) == Transfer(burst, Done))
      && (r.acked && |rest| >= BLOCKSIZE ==>
            Session(rest, block, events, i) ==
              Transfer(burst + Session(rest[BLOCKSIZE..], Next(block), events, r.next).sent,
                       Session(rest[BLOCKSIZE..], Next(block), events, r.next).outcome))
  {
  }

  lemma AppendAssoc(a: seq<Datagram>, b: seq<Datagram>, c: seq<Datagram>)
    ensures (a + b) + c == a + (b + c)
  {
  }

  lemma MultipleStep(pos: nat)
    requires pos % BLOCKSIZE == 0
    ensures (pos + BLOCKSIZE) % BLOCKSIZE == 0
  {
  }

  lemma ShortTail(pos: nat, n: nat)
    requires pos % BLOCKSIZE == 0 && n < BLOCKSIZE
    ensures (pos + n) % BLOCKSIZE == n
  {
  }

  /** Builds the data packet for `block` in a fresh buffer: the opcode, the
      block number, then `n` bytes read from the stream at `pos`. */
  method BuildDataPacket(block: Byte, data: seq<Byte>, pos: nat, n: nat) returns (sendPacket: Datagram)
    requires pos + n <= |data|
    ensures sendPacket == DataPacket(block, data[pos..pos + n])
  {
    var sendData := new Byte[n + 2];
    sendData[0] := DATA;
    sendData[1] := block;
    Read(sendData, 2, data, pos, n);
    sendPacket := sendData[..];
  }

  /** The transfer of an existing file's contents `data`: read up to 512
      bytes, send them as the next block until it is acknowledged, advance the
      block number, and stop after the short (possibly empty) final block. An
      empty final block is sent exactly when the size is a multiple of 512. */
  method SendData(data: seq<Byte>, events: seq<Event>) returns (sent: seq<Datagram>, outcome: Outcome)
    ensures Transfer(sent, outcome) == Session(data, 1, events, 0)
  {
    ghost var total := Session(data, 1, events, 0);
    var pos: nat := 0;          // the stream's position; available() is |data| - pos
    var block: Byte := 1;
    var sendEOF := (|data| - pos) % BLOCKSIZE == 0;
    var lastRun := false;
    var i: nat := 0;            // events consumed so far
    ghost var finished := false;
    ghost var remaining := total;
    sent := [];
    while true
      invariant pos <= |data| && i <= |events| && !lastRun
      invariant sendEOF == (|data| % BLOCKSIZE == 0)
      invariant sent + remaining.sent == total.sent && remaining.outcome == total.outcome
      invariant finished ==> pos == |data| && !sendEOF && remaining == Transfer([], Done)
      invariant !finished ==> pos % BLOCKSIZE == 0 && remaining == Session(data[pos..], block, events, i)
      decreases |data| - pos
    {
      if |data| - pos == 0 {
        if !sendEOF {
          break;
        } else {
          lastRun := true;
        }
      }
      ghost var rest := data[pos..];
      var packetSize := Min(|data| - pos, BLOCKSIZE);
      var sendPacket := BuildDataPacket(block, data, pos, packetSize);
      assert sendPacket == DataPacket(block, NextChunk(rest));
      pos := pos + packetSize;

      ghost var r := AwaitAck(block, events, i, 0);
      SessionStep(rest, block, events, i);
      ghost var sentBefore := sent;
      var acked;
      sent, acked, i := Transmit(sendPacket, block, events, i, sent);
      if !acked {
        outcome := Aborted;
        return;
      }
      ghost var burst := Repeat(sendPacket, r.sends);
      if packetSize < BLOCKSIZE {
        ShortTail(pos - packetSize, packetSize);
        finished, remaining := true, Transfer([], Done);
      } else {
        MultipleStep(pos - packetSize);
        assert data[pos..] == rest[BLOCKSIZE..];
        ghost var more := Session(rest[BLOCKSIZE..], Next(block), events, i);
        AppendAssoc(sentBefore, burst, more.sent);
        remaining := more;
      }

      if block >= BYTESIZE {
        block := 0;
      }
      block := block + 1;

      if lastRun {
        break;
      }
    }
    outcome := Done;
  }

  /** Sends the file `filename` names, or the error packet when there is no
      such file. */
  method SendFile(filename: seq<Byte>, fs: map<seq<Byte>, seq<Byte>>, events: seq<Event>)
    returns (sent: seq<Datagram>, outcome: Outcome)
    ensures Transfer(sent, outcome) == Serve(filename, fs, events)
  {
    var name := Trim(filename);
    if !Exists(name, fs) {
      var sendData := new Byte[15];
      sendData[0] := ERROR;
      sendData[1] := 102;
      sendData[2] := 105;
      sendData[3] := 108;
      sendData[4] := 101;
      sendData[5] := 32;
      sendData[6] := 110;
      sendData[7] := 111;
      sendData[8] := 116;
      sendData[9] := 32;
      sendData[10] := 102;
      sendData[11] := 111;
      sendData[12] := 117;
      sendData[13] := 110;
      sendData[14] := 100;
      assert sendData[..] == [ERROR, 102, 105, 108, 101, 32, 110, 111, 116, 32, 102, 111, 117, 110, 100];
      sent := [sendData[..]];
      outcome := NotFound;
      return;
    }
    sent, outcome := SendData(fs[name], events);
  }

  /** The worker's entry point: acts on a read request and ignores any other
      datagram. */
  method Run(req: Datagram, fs: map<seq<Byte>, seq<Byte>>, events: seq<Event>)
    returns (sent: seq<Datagram>, outcome: Outcome)
    ensures Transfer(sent, outcome) == Handle(req, fs, events)
  {
    match DecodeRequest(req) {
      case None =>
        sent, outcome := [], Ignored;
      case Some(filename) =>
        sent, outcome := SendFile(filename, fs, events);
    }
  }
}
