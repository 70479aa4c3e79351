# A verified model of a basic UDP file-transfer server and client

This project models the two sides of a small TFTP-like, read-only,
stop-and-wait file transfer. It is not RFC 1350: the opcodes are RRQ=1,
DATA=2, ACK=3 and ERROR=4, the block number is a single byte, and no field
carries a terminator.

- The **server worker** is created for one request datagram. It acts only when
  byte 0 is the read-request opcode. It trims the filename and looks the file
  up. A missing file gets the one fixed 15-byte error packet. Otherwise the
  worker sends the file in blocks of 512 bytes. Each block is sent
  stop-and-wait: it is resent after every timeout and after every reply that
  does not carry the block number in byte 1, and the fifth timeout for a block
  abandons the transfer.
- The **client** sends the read request. It then receives data packets, writes
  the expected block to its output, and acknowledges what it received. It stops
  on a short data packet, on a non-data packet (whose bytes after the opcode are
  the message) or on a receive timeout.

Sockets are replaced by a finite stream of receive events, `Recv(datagram)` or
`Timeout`; reading past the end of the stream counts as a timeout. The file
system is a map from names to contents, and the client's output file is a byte
sequence.

Files:

- `wire.dfy` (module `Wire`): bytes, opcodes, packet builders, receive buffers,
  and the one-byte block counter.
- `server.dfy` (module `Server`): request decoding and trimming, chunking, the
  per-block retry loop, the whole transfer as a specification function, and
  the worker as imperative methods proved equal to it.
- `client.dfy` (module `Client`): the receive loop as a step function, and the
  client session as a loop proved equal to it.
- `exchange.dfy` (module `Exchange`): properties that connect the two sides —
  request decoding, acknowledgment matching, the lossless exchange and the
  missing-file case.

Behaviour of the code worth knowing, all of it modelled as written:

- The block counter goes from 255 to **1**: the reset to 0 is followed at
  once by the increment (TftpServer.java:89-91, TftpClient.java:76-80).
- A reply whose byte 1 is not the current block is not a timeout. The worker
  sends the data packet again at once, and its timeout counter is
  unchanged (TftpServer.java:65-74).
- The worker's timeout counter starts at 0 for each block and is never reset
  while the block is in flight, so it counts every timeout of that block
  (TftpServer.java:64, 79-81).
- A zero-length datagram makes the client throw while it builds the error
  message (TftpClient.java:92). This is modelled as the outcome
  `EmptyDatagram`.
- A name that is empty after trimming never names an existing file
  (TftpServer.java:23-26), so the worker answers it with the error packet.

## Model

| member | source | states |
|---|---|---|
| Wire.Next | TftpServer.java:88-91 | the block counter step never yields 0 and always changes the block number |
| Wire.BlockNumber | TftpServer.java:29 | the number carried by the k-th data block (first block 1, then the counter step) is never 0 |
| Wire.BlockNumberCounts | TftpServer.java:29-91 | the first 255 blocks are numbered 1 to 255 |
| Wire.BlockNumberPeriod | TftpServer.java:88-91 | block numbers repeat with period 255 |
| Wire.BlockNumberWraps | TftpServer.java:88-91 | block k carries k % 255 + 1, so numbering runs 1..255, 1, 2, … and 0 never occurs |
| Wire.BlockNumbersDiffer | TftpClient.java:74-80 | consecutive blocks carry different numbers |
| Wire.RequestPacket | TftpClient.java:115-124 | the read request is the opcode 1 followed by exactly the filename bytes, with no terminator and no mode field |
| Wire.DataPacket | TftpServer.java:51-53 | a data packet is payload + 2 bytes long: the opcode 2, the block number, then the payload |
| Wire.AckPacket | TftpClient.java:105-109 | an acknowledgment is exactly 2 bytes: the opcode 3, then the block number |
| Wire.Truncate | TftpClient.java:51-55 | a receive into a buffer keeps a prefix of the datagram no longer than the buffer, and the whole datagram whenever it does not fill the buffer; its length is the packet length the receiver sees |
| Wire.ErrorPacketLayout | TftpServer.java:103-121 | the error packet is 15 bytes with opcode 4, so it is not a data packet and a 514-byte receive buffer holds it whole |
| Server.Trim | TftpServer.java:23 | trimming yields `s` without its blank (≤ 0x20) ends: the result starts right after the leading blanks, only blanks follow it, and it has no blank at either end; it leaves such a name unchanged and is empty exactly when every byte is blank |
| Server.LeadingBlanks | TftpServer.java:23 | the number of leading blank bytes: all of them are blank, and the next byte is not |
| Server.TrailingStart | TftpServer.java:23 | where the trailing blank bytes start: all after it are blank, and the byte before it is not |
| Server.TrimUnique | TftpServer.java:23 | a non-blank middle surrounded only by blanks is exactly what trim yields |
| Server.TrimPadding | TftpServer.java:23 | appending NUL padding to any name never changes what trim yields |
| Server.DecodeRequest | TftpServer.java:134-137 | the worker acts exactly when the datagram is non-empty and byte 0 is 1; the filename is the 1471 buffer bytes after byte 0: byte j is byte j + 1 of the datagram, or 0 past its end |
| Server.DecodeRequestName | TftpServer.java:23-26 | the name looked up is bytes 1.. of the request, as far as the 1472-byte buffer holds them, trimmed |
| Server.Chunks | TftpServer.java:37-54 | a file of size S gives S/512 + 1 blocks, all 512 bytes long except the last, which has S % 512 bytes and is empty when S is a multiple of 512, 0 included |
| Server.ChunksReassemble | TftpServer.java:49-54 | the blocks concatenated in order are exactly the file |
| Server.NextChunkIsFirst | TftpServer.java:49-54 | the block sent next is the first chunk of the unread rest of the file |
| Server.PacketsFrom | TftpServer.java:41-93 | the data packets start with the current block and chunk; every one has opcode 2 and a length between 2 and 514 |
| Server.PacketsFromAt | TftpServer.java:41-93 | there is one packet per block, and packet k carries the k-th block number after the first and the k-th chunk |
| Server.PacketsLayout | TftpServer.java:37-93 | a file of size S gives S/512 + 1 packets; packet k is 2, k % 255 + 1, then the k-th chunk; it is 514 bytes long exactly when it is not the last |
| Server.AwaitAck | TftpServer.java:63-86 | the retry loop for one block consumes events only from its starting index on |
| Server.AwaitAckSpec | TftpServer.java:63-86 | the retry loop counts at most 5 timeouts and ends acknowledged exactly when it counted fewer than 5. It is acknowledged only by a reply whose byte 1 is the block (byte 0 unchecked), with no earlier reply matching. Sends are timeouts plus mismatched replies, plus one for the acknowledged send |
| Server.AwaitAckConsumes | TftpServer.java:65-84 | every send is followed by one receive: the loop sends at least once and consumes one event per send, up to the end of the stream, so it never skips an acknowledgment that has arrived. An acknowledged round got every reply from the stream. An abandoned round ends on the fifth timeout with no send after it: its last send is followed by a timeout event, or by the end of the stream |
| Server.AwaitAckTimeouts | TftpServer.java:75-84 | the timeouts the loop counts are real ones: exactly the timeout events it consumed, plus one for each receive past the end of the stream |
| Server.AtMostFiveSends | TftpServer.java:65-84 | when the block's own round receives no mismatched reply, the block is sent at most 5 times, whatever arrives after the round |
| Server.Acknowledges | TftpServer.java:60-74 | for a block other than 0, a reply acknowledges the block exactly when byte 1 of the zero-filled 2-byte reply buffer equals it; byte 0 is not inspected |
| Server.SessionInOrderFrom | TftpServer.java:41-94 | from any point, the distinct packets sent, in order, are a prefix of the data packets still due; a completed transfer sent all of them |
| Server.SessionInOrder | TftpServer.java:41-94 | the worker sends the data packets in block order, each one or more times in a row, never skipping one; a completed transfer sent every packet of the file |
| Server.SessionEnds | TftpServer.java:41-94 | the transfer of an existing file sends at least one packet and either completes or is abandoned |
| Server.Serve | TftpServer.java:19-131 | the error packet, alone, is sent exactly when the trimmed name is empty or names no file; the transfer is never reported as ignored |
| Server.Handle | TftpServer.java:133-142 | a datagram is ignored, with nothing sent, exactly when it is empty or its byte 0 is not 1 |
| Server.Read | TftpServer.java:54 | the stream read copies the requested bytes into the buffer at the offset and changes nothing else |
| Server.Transmit | TftpServer.java:60-86 | the imperative retry loop, with its fresh 2-byte reply buffer and timeout counter, sends and consumes exactly what the retry-loop specification says |
| Server.BuildDataPacket | TftpServer.java:49-54 | the packet built is opcode 2, the block number, then the bytes read |
| Server.SendData | TftpServer.java:28-94 | the imperative sender loop, including the end-of-file flag and the final empty block, produces exactly the transfer the specification defines |
| Server.SendFile | TftpServer.java:19-131 | a missing file gets exactly the 15-byte error packet; an existing file is sent as the specification defines |
| Server.Run | TftpServer.java:133-142 | a datagram that is not a read request is ignored; a read request is served |
| Client.Start | TftpClient.java:40-47 | after the request, which is the only datagram sent, the client expects block 1 with last block 0 and an empty sink, so the loop invariant holds |
| Client.Step | TftpClient.java:49-95 | the loop invariant block = next(lastBlock) is kept. The loop goes on exactly after a data packet of full 514-byte length; a shorter data packet ends it as finished, matched or not. Any data packet is acknowledged: the expected one with its own block, any other with the last block. The sink grows only by an accepted payload. Another block number changes neither counter nor sink. A non-data packet ends with bytes 1.. as the message, a zero-length datagram ends with the failure, and a timeout ends the session |
| Client.LostAckRecovery | TftpClient.java:82-85 | after a full packet is accepted, receiving it again writes nothing and sends the same acknowledgment again |
| Client.Run | TftpClient.java:49-95 | the loop always ends, keeps the invariant, and the sink only grows |
| Client.Session | TftpClient.java:40-95 | the imperative client loop sends, writes and ends exactly as the step specification defines |
| Exchange.RequestRoundTrip | TftpClient.java:115-124 | the worker acts on every request the client sends and looks up the name it carried, trimmed, as far as the listener buffer holds it; a name shorter than that buffer is looked up as the trim of the name itself |
| Exchange.AckRoundTrip | TftpClient.java:105-109 | an acknowledgment matches exactly the block it carries |
| Exchange.AcksFrom | TftpClient.java:65-85 | a lossless client sends one acknowledgment per data packet |
| Exchange.AcksMatchPackets | TftpClient.java:65-85 | each acknowledgment carries the block number of the data packet at the same position |
| Exchange.ServerLosslessFrom | TftpServer.java:63-93 | when every acknowledgment arrives at once, the worker sends each data packet exactly once and completes |
| Exchange.ClientAccepts | TftpClient.java:62-89 | the expected data packet is written, acknowledged, advances the block, and ends the session exactly when it is short |
| Exchange.ClientLosslessFrom | TftpClient.java:49-95 | fed the data packets in order without loss, the client writes exactly the file's rest, acknowledges every packet and stops after the last |
| Exchange.LosslessExchange | TftpClient.java:46-95 | for any requested name whose trimmed form names a file: in a lossless exchange the client writes exactly the file and reports success, whatever follows; the worker, given the client's request and acks, sends each data packet once and completes, never reading past the last ack |
| Exchange.MissingFile | TftpServer.java:101-123 | for any requested name whose trimmed form is empty or names no file, the worker sends exactly the 15-byte error packet and nothing else; the client writes nothing, sends only its request and reports "file not found" |

## Left out

- The listener (`TftpServer.start_server` and `main`): binding, the endless
  receive loop and one thread per request. One worker is modelled, run
  sequentially, with the request datagram it was given.
- Sockets, addresses and ports: every datagram is taken to come from and go to
  the peer. Timeout durations (1 s on the server, 5 s on the client) are
  not modelled; a timeout is an event in the stream.
- The file system: the file is a map entry. Stream reads are taken to fill the
  requested length, and `available()` is the number of unread bytes. The
  client's output file is the sink sequence; writes cannot fail.
- The file map holds only readable regular files, under names without a NUL
  byte. A name that exists but cannot be opened, such as a directory, makes the
  worker throw inside its `try` (TftpServer.java:27-28, 98) and send nothing,
  so the client times out; the model has no such name.
- Command-line parsing, host name resolution, all logging and the
  unconditional success message of the client.
- Charset conversion: filenames and messages are byte sequences. The worker
  drops the first decoded character, and that is modelled as dropping the
  first byte.
- Exception catch-alls other than the client's failure on a zero-length
  datagram (for example a failure to open a socket).
- Server.Transmit: a reply shorter than two bytes is copied into the 2-byte
  buffer as it arrives. The Java packet object's shrinking receive length,
  which truncates later replies further, is not modelled.
