# Three-way handshake and confirmed echo over C sockets — a Dafny model

The system is a single-server, multi-client pair of C programs (`server.c`,
`client.c`). Every frame starts with a fixed 13-byte header
(`struct capshdr`): version, ack, syn, seq, bufsize, checksum and len.

- **Handshake.** A client opens a connection with a SYN / SYN-ACK / ACK
  exchange. The ISNs are 1001 (client) and 2001 (server), and all arithmetic
  is on 16-bit fields.
- **Echo.** Afterwards the server echoes each message a client sends as a data
  frame: header plus payload. The header carries the RFC 1071 Internet
  checksum of the payload.
- **Confirmation.** Every step is confirmed by a status reply. The sender
  retransmits the identical frame at most 3 times while the status is not 1
  and gives up after that. The receiver re-reads and re-checks, replying 0,
  until a frame passes or the peer closes.
- **Slot table.** The server keeps its connected clients in a 30-slot
  descriptor table.

The model has seven modules:

- `Wire` (`wire.dfy`): the header as a datatype and the byte layout as an
  `Encode`/`Decode` pair with both round trips. `pack_*`,
  `serialize_header` and `deserialize_header` are methods that write into or
  read from a caller's `array` in place.
- `InternetChecksum` (`checksum.dfy`): `ichecksum` as the C routine runs it.
  There is a loop over the words into a 32-bit accumulator, a trailing odd
  byte, a carry-folding loop and a truncated complement. The loop is proved
  equal to a specification function, and that function is related to the
  one's-complement sum. Words are read in host order; the model fixes a
  little-endian host, so word *i* is `b[2i] + 256*b[2i+1]`.
- `Confirm` (`confirm.dfy`): the sender's bounded retry and the receiver's
  confirmation loop, as generic methods over a finite script.
  - Each status read is an `Option<int>`: `None` is a status `sscanf` cannot
    parse, which leaves the status variable as it was (it starts at 1).
  - A receiver's input is the finite list of frames its later reads return
    before end of stream.
- `Handshake` (`handshake.dfy`): the frames each side builds, each side's
  acceptance checks, and both handshake sequences. It also runs the two
  against each other over a clean transport.
- `Delivery` (`delivery.dfy`): the echo frame, the client's receipt and
  integrity checks, the server's two confirmation rounds, and the client's two
  receive loops. It also has two complete cycles: a non-empty message, and a
  message whose first byte is NUL.
- `Slots` (`slots.dfy`): the `client_socket[30]` table as a class over an
  array (zero-initialisation, first-free insert, release, readiness scan).
- `Options` (`options.dfy`): the `Option` type used for status reads and free
  slots.

Points where a plain description of the protocol and the code disagree. The
model follows the code:

- The checksum pairs bytes low byte first (host order on a little-endian
  machine), not big-endian.
- A trailing odd byte is added to the sum before carries are folded, not after.
- The checksum is not sensitive to every reordering. `ChecksumIgnoresBlockOrder`
  proves that swapping two word-aligned blocks leaves it unchanged. It does
  detect any single changed byte, which `ChecksumDetectsByteChange` proves.
- A sender treats a first status it cannot parse as a success, because the
  status variable is initialised to 1.

The server's first ACK check subtracts 1 from ack before comparing it with
2002. So the genuine ACK (ack 2002) is refused once and accepted by the retry
check. The model keeps this behaviour, and `HonestHandshake` and
`CleanHandshake` prove its effect: the ACK always takes two transmissions.

## Model

| member | source | states |
|---|---|---|
| Wire.PackUnpackU16 | server.c:568-575 | unpack_uint16_t inverts pack_uint16_t for every 16-bit value, and packing an unpacked pair gives back the two bytes |
| Wire.UnpackU8 | server.c:581-583 | the byte read through `char` equals the stored byte modulo 256; bytes below 0x80 come back unchanged, bytes of 0x80 or more come back sign-extended (at least 0xFF80) |
| Wire.DecodeEncode | server.c:585-603 | deserialize_header(serialize_header(h)) == h for every header, including the version field despite the sign extension |
| Wire.EncodeDecode | server.c:585-603 | re-encoding a decoded header gives back the first 13 bytes exactly, so the codec is a bijection on 13-byte blocks |
| Wire.PackU8Into | server.c:577-579 | pack_uint8_t stores the byte at the given offset and changes nothing else |
| Wire.PackU16Into | server.c:568-571 | pack_uint16_t stores the low byte at the offset and the high byte after it, and changes no other byte |
| Wire.SerializeHeader | server.c:585-593 | serialize_header writes exactly bytes 0..12 with the encoded header (version at 0; ack, syn, seq, bufsize, checksum, len at 1, 3, 5, 7, 9, 11, low byte first) and leaves every other byte unchanged |
| Wire.DeserializeHeader | server.c:595-603 | deserialize_header yields the one header whose encoding is the buffer's first 13 bytes |
| InternetChecksum.Fold | server.c:560-563 | the carry-folding loop ends with a value of at most 0xFFFF that is congruent to the input modulo 0xFFFF (end-around carry), and is 0 only for 0 |
| InternetChecksum.FoldCarries | server.c:560-563 | the folding loop, run on any sum, ends with exactly Fold of it |
| InternetChecksum.Checksum | server.c:539-566 | an empty or negative length gives 0xFFFF; the result is 0xFFFF exactly when the 32-bit sum of the words and trailing byte is 0 |
| InternetChecksum.IChecksum | server.c:539-566 | the loop over ptr/count, the odd-byte step, the folding loop and the truncated `~sum` compute exactly Checksum(data, len), for every length including 0, odd and negative |
| InternetChecksum.OnesComplementSum | server.c:546-565 | up to 2^17 bytes the 32-bit accumulator never wraps, and the complement of the result is congruent modulo 0xFFFF to the plain sum of the little-endian words plus the trailing byte |
| InternetChecksum.RawSumAppend | server.c:550-558 | the sum over a concatenation whose first part is a whole number of words is the sum of the parts' sums |
| InternetChecksum.ChecksumIgnoresBlockOrder | server.c:539-566 | swapping two word-aligned blocks leaves the checksum unchanged |
| InternetChecksum.RawSumUpdate | server.c:550-558 | replacing byte i changes the sum by the change in that byte, weighted 1 for a low byte and 256 for a high byte |
| InternetChecksum.RawSumDetectsByteChange | server.c:550-558 | replacing any one byte by a different value changes the sum modulo 0xFFFF, since the sum moves by the byte's change times 1 or 256 |
| InternetChecksum.ChecksumDetectsByteChange | server.c:539-566 | up to 2^17 bytes, replacing any one byte by a different value changes the checksum, the guarantee against corruption the server relies on |
| Confirm.FirstPass | server.c:190-220 | where a receiver loop stops: 0 exactly when the first frame passes; otherwise the 1-based index of the first later frame that passes, with every frame before it refused; or one past the last frame when none passes |
| Confirm.AwaitWithRetry | server.c:477-523 | read a status, then at most 3 identical retransmissions; every status before the last one read was not 1; confirmed exactly when the last status read is 1; failed only after all 3 retransmissions |
| Confirm.SendWithRetry | server.c:231-273 | one transmission plus the retries: between 1 and 4 identical frames, none sent after a status 1, confirmed exactly when the final status is 1, failed only after 4 transmissions |
| Confirm.ReceiveUntilAccepted | server.c:176-220 | the loop stops at FirstPass: it accepts that frame with replies Zeros(at) + [1], or, when no frame passes, ends on end of stream with a 0 for every frame |
| Confirm.UnparsedFirstStatusConfirms | server.c:236-241 | a first status that sscanf cannot parse leaves the status at its initial 1, so the phase is confirmed |
| Confirm.RefusalPersists | client.c:263-298 | after a refused status, statuses that cannot be parsed keep the refusal, so a peer that refuses once and then closes uses up all retries |
| Handshake.ClientSyn | client.c:140-144 | the client's SYN has version 1, ack 0, syn 1, seq 1001 and bufsize 4096, and passes the server's SYN check |
| Handshake.SynAck | server.c:227-229 | the SYN-ACK updates the SYN in place: syn 1, seq 2001, ack = received seq + 1 mod 2^16, other fields unchanged; the client accepts it exactly when the SYN carried seq 1001 |
| Handshake.TakeSynAck | client.c:195-201 | the client takes ack, syn and seq from the SYN-ACK frame and keeps every other field of its own SYN |
| Handshake.ClientAck | client.c:254-257 | the ACK sets syn 0, seq = the ack received, ack = server seq + 1 mod 2^16, other fields unchanged; for a server seq of 2001 it passes the retry check and fails the first check |
| Handshake.FirstAckAccepted | server.c:284-285 | the first ACK check, which decrements ack modulo 2^16 before comparing, accepts exactly ack == 2003 |
| Handshake.HonestHandshake | server.c:176-314 | with every frame passing through the codec, the honest SYN and SYN-ACK are accepted, and the genuine ACK is refused by the first check and accepted by the retry check |
| Handshake.ServerHandshake | server.c:172-330 | SYN loop, SYN-ACK retry, ACK loop. The SYN replies are 0s up to the first SYN (first or re-read) passing the syn check, then 1; the SYN-ACK is SynAck of exactly that frame, sent 1 to 4 times identically; no SYN passing means PeerClosed with no SYN-ACK. Retries are exhausted exactly when the final status is not 1. Once the SYN-ACK is confirmed, the ACK replies are 0s up to the first ACK passing (the decrementing check on the first, the plain check on re-reads), then 1; established exactly when one passes, PeerClosed otherwise; established implies the server holds ack 2002, and the accepted re-read frame is its state |
| Handshake.ClientHandshake | client.c:139-299 | SYN retry, SYN-ACK loop, ACK retry: every SYN is the fixed client SYN, sent 1 to 4 times, retries exhausted exactly when the final status is not 1, and then no SYN-ACK is answered. Once the SYN is confirmed, the SYN-ACK replies are 0s up to the first SYN-ACK passing the check, then 1, and the client's state is its SYN updated from exactly that frame; no SYN-ACK passing means PeerClosed with no ACK sent. Every ACK is ClientAck of that state (seq 1002, syn 0, version 1, bufsize 4096), sent 1 to 4 times; established exactly when the final ACK status is 1, and an exhausted ACK phase has sent exactly 4 ACKs |
| Handshake.CleanHandshake | server.c:172-330 | client and server run against each other over a clean transport both end established, the ACK needing exactly 2 transmissions |
| Delivery.CStrLen | client.c:357 | strlen: every byte before the result is non-NUL, and the byte at the result is NUL unless it is the end |
| Delivery.EchoFrame | server.c:386-400 | the echo frame has version 1, ack/syn/seq 0, the negotiated bufsize, len = payload length, checksum = ichecksum of the payload, and the payload at bytes 13..13+len |
| Delivery.CopyPayload | server.c:400 | memcpy puts the payload at bytes 13.. and leaves the header bytes and the rest of the buffer unchanged |
| Delivery.WriteEchoFrame | server.c:389-400 | serialize_header then memcpy leave exactly the echo frame in the buffer's first 13+len bytes and nothing else changed |
| Delivery.ReceiptAccepted | client.c:357 | the receipt check passes exactly when len > 0, the frame has a payload byte, and that first byte is not NUL |
| Delivery.IntegrityStopsAtNul | client.c:422 | the integrity check covers the payload only up to its first NUL: frames that agree up to that NUL get the same verdicts whatever bytes follow |
| Delivery.EchoPassesChecks | server.c:394-395 | the echo of a NUL-free payload passes integrity, passes receipt exactly when it is non-empty, and delivers exactly that payload |
| Delivery.CorruptedEchoRefused | client.c:422 | an echo of a C string with one payload byte changed to another non-NUL byte fails the integrity check |
| Delivery.ServeMessage | server.c:384-523 | every transmission is the echo frame of the message's C string; the receipt round sends 1 to 4 times; the integrity round starts only after receipt is confirmed and retransmits at most 3 times; each end is reached exactly under its status condition |
| Delivery.IntegrityRound | client.c:422-472 | the integrity check and its loop: replies 0 up to the first frame (the receipt-accepted one, then re-reads) whose checksum matches ichecksum over strlen(payload) bytes, then 1, and that frame's C string is received; end of stream with none matching closes |
| Delivery.ClientReceive | client.c:332-473 | the receipt loop stops at the first frame of [first] + more passing receipt, replying Zeros(r) + [1]; the integrity round starts on that same frame and reads on from there, and its replies follow; no frame passing receipt gives a 0 for every frame and closes |
| Delivery.ReceiveOutcomeShape | client.c:357-472 | whatever frames arrive, the client replies only 0s and 1s, at least once and at most once per frame plus one, ending in 1 whenever it receives a payload |
| Delivery.FirstFrameDelivered | client.c:357-430 | a first frame passing both checks is answered [1, 1] and its C string is received, whatever frames would follow |
| Delivery.CleanDelivery | server.c:384-523 | a non-empty message over a clean transport is sent once, confirmed with replies [1, 1], and received as exactly its C string |
| Delivery.EmptyDelivery | server.c:409-455 | a message starting with NUL is refused receipt 4 times, the server exhausts its retries and the client sees end of stream |
| Slots.FirstFree | server.c:351-357 | the lowest index holding 0, or none exactly when no slot is 0 |
| Slots.ClientTable.constructor | server.c:107-109 | all 30 slots start at 0 |
| Slots.ClientTable.Insert | server.c:351-357 | the descriptor goes into the lowest zero slot and no other slot changes; with no zero slot the table is unchanged |
| Slots.ClientTable.Release | server.c:381-382 | a zero-length read zeroes exactly that connection's slot |
| Slots.ClientTable.WatchSet | server.c:126-146 | the watched set is the listening descriptor plus every positive slot; max_sd is the largest of the listening descriptor and all slots, and is one of them |

Definitions without a row of their own, and the rows whose contracts state
them:

- `Wire.Encode` and `Wire.Decode` (server.c:585-603): `Wire.DecodeEncode`,
  `Wire.EncodeDecode`, `Wire.SerializeHeader`, `Wire.DeserializeHeader`.
- `Confirm.Absorb`, `Confirm.StatusSlot` and `Confirm.StatusAfter` (the status
  starts at 1 and a status sscanf cannot parse keeps the previous value,
  server.c:236-239): `Confirm.UnparsedFirstStatusConfirms`,
  `Confirm.RefusalPersists`, `Confirm.AwaitWithRetry`, `Confirm.SendWithRetry`.
- `Confirm.AcceptedFrame`, `Confirm.Zeros`, `Confirm.Drop`: `Confirm.ReceiveUntilAccepted`,
  `Delivery.ServeMessage` and the handshake rows.
- `Handshake.SynAccepted` (server.c:176-177, 205): `Handshake.ClientSyn`,
  `Handshake.ServerHandshake`.
- `Handshake.SynAckAccepted` (client.c:201, 231): `Handshake.SynAck`,
  `Handshake.ClientHandshake`.
- `Handshake.AckAccepted` (server.c:314): `Handshake.ClientAck`,
  `Handshake.HonestHandshake`, `Handshake.ServerHandshake`.
- `Delivery.IntegrityAccepted` (client.c:422, 459): `Delivery.IntegrityStopsAtNul`,
  `Delivery.EchoPassesChecks`, `Delivery.IntegrityRound`.
- `Delivery.PayloadOf` (client.c:348-349, 382-383): `Delivery.EchoFrame` (the
  payload read back is the one sent), `Delivery.ReceiptAccepted`.
- `Delivery.EchoHeader` (server.c:389-396): `Delivery.EchoFrame`,
  `Delivery.WriteEchoFrame`.
- `Delivery.IntegrityOutcome` and `Delivery.ReceiveOutcome`: the contracts of
  `Delivery.IntegrityRound` and `Delivery.ClientReceive`.
- `Delivery.CString`: `Delivery.CStrLen`, `Delivery.EchoPassesChecks`.

## Left out

- Sockets and I/O are not modelled: socket setup, accept/connect, getpeername, select and FD_SET. Each read is replaced by an input script and each write by an output trace.
  - `WatchSet` computes the set that is passed to select; select itself and the choice of which ready descriptor to serve are not modelled.
- The interleaving of several clients on one server is not modelled, nor is the main select loop around it. Each connection's handshake and each delivery cycle are modelled on their own.
- `delay()` is not modelled: it is a wall-clock busy-wait, with no effect on the protocol.
- Printing is not modelled: print_header, printf, and the client's interactive scanf loop. The client's message is a parameter.
- Status text is not modelled: the 256-byte status slots written with sprintf and read with sscanf are reduced to `Option<int>`. A read that returns no bytes leaves the status buffer holding no new number, which is `None`. This includes the SYN status read at client.c:168-170, where the memset clears the frame buffer instead of the status buffer.
- Padding is not modelled: frames are padded to SHAKESIZE or bufsize bytes. The model keeps only their meaningful part, the header or the header plus payload.
- Frames shorter than 13 bytes are not modelled: `Delivery.Frame` requires a whole header.
- `exit(0)` on exhausted retries or end of stream ends the whole process (for the server, every connection). The model ends the modelled sequence with a terminal outcome instead (`RetriesExhausted`, `PeerClosed`, `ReceiptExhausted`, `IntegrityExhausted`, `ServerClosed`).
- `shandshake.bufsize` is one global shared by every connection, and the last handshake sets it. `ServeMessage` takes it as a parameter.
- Delivery.ServeMessage: requires that the message's C string fits the 1024-byte strcpy target and the frame fits the buffer (13 + length). It also assumes the message read is NUL-terminated inside the buffer. The C code overruns memory otherwise (server.c:386-400).
- Delivery.ClientReceive: the payload is the frame's bytes from 13 on, cut at len or at the end of the frame. The C copy into `malloc(len)` has no terminator, and a later `memset(payload, 0, BUFSIZE)` writes past it (client.c:348, 382). The `sizeof(char*)` sizing of the client buffer (client.c:312) is also not modelled.
- The client's copies of the codec and checksum (client.c:485-555) are identical to the server's, so the model uses the same functions for both.
- The inline unpack at client.c:338-344 is identical field by field to deserialize_header, so the model reads it with `Decode` as well.
- Handshake.ClientSyn: the SYN's checksum and len fields are never assigned, so they are parameters.
- Wire.UnpackU8: the sign extension assumes `char` is signed, as on x86.
- InternetChecksum.OnesComplementSum: the congruence with the unbounded sum is proved only up to 2^17 bytes. Beyond that the 32-bit accumulator can wrap; `Checksum` and `IChecksum` model the wrap for every length.
- The client-slot table's behaviour when all 30 slots are taken is not modelled beyond `Insert` leaving the table unchanged. The server keeps the connection but never watches it.
