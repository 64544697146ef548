# Verified models of the calendar app's protocol code

Dafny models, with proofs, of the parts of this repository whose correctness is
hard to see: the DTLS handshake transport, the nanopb codec, the TLS handshake
drivers and cipher choice, the day timeline's packer, and the reference counts.
`dafny verify dfyconfig.toml` checks the project. Nothing here runs the original
code.

How the models are made: code that computes is a function; code that changes
state is a class or a method with the loops of the original, proved to compute a
specification function; what the code is for is then proved of those functions,
over all inputs, runs and schedules. `hide` statements in proofs only keep
definitions from the solver that a proof does not need.

- **DTLS transport.** `DtlsReassembly` is one message's buffer and bitmask (over
  the bit operations of `Bits`), `DtlsInbox` the ring of incoming messages as a
  value and `DtlsReceiver` the ring of objects that computes it. `DtlsOutbox`
  says what a flight's packets must carry, `DtlsFlight` what becomes of it for any
  outcomes of sealing and writing, and `DtlsSender` seals and sends it.
  `DtlsReply` has the flags that the two halves share. `DtlsEpochs` joins the ring
  with the epoch changes. `DtlsDelivery` puts a sender, a receiver and a
  network that loses, duplicates, reorders and regroups into one state machine:
  delivery is in order, whole and byte for byte what was hashed, over every run,
  and a flight that has arrived is delivered in full. `DtlsRecord` has the replay
  window, which stands for the set of numbers seen, and the write counters, which
  never repeat a nonce. `DtlsTimer` has the retransmission timer.
- **nanopb.** `PbWire` has the byte formats; `PbModel` says what a message encodes
  to and what a byte string decodes to, for any descriptor; `PbMerge` proves that
  decoding an encoded message merges it into the struct, `PbRoundTrip` that this
  restores it, and `PbConcat` what concatenation, unknown fields and missing
  required fields do. `PbFormat` says in numbers what is on the wire and what a
  record of each kind stores. `PbIter`, `PbEncoder` and `PbDecoder` are the field
  iterator and the two streams, updated in place, proved to compute those
  functions.
- **TLS handshakes up to 1.2.** `HandshakeClient` and `HandshakeServer` are the
  states' functions, `HandshakeRun` the dispatch loops and ssl_run_handshake.
  `HandshakeOrder` says where each event stands in the message flow, which events
  must happen and which may; `HandshakeSteps` proves, state by state, that the
  events so far always are a beginning of that flow. `HandshakeChecks` and
  `HandshakeVerdicts` have what checks, callbacks and certificates decide, and that
  a handshake in which nothing is wrong completes. `CipherChoice` is
  ssl3_choose_cipher.
- **Timeline packer.** `PackerModel` has columns and clusters, with the proof that
  the columns are as few as can be and the clusters are the connected components;
  `PackerBoxes` has the boxes, which do not overlap, `PackerExact` where exactly
  they are; `Packer` is the code itself.
- **Reference counts.** `Refcount` has the form under a lock and the machine of
  threads with compare-and-swap loops, with exactly how far the second refines the
  first.

What the models found, where the code and its comments, or the expectation one
might have of it, differ (the models follow the code):

- `d1_both.cc:380-385` says that fragments too far in the future are ignored; the
  one that is exactly SSL_MAX_HANDSHAKE_FLIGHT ahead of the next message passes
  the test and is then refused by line 268, which ends the connection
  (`DtlsDelivery.AlertExactly`).
- If sealing fails at a message that is not the first of its packet
  (`d1_both.cc:725-766`), the cursor stays behind the items already sealed
  although they are never written (`DtlsFlight.LostExactly`, with an instance in
  `DtlsFlight.LostMessage`). A failed write does rewind.
- With SSL_OP_NO_QUERY_MTU and an MTU below the minimum, the assertion at
  `d1_both.cc:617` fails (`DtlsSender.Sender.UpdateMtu`).
- A tag that breaks off in the last five bytes of a message is taken for the end
  of the message (`pb_decode.c:251-275`, `PbConcat.BrokenTagAtEnd`), and in a
  descriptor without fields the terminator matches a tag of 0
  (`PbIter.FieldIter.FindTag`).
- The check for a default proto3 submessage looks at the first element of an array
  only and not at has_ members (`pb_encode.c:229-265`), so that a submessage with
  contents can be left out (`PbRoundTrip.SubmessageLost`); the round trip holds
  exactly if that does not happen (`PbRoundTrip.RoundTrip`).
- An initial timeout above a minute is used once as it is; one of 2^31 ms becomes
  0 when doubled (`DtlsTimer.LongInitialDuration`).
- A cipher group that is not ended within the server's list is never chosen from
  (`CipherChoice.RightExactly`).
- In the lock-free reference count a decrement that has read zero aborts even if
  another thread has incremented the count since, and other threads may complete
  operations before the abort, which the form under the lock cannot show
  (`Refcount.AbortOvertaken`). This is the only difference
  (`Refcount.RefinesLock`), and users whose decrements are covered by references
  never see it (`Refcount.CoveredNeverAborts`).

## Model

| member | source | states |
|---|---|---|
| DtlsDelivery.DeliveredAsSent | ios/Pods/BoringSSL/ssl/d1_both.cc:265-438 | Over every run of sender, network and receiver, with fragments lost, duplicated, reordered and regrouped, retransmissions and interrupted flights: what was handed out are the first messages sent, in order, and the message dtls1_get_message returns now is the next one, its `raw` byte for byte what add_outgoing hashed |
| DtlsDelivery.StepKeepsGood | ios/Pods/BoringSSL/ssl/d1_both.cc:297-438 | Every step of sender, network and receiver keeps the invariant: fragments on the wire are slices of messages sent, the ring is in order, and marked bytes are the sent ones |
| DtlsDelivery.FlightDelivered | ios/Pods/BoringSSL/ssl/d1_both.cc:297-438 | If what a complete transmission of a flight put on the wire of the next messages is opened, over any records, epochs and orders, with duplicates, other fragments and taken messages in between, all of these messages are handed out in order, as sent: some on the way, the others now |
| DtlsDelivery.FlightArrives | ios/Pods/BoringSSL/ssl/d1_both.cc:351-401 | A message of the flight whose fragments have all been opened has arrived, unless it has been taken |
| DtlsDelivery.AfterExactly | ios/Pods/BoringSSL/ssl/d1_both.cc:297-438 | Over any sequence of records opened and messages taken, a byte of a message not yet taken has arrived iff it had before or some record's fragment carried it |
| DtlsDelivery.AfterTakesSent | ios/Pods/BoringSSL/ssl/d1_both.cc:408-438 | The messages taken on the way are the next ones sent, in order |
| DtlsDelivery.LastFlightAdmitted | ios/Pods/BoringSSL/ssl/d1_both.cc:375-378 | Such a sequence goes on into the encrypted epoch: whatever came before, once the current message has arrived, in whatever fragments, it is taken, and then any fragments of the next message (the Finished) may follow in encrypted records |
| DtlsDelivery.RunReceives | ios/Pods/BoringSSL/ssl/d1_both.cc:297-438 | The receiver's part of every run of the whole system is such a sequence |
| DtlsDelivery.FlightCarriedInRun | ios/Pods/BoringSSL/ssl/d1_both.cc:541-580 | In every reachable state a complete transmission of the flight carries every message of it, each byte exactly once |
| DtlsDelivery.ReceivedExactly | ios/Pods/BoringSSL/ssl/d1_both.cc:351-401 | After any fragments of sent messages, byte k of message q has arrived iff it had before or one of the fragments carries it; no other byte appears and no fragment that the current epoch and limits admit ends the connection |
| DtlsDelivery.AlertExactly | ios/Pods/BoringSSL/ssl/d1_both.cc:365-389 | A fragment of a sent message ends the connection iff its number is exactly one window beyond the next message, it is too long, or the epoch is encrypted and it is of another message |
| DtlsDelivery.ReadyExactly | ios/Pods/BoringSSL/ssl/d1_both.cc:255-263 | The current message can be returned iff something of it and all of its bytes have arrived |
| DtlsDelivery.ParsePacked | ios/Pods/BoringSSL/ssl/d1_both.cc:459-473 | Fragments written one after the other are parsed back, and nothing is left over |
| DtlsInbox.SlotIsTheMessages | ios/Pods/BoringSSL/ssl/d1_both.cc:265-295 | The slot that a number in the window leads to holds that very message: the assertion at line 276 always holds |
| DtlsInbox.OpenKeepsRing | ios/Pods/BoringSSL/ssl/d1_both.cc:351-401 | Every fragment, honest or not, keeps every occupied slot at seq % flight with seq in [read_seq, read_seq + flight) |
| DtlsInbox.NextKeepsRing | ios/Pods/BoringSSL/ssl/d1_both.cc:426-438 | Moving to the next message keeps the ring in order |
| DtlsInbox.ParseWritten | ios/Pods/BoringSSL/ssl/d1_both.cc:459-473 | Parsing inverts writing a fragment header and body, whatever follows |
| DtlsInbox.HeaderInNumbers | ios/Pods/BoringSSL/ssl/d1_both.cc:459-473 | A written fragment has twelve header bytes, each number's high byte first, at the places of section 4.2.2 of RFC 6347 |
| DtlsInbox.ParseInNumbers | ios/Pods/BoringSSL/ssl/d1_both.cc:459-473 | Any twelve bytes and as many more as they announce are parsed as that fragment, and nothing else is |
| DtlsInbox.OpenOutcome | ios/Pods/BoringSSL/ssl/d1_both.cc:265-295 | Of any fragment, honest or not: exactly when it ends the connection, and otherwise which bytes it adds to which message; nothing else changes |
| DtlsInbox.BrokenPayload | ios/Pods/BoringSSL/ssl/d1_both.cc:351-363 | A payload that does not start with a whole fragment ends the connection |
| DtlsReceiver.Receiver.GetIncomingMessage | ios/Pods/BoringSSL/ssl/d1_both.cc:265-295 | Finds or creates the slot object; refuses a mismatched type or length; the ring of objects then holds the specified inbox |
| DtlsReceiver.Receiver.OpenOne | ios/Pods/BoringSSL/ssl/d1_both.cc:351-401 | The checks, their order and the in-place copy and mark for one fragment compute the specified outcome |
| DtlsReceiver.Receiver.OpenFragments | ios/Pods/BoringSSL/ssl/d1_both.cc:351-405 | The fragment loop over a record's payload computes the specified outcome, including the error on a broken fragment |
| DtlsReceiver.Receiver.OpenHandshake | ios/Pods/BoringSSL/ssl/d1_both.cc:297-405 | Which record types succeed, are discarded or fail, and what each does to the ring and to has_change_cipher_spec |
| DtlsReceiver.Receiver.GetMessage | ios/Pods/BoringSSL/ssl/d1_both.cc:408-424 | Returns the current message iff it is whole, with the body and the single-fragment bytes |
| DtlsReceiver.Receiver.NextMessage | ios/Pods/BoringSSL/ssl/d1_both.cc:426-438 | Frees the slot, moves on, and raises the reply flag, which the sender shares, iff our flight is complete |
| DtlsReceiver.Receiver.HasUnprocessedData | ios/Pods/BoringSSL/ssl/d1_both.cc:440-457 | True iff there is a ChangeCipherSpec or any message but the one being processed |
| DtlsReassembly.BitRangeBits | ios/Pods/BoringSSL/ssl/d1_both.cc:200-207 | bit_range(start, end) has exactly the bits from start up to end |
| DtlsReassembly.MarkAllExact | ios/Pods/BoringSSL/ssl/d1_both.cc:211-251 | After any sequence of marks, byte k is marked iff it lies in some marked range |
| DtlsReassembly.CompleteIffCovered | ios/Pods/BoringSSL/ssl/d1_both.cc:211-251 | All bytes are marked iff the ranges cover the message |
| DtlsReassembly.HmFragment.SetRange | ios/Pods/BoringSSL/ssl/d1_both.cc:218-229 | The bit operations on the mask set exactly the bits of the range, for every length |
| DtlsReassembly.HmFragment.IsComplete | ios/Pods/BoringSSL/ssl/d1_both.cc:232-247 | The loop over the mask's bytes, with a partial last byte, finds out whether all bytes are marked |
| DtlsReassembly.HmFragment.Mark | ios/Pods/BoringSSL/ssl/d1_both.cc:211-251 | Marks the range, and drops the mask exactly when all bytes are marked |
| DtlsReassembly.HmFragment.Receive | ios/Pods/BoringSSL/ssl/d1_both.cc:391-401 | Copies the bytes to their place, touches no others, and marks them |
| DtlsOutbox.FragmentsTile | ios/Pods/BoringSSL/ssl/d1_both.cc:630-766 | Between two cursors of a flight with different message numbers the fragments of each message, joined, are exactly the slice of its body from the first cursor to the second: consecutive, disjoint, nothing twice |
| DtlsOutbox.AddedNumbered | ios/Pods/BoringSSL/ssl/d1_both.cc:541-580 | Adding a ChangeCipherSpec, or a message under the next number, keeps the message numbers different |
| DtlsOutbox.CompleteCarriesAll | ios/Pods/BoringSSL/ssl/d1_both.cc:768-813 | A complete transmission of a flight of numbered messages carries every message, each byte exactly once, in order |
| DtlsOutbox.ResumedFlight | ios/Pods/BoringSSL/ssl/d1_both.cc:768-813 | Transmissions interrupted and resumed make up one transmission |
| DtlsFlight.LostExactly | ios/Pods/BoringSSL/ssl/d1_both.cc:725-813 | Given the outcome of every seal and write: items are sealed and never written iff sealing fails, in a packet that is got to, at a message that is not the packet's first |
| DtlsFlight.GapExactly | ios/Pods/BoringSSL/ssl/d1_both.cc:725-813 | What was written leads to the cursor iff no packet fails like that |
| DtlsFlight.LostMessage | ios/Pods/BoringSSL/ssl/d1_both.cc:725-813 | An instance: sealing the second of two messages fails, and the cursor ends behind the first, which no continuation carries |
| DtlsFlight.SendAdvances | ios/Pods/BoringSSL/ssl/d1_both.cc:768-813 | What was written and what was lost lead from the cursor at the start to the one at the end; nothing is lost unless sealing fails; success means the end of the flight |
| DtlsFlight.PackAdvances | ios/Pods/BoringSSL/ssl/d1_both.cc:725-766 | The items of a packet lead from its cursor to the next one |
| DtlsFlight.SealAdvances | ios/Pods/BoringSSL/ssl/d1_both.cc:630-723 | What is sealed is the next item of the flight and fits the room |
| DtlsFlight.SealExactly | ios/Pods/BoringSSL/ssl/d1_both.cc:630-723 | Sealing in numbers: which epochs are known and whose cipher is used, when there is no room, that what fits is sealed whole and that what does not fills the room |
| DtlsFlight.PackWhole | ios/Pods/BoringSSL/ssl/d1_both.cc:725-766 | Messages that fit into the packet together go into it, each whole |
| DtlsFlight.FitsIsSentWhole | ios/Pods/BoringSSL/ssl/d1_both.cc:768-813 | A flight that fits into one packet is sent in one, each message as one item |
| DtlsFlight.WorkableIsSent | ios/Pods/BoringSSL/ssl/d1_both.cc:768-813 | If the MTU permits progress and no seal fails, sealing never ends the transmission, and it reaches the end when every packet is written |
| DtlsOutbox.FinishedIsRaw | ios/Pods/BoringSSL/ssl/d1_both.cc:511-539 | dtls1_finish_message turns the begun message into its single-fragment serialization |
| DtlsOutbox.RawIsSingle | ios/Pods/BoringSSL/ssl/d1_both.cc:459-473 | That serialization parses as one whole fragment |
| DtlsOutbox.AdvanceAllMoves | ios/Pods/BoringSSL/ssl/d1_both.cc:768-813 | Sealing any item moves the cursor strictly forward |
| DtlsSender.Sender.BuildMessage | ios/Pods/BoringSSL/ssl/d1_both.cc:511-539 | init_message and finish_message give the numbered single-fragment bytes, or fail on a body of 2^24 bytes or more |
| DtlsSender.Sender.AddOutgoing | ios/Pods/BoringSSL/ssl/d1_both.cc:541-580 | Stops the timer and clears a finished flight with both of its flags, appends up to the limit, and hashes handshake messages only; messages numbered by the write counter keep their numbers different |
| DtlsSender.Sender.OnHandshakeComplete | ios/Pods/BoringSSL/ssl/dtls_method.cc:71-79 | Stops the timer, and drops the last flight iff the reply flag is raised; DtlsReply.DroppedExactly says when that is |
| DtlsSender.Sender.SealNextMessage | ios/Pods/BoringSSL/ssl/d1_both.cc:630-723 | The checks, the slice that fits and the offset update compute the specified result of sealing |
| DtlsSender.Sender.SealNextPacket | ios/Pods/BoringSSL/ssl/d1_both.cc:725-766 | The packet loop computes the specified items, cursor and failure |
| DtlsSender.Sender.UpdateMtu | ios/Pods/BoringSSL/ssl/d1_both.cc:601-618 | The MTU afterwards for every input; the assertion at the end holds iff the MTU was acceptable or the BIO may be asked |
| DtlsSender.Sender.SendFlight | ios/Pods/BoringSSL/ssl/d1_both.cc:768-813 | Terminates with the specified items, losses, cursor and result for any outcomes of sealing and writing, under the updated MTU |
| DtlsSender.Sender.FlushFlight | ios/Pods/BoringSSL/ssl/d1_both.cc:815-820 | Marks the flight complete, starts the timer and sends from the cursor on; a flight sent from its start carries every message once |
| DtlsSender.Sender.Retransmit | ios/Pods/BoringSSL/ssl/d1_both.cc:822-831 | Sends from the first message on; success means that every message was written, each byte once |
| DtlsSender.Sender.HandleTimeout | ios/Pods/BoringSSL/ssl/d1_lib.cc:247-268 | The timer's handling of a timeout, and the retransmission it ends in: what is written, lost and left to send is that of sending the flight from its start, with the MTU as updated |
| DtlsReply.FlagsExactly | ios/Pods/BoringSSL/ssl/d1_both.cc:425-438 | Over every run of adding, flushing, taking a message and completing: the flight is marked complete iff it was flushed and not dropped since, and has a reply iff a message was taken after that flush |
| DtlsReply.DroppedExactly | ios/Pods/BoringSSL/ssl/dtls_method.cc:71-79 | Over every run the end of the handshake drops the flight iff a message was taken after its flush, and a new message replaces it iff it was flushed |
| DtlsEpochs.NoMessageMixesEpochs | ios/Pods/BoringSSL/ssl/dtls_method.cc:81-95 | Over every run of fragments, messages taken and epoch changes, no message has bytes from fragments of two epochs, and one not yet whole has only the current epoch's |
| DtlsEpochs.OnlyFillsChange | ios/Pods/BoringSSL/ssl/d1_both.cc:351-401 | A message in the ring changes only by a fragment being copied into it |
| DtlsEpochs.ChangeKeeps | ios/Pods/BoringSSL/ssl/dtls_method.cc:81-95 | An epoch change is refused or leaves at most the message being processed |
| DtlsEpochs.Connection.SetReadState | ios/Pods/BoringSSL/ssl/dtls_method.cc:81-95 | Succeeds iff there is no leftover data; then the ring holds nothing but the message being processed, and the new epoch has an empty window |
| DtlsRecord.WindowRefinesSet | ios/Pods/BoringSSL/ssl/dtls_record.cc:140-175 | In every reachable state the 64-bit map and the maximum stand for the numbers recorded since the last epoch change |
| DtlsRecord.RefusedExactly | ios/Pods/BoringSSL/ssl/dtls_record.cc:126-272 | An authentic record of the current epoch is refused iff its number was recorded in this epoch or is 64 or more below one that was; any other record changes nothing |
| DtlsRecord.AcceptedOnce | ios/Pods/BoringSSL/ssl/dtls_record.cc:225-259 | No record number is accepted twice over any run without epoch wrap |
| DtlsRecord.NoncesUnique | ios/Pods/BoringSSL/ssl/dtls_record.cc:294-351 | Over any interleaving of seals in both epochs, failed seals and epoch changes, no two sealed records share (epoch, sequence), up to the first overflow or epoch wrap |
| DtlsRecord.OverflowReuses | ios/Pods/BoringSSL/ssl/dtls_record.cc:294-351 | That bound is exact: the seal that uses the current epoch's last number fails, and one more in the epoch repeats a number |
| DtlsRecord.PreviousOverflowReuses | ios/Pods/BoringSSL/ssl/dtls_record.cc:294-351 | The same for the previous epoch's counter |
| DtlsRecord.EpochWrapReuses | ios/Pods/BoringSSL/ssl/dtls_method.cc:97-107 | After the epoch has wrapped, the next record has epoch and number zero, and so repeats one iff that was used |
| DtlsRecord.CounterReached | ios/Pods/BoringSSL/ssl/dtls_record.cc:294-351 | Every value of the current counter is reached by a run within the bounds |
| DtlsRecord.PreviousCounterReached | ios/Pods/BoringSSL/ssl/dtls_method.cc:97-107 | So is the last value of the previous epoch's counter |
| DtlsRecord.EpochReached | ios/Pods/BoringSSL/ssl/dtls_method.cc:97-107 | And so is every epoch, with number zero of epoch zero used |
| DtlsRecord.BigEndianInjective | ios/Pods/BoringSSL/ssl/dtls_record.cc:128-138 | Different 8-byte sequence fields are different numbers |
| DtlsRecord.SequenceUpdate | ios/Pods/BoringSSL/ssl/tls_record.cc:154-163 | The carry loop adds one to the big-endian number in place, and fails iff it wraps to zero |
| DtlsRecord.RecordLayer.BitmapShouldDiscard | ios/Pods/BoringSSL/ssl/dtls_record.cc:140-153 | Shift and mask decide the specified window test |
| DtlsRecord.RecordLayer.BitmapRecord | ios/Pods/BoringSSL/ssl/dtls_record.cc:155-175 | Shift and or compute the specified window update, for every distance |
| DtlsRecord.RecordLayer.OpenRecord | ios/Pods/BoringSSL/ssl/dtls_record.cc:213-272 | A record is opened iff its epoch is current, it is not a replay or stale, it decrypts and its plaintext fits; the checks come before, and recording after, a successful decryption; the new state is the specified one |
| DtlsRecord.RecordLayer.SetReadState | ios/Pods/BoringSSL/ssl/dtls_method.cc:81-95 | Refused with leftover data; otherwise a new epoch with an empty window |
| DtlsRecord.RecordLayer.SetWriteState | ios/Pods/BoringSSL/ssl/dtls_method.cc:97-107 | A new epoch; the old counter is kept for the previous one |
| DtlsRecord.RecordLayer.SealRecord | ios/Pods/BoringSSL/ssl/dtls_record.cc:294-351 | Uses and advances the counter of the chosen epoch, nothing when the AEAD fails; fails, after the counter has moved, on wrapping and on a ciphertext of 2^16 bytes or more |
| DtlsTimer.TimerOverRuns | ios/Pods/BoringSSL/ssl/d1_lib.cc:120-187 | Over every run: at most twelve timeouts are handled since the last stop; the timer runs iff it was set since then; its deadline is normalised and lies the duration after it was last set, and the duration is the initial one doubled once for each timeout handled |
| DtlsTimer.BackoffClosed | ios/Pods/BoringSSL/ssl/d1_lib.cc:155-160 | k >= 1 doublings with 32-bit wrap and limit are min(60000, (2 * initial mod 2^32) * 2^(k-1)) |
| DtlsTimer.DurationExactly | ios/Pods/BoringSSL/ssl/d1_lib.cc:155-160 | The duration is min(60000, initial * 2^k) for every k iff initial <= 60000 |
| DtlsTimer.LongInitialDuration | ios/Pods/BoringSSL/ssl/d1_lib.cc:155-166 | A longer initial duration is used as it is at first, and one of 2^31 ms doubles to nothing |
| DtlsTimer.Timer.StartTimer | ios/Pods/BoringSSL/ssl/d1_lib.cc:120-136 | Seconds and microseconds with carry are exactly now plus the duration; a stopped timer takes the initial duration |
| DtlsTimer.Timer.GetTimeout | ios/Pods/BoringSSL/ssl/d1_lib.cc:197-245 | The subtraction with borrow, the 15 ms rule and the clamp compute the specified report; none for a stopped timer |
| DtlsTimer.ReportExact | ios/Pods/BoringSSL/ssl/d1_lib.cc:197-245 | That report is normalised and exactly max(0, deadline - now), less than 15 ms counting as zero, for anything short of INT_MAX seconds |
| DtlsTimer.ReportInNumbers | ios/Pods/BoringSSL/ssl/d1_lib.cc:153-187 | Nothing without a deadline, zero once it is less than 15000 microseconds away, and else what is left, with at most 2^31 - 1 seconds |
| DtlsTimer.HandledInNumbers | ios/Pods/BoringSSL/ssl/d1_lib.cc:247-268 | Nothing before the deadline less 15 ms; then the thirteenth timeout fails, and any other doubles the duration up to a minute and sets the deadline that much later |
| DtlsTimer.Timer.CheckTimeoutNum | ios/Pods/BoringSSL/ssl/d1_lib.cc:168-187 | Counts, lowers the MTU only after two timeouts and to an acceptable value, and fails after twelve |
| DtlsTimer.Timer.HandleTimeout | ios/Pods/BoringSSL/ssl/d1_lib.cc:247-268 | Does nothing, fails or restarts with the doubled duration, as specified |
| PbRoundTrip.RoundTrip | ios/Pods/nanopb/pb_decode.c:852-967 | For every well-formed static message pb_decode of pb_encode's output succeeds; it restores the message, up to unset members and what follows a NUL, iff every proto3 submessage that the encoder's check takes for default is the default |
| PbRoundTrip.SubmessageLost | ios/Pods/nanopb/pb_encode.c:229-246 | A proto3 submessage that holds the numbers 0 and 5 is encoded as nothing |
| PbRoundTrip.KeepsAll | ios/Pods/nanopb/pb_encode.c:268-310 | Without proto3 submessages the condition of the round trip always holds |
| PbRoundTrip.EncodesValid | ios/Pods/nanopb/pb_encode.c:271-349 | pb_encode can encode every valid message of a well-formed descriptor |
| PbRoundTrip.MergeIsPointwise | ios/Pods/nanopb/pb_decode.c:356-429 | Merging a message touches exactly the members it sets, each as if alone, and exists iff each does |
| PbFormat.VarintReads | ios/Pods/nanopb/pb_decode.c:173-249 | Both decoders read every varint, minimal or not, cut to their width, and refuse one of more than five or ten bytes |
| PbFormat.BrokenVarint | ios/Pods/nanopb/pb_decode.c:173-249 | A varint that breaks off is refused |
| PbFormat.VarintIsOne | ios/Pods/nanopb/pb_encode.c:494-514 | The written bytes are a varint with the value: byte k counts 2^(7k) |
| PbFormat.VarintShortest | ios/Pods/nanopb/pb_encode.c:494-514 | No shorter varint has the value |
| PbFormat.SkipsVarint | ios/Pods/nanopb/pb_decode.c:277-287 | An undeclared field of wire type 0 is skipped with its varint, of any length |
| PbFormat.Skips64Bit | ios/Pods/nanopb/pb_decode.c:277-287 | One of wire type 1 with eight bytes |
| PbFormat.SkipsString | ios/Pods/nanopb/pb_decode.c:277-287 | One of wire type 2 with its length and that many bytes |
| PbFormat.Skips32Bit | ios/Pods/nanopb/pb_decode.c:277-287 | One of wire type 5 with four bytes |
| PbFormat.SkipsNothingElse | ios/Pods/nanopb/pb_decode.c:277-287 | Undeclared fields of the other wire types, and ones that break off, fail the message |
| PbFormat.AreUnknown | ios/Pods/nanopb/pb_decode.c:277-287 | These four forms are the unknown fields that may stand anywhere in a message |
| PbFormat.ZeroEnds | ios/Pods/nanopb/pb_decode.c:251-275 | A zero in the place of a tag ends the message |
| PbFormat.IntReads | ios/Pods/nanopb/pb_decode.c:1165-1200 | int32 and int64 take 32 or 64 bits in two's complement, and are refused where the member cannot hold them |
| PbFormat.UintReads | ios/Pods/nanopb/pb_decode.c:1202-1224 | uint32 and uint64 take the number, or are refused where the member cannot hold it |
| PbFormat.SintReads | ios/Pods/nanopb/pb_decode.c:1226-1248 | sint32 and sint64: even numbers are not negative and odd ones are; refused where the member cannot hold them |
| PbFormat.FixedReads | ios/Pods/nanopb/pb_decode.c:1132-1260 | fixed32 and fixed64 take four and eight bytes, the low one first |
| PbFormat.BlobReads | ios/Pods/nanopb/pb_decode.c:1262-1379 | Bytes, strings and fixed-length bytes are stored iff they fit, with one byte for a NUL and four for a size; submessages are decoded over the old value or, in arrays and oneofs, over the defaults |
| PbFormat.ValueStored | ios/Pods/nanopb/pb_decode.c:356-429 | A record of a field that is not repeated replaces its value, sets its has_ or which_ member, and decoding goes on behind it; or the message fails |
| PbFormat.ItemStored | ios/Pods/nanopb/pb_decode.c:356-429 | An item of a repeated field is added while there is room, also numbers one by one |
| PbFormat.PackedStored | ios/Pods/nanopb/pb_decode.c:356-429 | A packed record adds its numbers in order while there is room for all, and fails otherwise |
| PbFormat.MissingIsDefault | ios/Pods/nanopb/pb_decode.c:763-850 | A member none of whose fields occur in the input has its declared default, and is absent, empty or unselected |
| PbFormat.VarintWritten | ios/Pods/nanopb/pb_encode.c:652-704 | Integers are written with wire type 0, negative ones in 64 bits, and sint as 0, -1, 1, -2 and so on |
| PbFormat.FixedWritten | ios/Pods/nanopb/pb_encode.c:527-551 | Fixed widths are written with wire types 5 and 1, the low byte first |
| PbFormat.BlobWritten | ios/Pods/nanopb/pb_encode.c:718-777 | Bytes, strings up to their NUL and submessages are written with wire type 2 and their length |
| PbFormat.ArrayWritten | ios/Pods/nanopb/pb_encode.c:116-203 | Arrays of numbers are written packed, other items each with its tag, and empty arrays not at all |
| PbFormat.SubmessageSkipped | ios/Pods/nanopb/pb_encode.c:205-268 | A proto3 submessage is left out iff the place of each of its fields is zero |
| PbMerge.DecodeMerges | ios/Pods/nanopb/pb_decode.c:852-953 | pb_decode_noinit of an encoded message into any struct is the merge of the two, and fails exactly where an array has no room |
| PbMerge.FieldDecodes | ios/Pods/nanopb/pb_decode.c:356-429 | What pb_encode writes for one field of any kind is decoded and merged, whatever follows it |
| PbMerge.ArrayDecodes | ios/Pods/nanopb/pb_decode.c:378-419 | A packed array's record decodes to its items appended, up to the room |
| PbMerge.ValueDecodes | ios/Pods/nanopb/pb_decode.c:1165-1379 | Each value's decoder inverts its encoder over any prior value, whatever follows |
| PbConcat.ConcatDecodes | ios/Pods/nanopb/pb_decode.c:852-953 | For any bytes x that are a whole message: decoding x + y goes on as decoding y into the result of x |
| PbConcat.EncodingsConcatenate | ios/Pods/nanopb/pb_decode.c:852-967 | Decoding enc(a) ++ enc(b) is pb_decode of enc(a), then pb_decode_noinit of enc(b) into the same struct, and is the merge |
| PbConcat.LastOneWins | ios/Pods/nanopb/pb_decode.c:356-429 | In that result a set scalar of b wins, arrays are appended, and what b leaves unset stays a's, where the encoder kept it |
| PbConcat.UnknownFieldIgnored | ios/Pods/nanopb/pb_decode.c:877-906 | Any well-formed field with an undeclared tag, between any two runs of fields, changes nothing |
| PbConcat.UnknownFieldInMessage | ios/Pods/nanopb/pb_decode.c:877-906 | Such a field between two top-level fields of an encoded message does not change what it decodes to |
| PbConcat.BrokenTagAtEnd | ios/Pods/nanopb/pb_decode.c:251-275 | A tag that breaks off ends the message quietly iff at most five bytes of it are there, and fails it otherwise |
| PbConcat.RequiredCheckExact | ios/Pods/nanopb/pb_decode.c:908-950 | pb_decode_noinit succeeds iff the loop does and every required tag occurred, for up to 63 required fields |
| PbIter.LayoutOf | ios/Pods/nanopb/pb_common.c:20-76 | Offsets as the generator emits them describe a layout, for every descriptor |
| PbIter.FieldIter.Begin | ios/Pods/nanopb/pb_common.c:8-18 | Starts at the first field with its offset sum; false on an empty descriptor |
| PbIter.FieldIter.Next | ios/Pods/nanopb/pb_common.c:20-76 | One field on, with pData equal to the offset sum and required_field_index to the number of required fields before; false on wrapping to the start |
| PbIter.FieldIter.FindTag | ios/Pods/nanopb/pb_common.c:78-95 | Terminates from every position; succeeds iff the tag is declared (or is 0 in an empty descriptor) and keeps the position otherwise |
| PbEncoder.OStream.Write | ios/Pods/nanopb/pb_encode.c:91-109 | Counts, checks the room, and stores right after what was there, or changes nothing at all |
| PbEncoder.EncodeVarint | ios/Pods/nanopb/pb_encode.c:494-514 | The buffer loop emits the minimal varint and never passes ten bytes |
| PbEncoder.EncodeString | ios/Pods/nanopb/pb_encode.c:592-598 | Emits the length and the bytes |
| PbEncoder.EncodeValue | ios/Pods/nanopb/pb_encode.c:652-777 | Every PB_ENCODERS function emits the specified value, or fails where it must |
| PbEncoder.EncodeSubmessage | ios/Pods/nanopb/pb_encode.c:600-648 | The sizing pass counts exactly what the writing pass writes: "submsg size changed" never happens |
| PbEncoder.PackedSize | ios/Pods/nanopb/pb_encode.c:129-156 | The prefix of a packed array is the number of bytes the items take |
| PbEncoder.EncodePacked | ios/Pods/nanopb/pb_encode.c:121-180 | Emits tag, length and items, in a sizing stream and in a writing one |
| PbEncoder.EncodeArray | ios/Pods/nanopb/pb_encode.c:116-201 | Emits an array, packed or not, and fails on a count beyond the array |
| PbEncoder.EncodeField | ios/Pods/nanopb/pb_encode.c:271-349 | Emits a field of every static kind by its has_ flag, count, tag member or value, a proto3 submessage by its contents |
| PbEncoder.CheckProto3Default | ios/Pods/nanopb/pb_encode.c:205-268 | Decides each type's test for zero, in a submessage of every field's data and of an array's first element |
| PbEncoder.CheckFields | ios/Pods/nanopb/pb_encode.c:229-246 | The loop over a submessage's fields answers for all of them |
| PbEncoder.EncodeMessage | ios/Pods/nanopb/pb_encode.c:451-473 | The field loop emits the whole message: the same bytes are counted when sizing and stored when writing, at every depth |
| PbEncoder.GetEncodedSize | ios/Pods/nanopb/pb_encode.c:480-489 | The number of bytes of the encoding |
| PbEncoder.EncodeToBuffer | ios/Pods/nanopb/pb_encode.c:451-489 | The predicted size is the encoding's; a fresh buffer of m bytes takes an encodable message iff that is at most m, and then holds exactly its bytes |
| PbEncoder.FixedItemsSize | ios/Pods/nanopb/pb_encode.c:135-143 | The count * 4 and count * 8 shortcuts are what the loop would count |
| PbDecoder.IStream.ReadVarint | ios/Pods/nanopb/pb_decode.c:209-229 | The or-and-shift loop computes the specified varint and leaves the rest of the stream |
| PbDecoder.IStream.ReadVarint32 | ios/Pods/nanopb/pb_decode.c:173-207 | The same for 32 bits; a failure that used up the stream is on at most five bytes |
| PbDecoder.IStream.ReadTag | ios/Pods/nanopb/pb_decode.c:251-275 | A tag, the end of the message or an error, as specified |
| PbDecoder.IStream.MakeSubstream | ios/Pods/nanopb/pb_decode.c:322-335 | A substream of exactly the delimited bytes, or failure when there are too few |
| PbDecoder.IStream.CloseSubstream | ios/Pods/nanopb/pb_decode.c:337-350 | The parent goes on after the delimited bytes |
| PbDecoder.IStream.SkipUnknown | ios/Pods/nanopb/pb_decode.c:277-287 | Skips one value of each wire type, and fails on others |
| PbDecoder.DecodeField | ios/Pods/nanopb/pb_decode.c:356-429 | decode_static_field computes the specified struct and rest, for every kind of field |
| PbDecoder.DecodeRepeated | ios/Pods/nanopb/pb_decode.c:378-419 | A packed array or one more item, with the room checked |
| PbDecoder.MarkSeen | ios/Pods/nanopb/pb_decode.c:908-916 | Setting bit k of the words adds position k and no other |
| PbDecoder.CheckRequired | ios/Pods/nanopb/pb_decode.c:919-950 | Comparing words and the shifted last word finds out whether all positions are there |
| PbDecoder.CountRequired | ios/Pods/nanopb/pb_decode.c:919-932 | The loop to the end of the descriptor counts the required fields |
| PbDecoder.DecodeInto | ios/Pods/nanopb/pb_decode.c:852-953 | pb_decode_noinit succeeds iff specified, and gives the specified struct |
| PbDecoder.DecodeMessage | ios/Pods/nanopb/pb_decode.c:955-967 | pb_decode likewise, from the defaults |
| PbWire.VarintRoundTrip | ios/Pods/nanopb/pb_encode.c:494-514 | decode(encode(v)) = v for every uint64, with the rest untouched and at most ten bytes |
| PbWire.Varint32RoundTrip | ios/Pods/nanopb/pb_decode.c:173-207 | The same for the 32-bit decoder and values below 2^32 |
| PbWire.VarintMinimal | ios/Pods/nanopb/pb_encode.c:494-514 | The encoding has n bytes exactly for values from 2^(7(n-1)) up to 2^(7n) |
| PbWire.Varint32Agrees | ios/Pods/nanopb/pb_decode.c:173-229 | Where pb_decode_varint32 succeeds, pb_decode_varint succeeds on the same bytes, consumes as many, and agrees modulo 2^32 |
| PbWire.ZigZagBijection | ios/Pods/nanopb/pb_encode.c:516-525 | Zigzag and its inverse are a bijection of int64 and uint64 |
| PbWire.FixedRoundTrip | ios/Pods/nanopb/pb_encode.c:527-551 | Fixed 32- and 64-bit values are read back whole |
| PbWire.TagRoundTrip | ios/Pods/nanopb/pb_encode.c:553-557 | A tag of the standard's range is read back with its wire type |
| HandshakeRun.KeysChangeInOrder | ios/Pods/BoringSSL/ssl/handshake.cc:491-628 | Over every run up to TLS 1.2, with any pauses, retries and failures: the read and the write keys change at most once each; the read keys after the ChangeCipherSpec was opened and before the peer's Finished is accepted, the write keys after ours and before our Finished |
| HandshakeRun.FinishedInOrder | ios/Pods/BoringSSL/ssl/handshake_client.cc:1485-1700 | In a full handshake the client's Finished comes first, in a resumption the server's, on either side |
| HandshakeRun.FinishedIsComplete | ios/Pods/BoringSSL/ssl/handshake_server.cc:1439-1621 | A completed handshake went through the whole message flow of its kind in order: every mandatory event, none that may not happen, no early data |
| HandshakeVerdicts.StepChecked | ios/Pods/BoringSSL/ssl/handshake_client.cc:413-1725 | On either side, a step that takes a message found it in the state that reads it, and unless the step ends in an error the message passed its checks; nothing that happened is undone |
| HandshakeVerdicts.GotChecked | ios/Pods/BoringSSL/ssl/handshake.cc:380-428 | Over every run that has not failed, every message taken was taken by a step in which it was there and passed its checks |
| HandshakeVerdicts.VerificationDecides | ios/Pods/BoringSSL/ssl/handshake.cc:285-378 | In a state that verifies a certificate the callback's failure is an error, its success goes on, and without an answer the handshake waits there |
| HandshakeVerdicts.StepAgrees | ios/Pods/BoringSSL/ssl/handshake_server.cc:432-840 | Resumption apart, what a step settles is what the peer's message and the configuration say (cipher, certificates, extensions, tickets, the false start), and no other step changes it |
| HandshakeVerdicts.StepRefuses | ios/Pods/BoringSSL/ssl/handshake.cc:380-428 | A state that takes a message waits where it is if there is none, and fails on one that may not come there or does not pass its checks |
| HandshakeVerdicts.WaitsAsAsked | ios/Pods/BoringSSL/ssl/handshake.cc:505-620 | A wait for the transport lasts until it has done what it was asked for, a failure for ever, and a pause until the next call; only an opened ChangeCipherSpec leaves a trace |
| HandshakeVerdicts.ServerCertificateVerified | ios/Pods/BoringSSL/ssl/handshake_client.cc:899-917 | Over every run, a client that got a certificate and the end of the server's messages has had the certificate verified |
| HandshakeVerdicts.ClientCertificateVerified | ios/Pods/BoringSSL/ssl/handshake_server.cc:949-1056 | Over every run, a server that got a certificate that is not empty and the client's key exchange has had the certificate verified, and completes only with a CertificateVerify |
| HandshakeVerdicts.HelloRead | ios/Pods/BoringSSL/ssl/handshake_server.cc:432-510 | No server gets past its first state without a ClientHello that passed its checks |
| HandshakeVerdicts.StartsClean | ios/Pods/BoringSSL/ssl/handshake_client.cc:413-480 | A handshake starts in its first state with nothing settled, and a client with the session that it may offer |
| HandshakeVerdicts.ResumedOnlyIfOffered | ios/Pods/BoringSSL/ssl/handshake_client.cc:563-787 | A client below TLS 1.3 resumes only a session it offered, outside of renegotiations, and only if the ServerHello it took was for that session |
| HandshakeVerdicts.ServerResumesTheSame | ios/Pods/BoringSSL/ssl/handshake_server.cc:572-684 | A server resumes iff the ClientHello it took was for the same session |
| HandshakeVerdicts.WillingCompletes | ios/Pods/BoringSSL/ssl/handshake.cc:491-628 | Every handshake below TLS 1.3, on either side and of either kind, in which messages are there and pass their checks and callbacks agree, completes within forty steps |
| HandshakeRun.StepKeepsGood | ios/Pods/BoringSSL/ssl/handshake.cc:491-628 | Every state's function and every resolved wait keeps the flow |
| HandshakeRun.StepsKeepSide | ios/Pods/BoringSSL/ssl/handshake.cc:491-628 | Over a run the handshake never goes back, resumption's jumps included |
| HandshakeRun.Connection.Handshake | ios/Pods/BoringSSL/ssl/handshake_client.cc:1735-1817 | The dispatch loop ends after at most 21 calls, and is the run of steps it gives back |
| HandshakeRun.Connection.ResolveWait | ios/Pods/BoringSSL/ssl/handshake.cc:495-608 | What is done about each wait, as specified; a ChangeCipherSpec waited for counts as opened only when it was |
| HandshakeRun.Connection.RunHandshake | ios/Pods/BoringSSL/ssl/handshake.cc:491-628 | ssl_run_handshake is a run of steps; it completes only in the final state, fails only for good, blocks only on the transport, returns early only for early data or a step that asks for it, and pauses with the reason of its last wait, which the application has to see to |
| HandshakeRun.Precedes | ios/Pods/BoringSSL/ssl/handshake.cc:491-628 | In a flow a mandatory event of lesser rank has happened before, and once |
| HandshakeRun.CcsOpened | ios/Pods/BoringSSL/ssl/handshake.cc:509-552 | Opening the ChangeCipherSpec that was waited for stands at its place in the flow |
| HandshakeOrder.MustRank | ios/Pods/BoringSSL/ssl/handshake_client.cc:176-198 | The mandatory event of each rank stands at that rank, on both sides and for both kinds of handshake |
| HandshakeOrder.Forward | ios/Pods/BoringSSL/ssl/handshake_client.cc:176-198 | Events put in order between two positions extend a flow to a flow |
| HandshakeSteps.ClientReadServerHello | ios/Pods/BoringSSL/ssl/handshake_client.cc:563-787 | Every outcome of reading the ServerHello keeps the flow, whichever kind of handshake it settles |
| HandshakeSteps.ClientReadCertificateStatus | ios/Pods/BoringSSL/ssl/handshake_client.cc:849-897 | Every outcome keeps the flow, with and without the message |
| HandshakeSteps.ClientSendClientCertificate | ios/Pods/BoringSSL/ssl/handshake_client.cc:1197-1243 | Every outcome keeps the flow: certificate, SSL 3.0 alert, nothing, or a pause |
| HandshakeSteps.ClientSendClientFinished | ios/Pods/BoringSSL/ssl/handshake_client.cc:1485-1541 | Every outcome keeps the flow, a failure after any part of the flight included |
| HandshakeSteps.ClientReadSessionTicket | ios/Pods/BoringSSL/ssl/handshake_client.cc:1594-1675 | Every outcome keeps the flow, in both kinds of handshake |
| HandshakeSteps.ClientReadServerFinished | ios/Pods/BoringSSL/ssl/handshake_client.cc:1686-1700 | Every outcome keeps the flow, the resumption's jump back included |
| HandshakeSteps.ServerSelectParameters | ios/Pods/BoringSSL/ssl/handshake_server.cc:572-684 | Every outcome keeps the flow, whichever kind of handshake it settles |
| HandshakeSteps.ServerReadClientCertificate | ios/Pods/BoringSSL/ssl/handshake_server.cc:949-1040 | Every outcome keeps the flow, with and without the message |
| HandshakeSteps.ServerSendServerFinished | ios/Pods/BoringSSL/ssl/handshake_server.cc:1463-1509 | Every outcome keeps the flow, in both kinds of handshake |
| HandshakeSteps.ServerReadClientFinished | ios/Pods/BoringSSL/ssl/handshake_server.cc:1439-1461 | Every outcome keeps the flow, in both kinds of handshake |
| HandshakeClient.DoAdvances | ios/Pods/BoringSSL/ssl/handshake_client.cc:1735-1817 | Every state's function keeps the side and the version, never goes back, and goes forward when it does not wait or fail |
| HandshakeServer.DoAdvances | ios/Pods/BoringSSL/ssl/handshake_server.cc:1539-1621 | The same for the server |
| CipherChoice.Choose | ios/Pods/BoringSSL/ssl/handshake_server.cc:390-421 | The one-pass loop finds the best acceptable cipher of those whose group ends in the list: earliest group, then earliest in the other list; none iff there is none |
| CipherChoice.ChooseCipher | ios/Pods/BoringSSL/ssl/handshake_server.cc:357-424 | Under server preference with the last flag clear, the best of all; without it, the first acceptable cipher of the client |
| CipherChoice.FoundIsShared | ios/Pods/BoringSSL/ssl/handshake_server.cc:357-424 | The cipher chosen is in both lists, fits the version, and shares a bit with the mask of key exchanges and one with the mask of authentications |
| CipherChoice.NothingShared | ios/Pods/BoringSSL/ssl/handshake_server.cc:357-424 | If the answer that is wanted is none, no cipher of both lists has all of that |
| CipherChoice.WantedIsOne | ios/Pods/BoringSSL/ssl/handshake_server.cc:357-424 | The best cipher is unique: the contract determines the answer |
| CipherChoice.RightExactly | ios/Pods/BoringSSL/ssl/handshake_server.cc:415-421 | The choice is right for every client iff every usable cipher of a group that is not ended is also in one that is; with no cipher listed twice, iff no cipher of that group is usable |
| CipherChoice.RightExactlyIfEnded | ios/Pods/BoringSSL/ssl/handshake_server.cc:415-421 | In particular, for a list of different ciphers whose last is usable, iff the last flag is clear |
| CipherChoice.OpenGroupIsNotChosen | ios/Pods/BoringSSL/ssl/handshake_server.cc:415-421 | A single shared cipher in a group that is not ended is not chosen |
| PackerModel.ColumnsOptimal | src/components/timeline_view/Packer.js:54-101 | The number of columns of each cluster is the size of a largest set of events in it that all collide; no layout with collision-free columns uses fewer |
| PackerModel.ClustersAreComponents | src/components/timeline_view/Packer.js:71-76 | Two events are in one cluster iff a chain of collisions connects them |
| PackerModel.RunKeeps | src/components/timeline_view/Packer.js:70-96 | What the loop keeps: chained columns, a clique as large as the columns, connected clusters, and clusters apart in time |
| PackerModel.OpeningGivesClique | src/components/timeline_view/Packer.js:78-90 | When a column is opened, the event and the last ones of all columns collide with each other |
| PackerModel.CliqueNeedsColumns | src/components/timeline_view/Packer.js:18-20 | A clique needs as many collision-free columns |
| PackerModel.RoomExactly | src/components/timeline_view/Packer.js:18-20 | After sorting, an event fits behind another iff that one has ended |
| PackerBoxes.EachOnce | src/components/timeline_view/Packer.js:37-52 | Every event is laid out exactly once |
| PackerBoxes.CollidingBeside | src/components/timeline_view/Packer.js:22-49 | Two colliding events get boxes beside each other, a gutter of 10 apart |
| PackerBoxes.OthersAbove | src/components/timeline_view/Packer.js:6-16 | Two events of one day that do not collide get boxes above each other |
| PackerBoxes.InsideScreen | src/components/timeline_view/Packer.js:37-49 | Every box starts at 0 or later and ends at the screen's width less 10 or before |
| PackerExact.HeightIsDuration | src/components/timeline_view/Packer.js:6-16 | The top of every box is the time of day and its height the duration, at 70 points for 3600000 ms |
| PackerExact.WidthIsSpan | src/components/timeline_view/Packer.js:39-53 | The columns of a cluster share the width equally; every box starts at its column and goes on, less ten points, up to the first later column with an event that collides |
| PackerExact.Leftmost | src/components/timeline_view/Packer.js:86-98 | An event is in the leftmost column with room: each column further left has an event that collides with it |
| PackerExact.InOrder | src/components/timeline_view/Packer.js:39-53 | A later box of the result belongs to an event that starts when the earlier one's has ended, or stands further right |
| PackerBoxes.Span | src/components/timeline_view/Packer.js:22-35 | The columns in the span are free for the event and the next one is not |
| Packer.NothingOverlaps | src/components/timeline_view/Packer.js:6-103 | For events of one day with start <= end, no two boxes of the result overlap and all are on the screen |
| Packer.EveryIndexOnce | src/components/timeline_view/Packer.js:54-103 | The result lists every input index exactly once, with that input's times |
| Packer.Expand | src/components/timeline_view/Packer.js:22-35 | The nested loops with early return count the specified span |
| Packer.BuildEvent | src/components/timeline_view/Packer.js:6-16 | Fills in the four fields of the event object |
| Packer.Pack | src/components/timeline_view/Packer.js:37-49 | The nested loops fill in and list every event of the columns, and change no other |
| Packer.PlaceEvent | src/components/timeline_view/Packer.js:78-90 | The search loop puts the event into the first column with room, or a new one |
| Packer.LayOut | src/components/timeline_view/Packer.js:70-101 | The main loop, with its flushes, computes the specified layout |
| Packer.PopulateEvents | src/components/timeline_view/Packer.js:54-103 | From any input, the layout of the indexed events in sorted order, in fresh objects |
| Refcount.RefinesLock | ios/Pods/BoringSSL/crypto/refcount_c11.c:37-65 | Over every run of any number of threads with spurious failures, the operations take effect one after the other, each with its result and change under the lock, and each thread gets those results in order; all of it is a history of the form under the lock iff no operation took effect after a decrement had read zero |
| Refcount.SwapTakesEffect | ios/Pods/BoringSSL/crypto/refcount_c11.c:40-63 | In every reachable state a swap that finds what it expects, and the end of the loop on the maximum, let the operation take effect with its result and change under the lock |
| Refcount.AloneCompletes | ios/Pods/BoringSSL/crypto/refcount_c11.c:37-65 | A thread that runs alone completes its operation in three moves from any count, with the result and change under the lock |
| Refcount.OnlyMove | ios/Pods/BoringSSL/crypto/refcount_c11.c:37-65 | A thread in an operation always has a move, and just one unless a swap fails for no reason |
| Refcount.StepInNumbers | ios/Pods/BoringSSL/crypto/refcount_lock.c:29-51 | The form under the lock counts up to 2^32 - 1, stays there, and aborts below zero |
| Refcount.EffectsKeepOrder | ios/Pods/BoringSSL/crypto/refcount_c11.c:37-65 | Over every run, an operation that returned before another one began, in the same or another thread, took effect before it |
| Refcount.HistoryGrows | ios/Pods/BoringSSL/crypto/refcount_c11.c:37-65 | What has taken effect is never undone or reordered |
| Refcount.CoveredNeverAborts | ios/Pods/BoringSSL/crypto/refcount_c11.c:37-65 | If the initial count and the increments returned always cover the decrements begun, no decrement reads zero, nothing aborts, and the whole history is one of the form under the lock |
| Refcount.AbortOvertaken | ios/Pods/BoringSSL/crypto/refcount_c11.c:48-55 | An instance: an increment takes effect and returns between a decrement's reading zero and its abort, which the form under the lock cannot show |
| Refcount.LockUpToAbort | ios/Pods/BoringSSL/crypto/refcount_lock.c:37-51 | Up to its first abort every history is one of the form under the lock |
| Refcount.ReplayExactly | ios/Pods/BoringSSL/crypto/refcount_lock.c:29-51 | A history with the right results is one of the form under the lock iff nothing in it follows an abort |
| Refcount.MoveKeepsGood | ios/Pods/BoringSSL/crypto/refcount_c11.c:37-65 | Every atomic access of every thread keeps the invariant |
| Refcount.CountIsNet | ios/Pods/BoringSSL/crypto/refcount_lock.c:29-51 | The count is initial + incs - decs until it reaches 0xffffffff, and stays there |
| Refcount.FallsReported | ios/Pods/BoringSSL/crypto/refcount_lock.c:37-51 | An operation reports zero iff it took the count from above zero to zero |
| Refcount.AbortMeansZero | ios/Pods/BoringSSL/crypto/refcount_c11.c:51-54 | The process aborts only if a decrement found the count at zero |
| Refcount.FailureMeansProgress | ios/Pods/BoringSSL/crypto/refcount_c11.c:41-46 | A compare-and-swap fails with reason only if another operation took effect meanwhile |
| Refcount.LockedCount.Inc | ios/Pods/BoringSSL/crypto/refcount_lock.c:29-35 | Adds one below the maximum |
| Refcount.LockedCount.DecAndTestZero | ios/Pods/BoringSSL/crypto/refcount_lock.c:37-51 | Aborts on zero, after which there is no operation; otherwise takes one away below the maximum, and reports zero |

## Left out

- Cryptography, certificates, key schedules, transcript hashes and record protection: a call's success is decided by the environment, and authentic means that the AEAD opened the record.
- TLS 1.3: `do_tls13` may answer anything, and nothing is claimed of a handshake that has chosen it; handoff serialization and allocation failure are left out too.
- Contents of handshake messages: whether they pass their checks, and what they settle (cipher, extensions, resumption), are decided by the environment in each call.
- HandshakeClient.Do: the do_ functions are modelled as functions from the handshake's old fields to its new ones; only the dispatch loop and ssl_run_handshake update an object.
- HandshakeServer.Do: the same; the server's repeated looks at one ClientHello are separate answers of the environment.
- HandshakeRun.KeysChangeInOrder: holds for handshakes that have not chosen TLS 1.3.
- HandshakeRun.Connection.RunHandshake: the number of times the transport answers before it blocks is a parameter, since an endless supply of discarded records keeps the original in its loop; what rwstate is set to is the result's reason.
- DTLS record header parsing, version checks and the datagram layer: records arrive as their payload; which fragments a payload holds is arbitrary.
- SSL_MAX_HANDSHAKE_FLIGHT is not defined in this repository and is a parameter, at least 1.
- DtlsDelivery.FlightDelivered: about fragments that the receiver admits when they are opened (its length limit, its window, and in the encrypted epoch the current message); `DtlsDelivery.AlertExactly` says what any other does.
- DtlsDelivery.DeliveredAsSent: handshake sequence numbers below 2^16 and bodies below 2^24 bytes; wrapping is not modelled.
- DtlsReceiver.Receiver.GetIncomingMessage: a new buffer's bytes are zero here and unspecified there; no byte that has not arrived is ever returned.
- DtlsRecord.AcceptedOnce: up to the first wrap of the 16-bit epoch.
- DtlsRecord.NoncesUnique: up to the first overflow of a counter, which the code reports, or wrap of the epoch, which it does not; beyond these bounds it is false.
- DtlsEpochs.NoMessageMixesEpochs: epochs are counted without the 16-bit wrap.
- DtlsSender.Sender.AddOutgoing: a transcript that cannot be updated and data of 2^32 bytes or more are left out.
- DtlsSender.Sender.SendFlight: which seals and writes succeed, and how long a record is within its bound, is given for each place of the flight; the assertion on the MTU is taken as compiled out.
- DtlsTimer.TimerOverRuns: for a clock that has left zero, since a deadline of zero means a stopped timer; the sum of seconds does not wrap.
- nanopb callbacks, extensions, pointer fields, delimited encoding and oneof members of pointer type.
- PbRoundTrip.RoundTrip: encodings are below 2^32 bytes, field numbers below 2^29, and no proto3 submessage holds a oneof.
- PbEncoder.EncodeField: not for proto3 submessages that hold a oneof, where the default check reads the union's bytes as each of its types; unused slots of arrays are taken to be zero.
- PbEncoder.CheckProto3Default: the same.
- PbDecoder.CheckRequired: not for exactly 32 or at least 64 required fields; for 32 the shift by 32 is undefined in C. PB_FIELD_32BIT is set by the build, so sizes are 32 bits wide.
- PbDecoder.DecodeField: submessage descriptors as for PbDecoder.DecodeInto.
- PbConcat.RequiredCheckExact: below 64 required fields; for 32 it holds of the specified check, which the shift in C does not define.
- PbDecoder.DecodeInto: descriptors whose field numbers are different and whose required-field counts, at each level, are those of PbDecoder.CheckRequired; what a struct holds after a failed decode is not specified, nor are the texts of error messages.
- PbEncoder.EncodeMessage: submessages as for PbEncoder.EncodeField; the struct's members are values addressed by name; reading through pData is modelled as the offset arithmetic of PbIter only.
- PbEncoder.GetEncodedSize: submessages as for PbEncoder.EncodeField.
- PbEncoder.EncodeToBuffer: submessages as for PbEncoder.EncodeField; callback-free messages; the byte buffer is modelled, the stream's function pointers are not.
- CipherChoice.ChooseCipher: parsing the client's list and computing the masks from certificates and curves are left out; the masks are parameters.
- Packer.PopulateEvents: times are milliseconds of one calendar without daylight saving, each event has an end (the one-hour default is left out), and the sort is any sorted permutation of the input, computed by insertion.
- PackerBoxes.OthersAbove: boxes are over real numbers; rounding of the original's floating point is left out.
- Refcount.RefinesLock: memory ordering weaker than sequential consistency is left out, as the original uses the default ordering.
- Packer.BuildEvent: the one-hour default for an event without an end is left out.
- SortedList.js, Calendar.js, screens, networking, CPU detection, thread shims, AppAuth and Firebase headers.
