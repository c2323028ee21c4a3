# LowNet firmware model

Dafny proofs about an ESP32 firmware: the LowNet frame layer, its network time, signed commands, pings, and
the client of the Crane Control Protocol (CCP), which drives a remote crane over LowNet with stop-and-wait
acknowledgements, five attempts per command and a forced disconnect on failure.

`dafny verify dfyconfig.toml` checks everything.

| file | what it holds |
|---|---|
| `MachineTypes.dfy` | C integer widths, little-endian byte strings |
| `Gf2.dfy`, `Crc.dfy` | polynomials over GF(2); the frame checksum as their division, and the errors it detects |
| `Crypt.dfy` | cipher block chaining (section 6.2 of NIST SP 800-38A) over an abstract block permutation |
| `LowNet.dfy` | building, encrypting, receiving, checking and dispatching frames; the protocol table; the clock |
| `NetTime.dfy` | times in 1/256 s with 32-bit wrap; what the clock reports; the ten-second limit |
| `Command.dfy`, `CommandRuns.dfy` | the signed-command receiver, and what holds over all its runs |
| `CraneMachine.dfy` | the CCP client as a machine of atomic blocks between blocking points |
| `CraneRuns.dfy`, `CraneTest.dfy` | what holds over all runs of the client, under any packets; the automated test |
| `CraneLaws.dfy` | what the client does at each point, said without the machine's own functions and in the protocol's numerals |
| `CraneSystem.dfy` | the client with a lossy, duplicating, reordering network and an abstract crane |
| `CraneClient.dfy` | the client as the firmware writes it, a class with blocking loops, proved to follow the machine |
| `Ping.dfy` | the ping handlers, and a network of nodes in which ping traffic dies out |
| `Utility.dfy` | the hexadecimal parser |

## Two forms of the crane client

`CraneMachine.Step` is one atomic block: a packet handler of the receive task, or the command line task from one
blocking point to the next. The blocking points are the receives of `read_acks` (the drain loop's included), every
delay, and the gaps between commands and between the items of the test. All theorems about runs are about this
machine and quantify over every interleaving and every packet.

`CraneClient.Controller` has the firmware's fields and loops. Each of its calls blocks at the same points; its constant
`arrivals`, which may be any list, says what the receive task handles at each of them. Every call ensures `Followed`:
the client ends exactly in the state the machine reaches from the same start under the same arrivals. And `Valid`
says that this state is reachable, so whatever is proved of reachable machines holds of the object.

What the machine does is itself pinned from outside: `CraneLaws` states the SYN, the reply to a challenge, the queue,
the return codes, the waiting loops and the blocking times without naming the functions that define them. Likewise
frames, signature frames, pings, times and the checksum have laws on their bytes and bits.

## Assumptions about the surroundings

- Handlers are atomic and interleave with the command line task at its blocking points only.
- `CraneSystem`: CCP packets come from the crane the client connected to, and nothing of an earlier connection is
  still on the air. That crane accepts ACTION n only when it expects n, and reports in a STATUS no number above what
  it has accepted; otherwise it may send anything at any time. The meaning of the packets is that of
  `managed_components/crane/include/crane.h:74-79`.
- The acknowledgement queue is created once (`managed_components/crane/crane.c:53`) and never emptied when a
  connection starts. Exactly-once delivery is therefore stated connection by connection, under a condition on what is
  left in the queue when the connection starts, whatever the earlier ones started with. The condition is exact
  (`ExactlyOnceExactlyIfHarmless`): a connection, opened or started by the test, can go wrong if and only if something
  is left and all of it is the number 1, and an ordinary connection can leave that behind (`DeceptiveQueueArises`).
- The hash and the RSA operation, both of which may fail, and the block cipher are arbitrary functions; of the cipher
  only that decryption inverts encryption on 16-byte blocks is assumed.
- Random bytes, timer readings, and what local buffers held before are parameters.

## Where the code says something else than its documentation

The model follows the code.

- `time_to_milliseconds` and `time_from_milliseconds` (`managed_components/lownet/lownet_util.c:5-17`) count 1/256 s,
  not milliseconds. `time_diff` does not need its documented precondition (`managed_components/lownet/include/lownet_util.h:23-27`).
- The repository's own README (`README.md:16-27`) announces a proof-of-work handshake and NAK handling. The client
  answers the challenge with its complement (`managed_components/crane/crane.c:172`) and ignores a NAK (`managed_components/crane/crane.c:197-201`).
- After a CLOSE of the crane the destination is 0 (`managed_components/crane/crane.c:190`), so the remaining
  retransmissions of an action under way, and its own CLOSE, go to node 0. The number is not reset when
  `crane_action` finds destination 0 (`managed_components/crane/crane.c:324-327`).
- A command can be executed more than once (`OneCommandExecutesTwice`). After a valid signature the receiver keeps
  waiting for the same half (`managed_components/command/command.c:168-169`), so a copy of that half executes the command
  again while it is in time. And a command whose number equals the last one executed is accepted
  (`managed_components/command/command.c:175`), so the command and its halves can be replayed at any later time.
  `ExecutesExactly` says precisely on which arrivals a command is executed.
- A failure of the RSA operation is not looked at (`managed_components/command/command.c:103-108`): the comparison then
  reads what the local buffer held. `ApprovedExactly` says when that makes a difference.
- `lownet_get_handler` asks for a registered protocol (`managed_components/lownet/lownet.c:509-512`) but is also called
  for unregistered ones, and then finds none.

## Model

| member | source | states |
|---|---|---|
| CraneSystem.DeliveredExactlyOnce | managed_components/crane/crane.c:317-372 | In every state of every run with a lossy, duplicating, reordering network whose latest connection did not start with a deceptive queue, whatever its earlier ones started with, the crane's log is the list of acknowledged commands, or that list and the one pending command |
| CraneSystem.ZeroMeansAccepted | managed_components/crane/crane.c:362-366 | When an action returns 0, the crane's log has as many entries as the action's number says, and the last one is its command |
| CraneSystem.NoUnexpectedAcknowledgement | managed_components/crane/crane.c:356-360 | If the latest connection started with an empty queue, a connected client never has or reads an acknowledgement above its own number, so the -2 branch needs a CLOSE |
| CraneSystem.ExecutedIsPrefixOfScript | managed_components/crane/crane.c:404-479 | During a test, and after it until the next connection starts, the crane has accepted a prefix of the ten commands, at most one longer than what is acknowledged, as long as the command line sends nothing in that connection |
| CraneSystem.FinishedTestLasts | managed_components/crane/crane.c:475-479 | After a test that ended disconnected the command line cannot send anything before the next connection, so the prefix stands until then |
| CraneSystem.TestOnlyHolds | managed_components/crane/crane.c:404-479 | In a connection started by the test, what is acknowledged and pending is from the script, after the test has returned too |
| CraneSystem.ExactlyOnceExactlyIfHarmless | managed_components/crane/crane.c:250-267 | After any history, a connection started by opening or by the test is served exactly once, whatever happens in it, if and only if the queue it starts with is empty or holds something other than 1s (or it is with node 0, which is never sent a command) |
| CraneSystem.DeceptiveQueueBreaksDelivery | managed_components/crane/crane.c:301-312 | If a connection of either kind starts while the queue holds only 1s, some run of it acknowledges its first command although the crane has accepted nothing |
| CraneSystem.DeceptiveQueueArises | managed_components/crane/crane.c:204-207 | Such a queue is left behind by an ordinary connection in which one STATUS is repeated |
| CraneSystem.StartKeeps | managed_components/crane/crane.c:250-267 | A connection that starts with a harmless queue satisfies the system invariant, whatever was before |
| CraneSystem.MoveKeeps | managed_components/crane/crane.c:144-372 | Every move of client, network and crane within a connection keeps the system invariant, whichever honest or left-over acknowledgements are queued |
| CraneSystem.ConnectionKeeps | managed_components/crane/crane.c:144-372 | So does every run within a connection |
| CraneSystem.StaysUnserved | managed_components/crane/crane.c:324-328 | In a connection with node 0 no command is ever sent, acknowledged or accepted |
| CraneSystem.AcceptKeeps | managed_components/crane/crane.c:333-347 | Whatever ACTION the crane accepts, delayed and repeated ones included, is the pending command |
| CraneSystem.LocalProgresses | managed_components/crane/crane.c:301-372 | A block of the command line task can only begin a command, get the pending one acknowledged after draining the queue, or leave the history alone; and it adds nothing to the queue |
| CraneSystem.ClientInvHolds | managed_components/crane/crane.c:144-479 | What is proved of the client alone holds in every run of the system |
| CraneSystem.SystemInvHolds | managed_components/crane/crane.c:144-479 | The system invariant holds in every state of every run whose latest connection started with a harmless queue; acknowledgements stay within the log if it started with an empty one |
| CraneRuns.InvHolds | managed_components/crane/crane.c:144-479 | The connection, naming and transmission invariants hold after every run under arbitrary packets |
| CraneRuns.ReachableInv | managed_components/crane/crane.c:144-479 | The same for every reachable state |
| CraneRuns.ConnectionKept | managed_components/crane/crane.c:144-208 | Every step keeps: connected means a number of at least 1, handshake means 0, at most 8 queued numbers in 1..0xFFFE, and a waiting action has the current number or was closed |
| CraneRuns.NamingKept | managed_components/crane/crane.c:330-366 | Every step keeps: each ACTION sent in this connection is an acknowledged command under its own number or the pending one |
| CraneRuns.AccountKept | managed_components/crane/crane.c:339-349 | Every step keeps: since an action began only its packet was sent, once and once more per empty read |
| CraneRuns.ReadKept | managed_components/crane/crane.c:301-312 | Every step keeps: the value of the read under way is the largest number it took, 0 exactly if it took none |
| CraneRuns.ReadIsMaximum | managed_components/crane/crane.c:301-312 | So it is in every reachable state |
| CraneRuns.ReadTakesInOrder | managed_components/crane/crane.c:305-310 | A block of a read moves numbers from the head of the queue to what it took and loses none; all else only adds to the queue |
| CraneRuns.DestinationKept | managed_components/crane/crane.c:144-347 | Every step keeps: everything sent in a connection goes to the node it was started with until the crane closes, and to node 0 from then on |
| CraneRuns.ReachableTrail | managed_components/crane/crane.c:144-479 | Both hold in every reachable state |
| CraneRuns.ConnectionStates | managed_components/crane/crane.c:144-208 | In every reachable state: the number is in 1..0xFFFF when connected and one more than the acknowledged commands, 0 in a handshake; the queue is bounded and holds neither 0 nor 0xFFFF |
| CraneRuns.NumberNamesOneCommand | managed_components/crane/crane.c:330-366 | In one connection two ACTIONs with one number are one packet |
| CraneRuns.NumberNeverWraps | managed_components/crane/crane.c:351-363 | A step leaves the number, zeroes it, sets it to 1 by a handshake or adds one without wrapping; the 0xFFFF branch is dead |
| CraneRuns.EmptyReadsRetransmit | managed_components/crane/crane.c:345-349 | While an action goes on, exactly the reads that found nothing send again |
| CraneRuns.TransmissionsOfAnAction | managed_components/crane/crane.c:339-371 | A returning action has sent 1 + (empty reads) identical ACTIONs, at most 5 and no CLOSE if it returns 0, at most 6 and then one CLOSE if it fails |
| CraneRuns.DestinationsOfAnAction | managed_components/crane/crane.c:339-371 | The packets of a returning action went to the connection's node up to some point and to node 0 from there on, the first to the node; all of them to the node if it returns 0 |
| CraneRuns.FailureDisconnects | managed_components/crane/crane.c:317-372 | An action returns 0 if and only if the client is connected afterwards, and if and only if the pending command became acknowledged |
| CraneRuns.OnlyTheUserReconnects | managed_components/crane/crane.c:144-149 | Out of the disconnected state only opening or testing leads, into a handshake with a fresh history |
| CraneRuns.ClosedActionFails | managed_components/crane/crane.c:185-191 | From a CLOSE that arrives during an action, through whatever events, to its return: the client stays disconnected, nothing is acknowledged, everything still sent goes to node 0, and the action does not return 0 |
| CraneLaws.StartsWithSyn | managed_components/crane/crane.c:250-267 | Opening, only when disconnected, and the test, always, start a connection with exactly one packet: type 1, flags 1 or 9, number 0, no challenge, to the node given |
| CraneLaws.ConnectsExactly | managed_components/crane/crane.c:144-182 | A packet connects if and only if the client is in a handshake and it is a CONNECT with SYN and ACK; then exactly one packet is sent, to the crane: a CONNECT with number 0, flags ACK and TEST as received, and data that add up with the challenge to 2^32 - 1. No other packet makes the client send |
| CraneLaws.ComplementFlipsBits | managed_components/crane/crane.c:172 | Such data differ from the challenge in every bit |
| CraneLaws.ConnectedHasReplied | managed_components/crane/crane.c:144-182 | In every run, a connected client has sent in this connection the SYN and, to the same node, the reply to a CONNECT with SYN and ACK that it received |
| CraneLaws.PacketsChange | managed_components/crane/crane.c:185-244 | A STATUS without NAK queues its number if that is in 1..0xFFFE and fewer than eight are queued, and is remembered; a CLOSE disconnects and clears number and crane; nothing else changes the client |
| CraneLaws.BacklogIsLastReported | managed_components/crane/crane.c:210-212 | In every run the backlog is the low byte of the last STATUS without NAK that was handled, 0 if there was none |
| CraneLaws.ActionBegins | managed_components/crane/crane.c:317-339 | An action called while connected to a node other than 0 sends exactly one ACTION with the client's number and the command and waits; otherwise it sends nothing and returns -1, giving up a connection with node 0 |
| CraneLaws.ReadEndsOnEmptyQueue | managed_components/crane/crane.c:306-311 | A read ends only when the queue is empty; exactly then it is noted with its value and the client's number |
| CraneLaws.VerdictKept | managed_components/crane/crane.c:341-371 | Every step keeps: no read so far of an action under way decides, and a failing action has the reads that its code requires |
| CraneLaws.ReturnCodes | managed_components/crane/crane.c:341-371 | An action that sent returns 0 if and only if its last read is the client's number while connected, -2 if and only if it is above the client's number, and -1 if and only if it made five reads of which none decides; no read before the last decides |
| CraneLaws.Disconnects | managed_components/crane/crane.c:269-295 | Every disconnect sends one CLOSE with the client's number and no flags, and when its delay is over the client is disconnected with number 0 |
| CraneLaws.DelayKept | managed_components/crane/crane.c:389-430 | Every step keeps: the delays of a wait are counted, below 30 and below 100 |
| CraneLaws.PauseExactly | managed_components/crane/crane.c:389-401 | A pause goes on to the next item if and only if the backlog is 0 or 100 delays have passed in it, and otherwise into one more delay |
| CraneLaws.HandshakeWaitExactly | managed_components/crane/crane.c:427-436 | After a delay the script begins if and only if the client is connected, and the test gives up if and only if it is not after 30 delays |
| CraneLaws.ScriptIs | managed_components/crane/crane.c:442-473 | The items of the script with their command codes and the places of the pauses |
| CraneLaws.ScriptGoesOn | managed_components/crane/crane.c:440-476 | When an action of the script has returned its code is reported and the next item follows; the last is followed by a disconnect |
| CraneLaws.BlockingTimes | managed_components/crane/crane.c:306 | The first receive of a read lasts at most 5000 ms, a disconnect 500, any other delay 100, all else nothing |
| CraneTest.TestKept | managed_components/crane/crane.c:404-479 | Every step keeps the invariants on the test's results, its acknowledged commands and its time |
| CraneTest.ResultsAreZerosFirst | managed_components/crane/crane.c:404-476 | The results of the test's actions are zeros followed only by nonzeros, and the zeros are as many as the acknowledged commands, a prefix of the script |
| CraneTest.TestTakesBoundedTime | managed_components/crane/crane.c:427-476 | At every moment of a test and at its end at most 284000 ms were spent blocking |
| CraneTest.TestEnds | managed_components/crane/crane.c:432-476 | A test ends with a failed handshake and no result, or disconnected with ten results and the matching prefix of the script acknowledged |
| CraneTest.WholeScript | managed_components/crane/crane.c:442-473 | The script is the ten commands in order, with three pauses |
| CraneClient.Controller.constructor | managed_components/crane/crane.c:50-56 | The client starts in the machine's initial state |
| CraneClient.Controller.RecvConnect | managed_components/crane/crane.c:144-182 | Client and packets sent after a CONNECT are those of the machine's handler |
| CraneClient.Controller.RecvClose | managed_components/crane/crane.c:185-191 | Likewise for a CLOSE |
| CraneClient.Controller.RecvStatus | managed_components/crane/crane.c:193-212 | Likewise for a STATUS, the full queue and the NAK included |
| CraneClient.Controller.Receive | managed_components/crane/crane.c:226-244 | Likewise for any packet |
| CraneClient.Controller.ReceiveAtPrompt | managed_components/crane/crane.c:226-244 | A packet at the prompt is one delivery step of the machine; the state stays reachable |
| CraneClient.Controller.Connect | managed_components/crane/crane.c:250-267 | Opening is one step of the machine; a connection under way is left alone |
| CraneClient.Controller.ReadAcks | managed_components/crane/crane.c:301-312 | Returns the largest of the acknowledgements it took from the queue, 0 exactly if there was none, whatever arrived meanwhile, and ends where the machine finds the queue empty |
| CraneClient.Controller.Disconnect | managed_components/crane/crane.c:269-295 | Sends one CLOSE and ends, after the delay, where the machine does, disconnected |
| CraneClient.Controller.Close | managed_components/crane/crane.c:269-295 | Closing from the command line ends in exactly the state the machine reaches |
| CraneClient.Controller.Try | managed_components/crane/crane.c:343-366 | One attempt returns with the machine's result, goes on to the machine's next attempt, or leaves all attempts used up |
| CraneClient.Controller.Attempts | managed_components/crane/crane.c:341-371 | The retry loop, and the disconnect after it, return the machine's result in its state |
| CraneClient.Controller.Perform | managed_components/crane/crane.c:317-372 | The call, from the command line or the test, returns the machine's result in the machine's state |
| CraneClient.Controller.Action | managed_components/crane/crane.c:317-372 | An action from the command line ends in exactly the state and with the result of the machine |
| CraneClient.Controller.WaitUntilIdle | managed_components/crane/crane.c:389-401 | The wait ends where the machine goes on with the next item |
| CraneClient.Controller.Greet | managed_components/crane/crane.c:427-430 | The wait for the handshake ends connected at the first item, or back at the prompt |
| CraneClient.Controller.RunScript | managed_components/crane/crane.c:440-476 | The sequence of calls follows the machine through the whole script |
| CraneClient.Controller.Test | managed_components/crane/crane.c:404-479 | A whole test ends in exactly the state the machine reaches |
| CraneClient.TurnReachable | managed_components/crane/crane.c:226-312 | One interval of arrivals and the block after it lead from reachable states to reachable states |
| CraneClient.TurnTakes | managed_components/crane/crane.c:287-306 | A receive for which nothing comes takes 5000 ms, a disconnect 500 ms, any other delay 100 ms |
| CraneClient.ReadEnds | managed_components/crane/crane.c:309-311 | A read that finds the queue empty is followed by the judgement on what was read, in one block |
| CraneClient.HangupEnds | managed_components/crane/crane.c:287-294 | The end of the delay resets the connection over whatever arrived in it, and keeps the result |
| Crc.Compute | managed_components/lownet/lownet.c:469-489 | The nested loops compute the register of the whole bit string, below 2^24 |
| Crc.BitOrder | managed_components/lownet/lownet.c:475-481 | Bytes are taken in order, the bits of a byte from the lowest to the highest |
| Crc.ChecksumIsRemainder | managed_components/lownet/lownet.c:469-489 | The checksum of n bytes is below 2^24 and the only remainder of 0x777777 x^(8n) plus the message on division by 0x1800463, where bit j of byte i is the coefficient of x^(8n-1-8i-j) |
| Gf2.XorBits | managed_components/lownet/lownet.c:480 | The sum of two polynomials has the coefficients in which they differ |
| Gf2.MulParts | managed_components/lownet/lownet.c:471 | The product by the coefficients of the first factor, which determines it |
| Crc.RegisterIsRemainder | managed_components/lownet/lownet.c:473-482 | After any bits the register is below 2^24, and start * x^n + message is a multiple of G plus the register |
| Crc.RemainderIsRegister | managed_components/lownet/lownet.c:473-482 | It is the only such remainder |
| Crc.DivisionStep | managed_components/lownet/lownet.c:477-480 | One turn of the loop is one step of long division |
| Crc.EqualExactlyOnMultiples | managed_components/lownet/lownet.c:469-489 | Messages of one length have one register if and only if their difference is a multiple of G |
| Crc.BurstIsDetected | managed_components/lownet/lownet.c:469-489 | Messages that differ only within 24 consecutive bits, and do differ, have different registers |
| Crc.ByteBurstIsDetected | managed_components/lownet/lownet.c:483-487 | Messages that differ only within three adjacent bytes have different checksums |
| Crypt.CbcRoundTrip | managed_components/crypt/crypt.c:13-53 | Chained decryption inverts chained encryption on any number of blocks |
| Crypt.XorBytesBits | managed_components/crypt/crypt.c:43-50 | The sum of two byte strings, bit by bit |
| Crypt.CbcEncryptBlock | managed_components/crypt/crypt.c:43-50 | Each block of the cipher text is the encrypted sum of the plain block and the cipher block before it, or the vector |
| Crypt.CbcDecryptBlock | managed_components/crypt/crypt.c:23-29 | Each block of the plain text is the sum of the decrypted cipher block and the cipher block before it, or the vector |
| Crypt.EncryptedFrameIs | managed_components/crypt/crypt.c:33-53 | An encrypted frame byte for byte: bytes 0..19 in the clear, bytes 4..19 the vector, and 13 chained blocks from byte 20 |
| Crypt.DecryptedFrameIs | managed_components/crypt/crypt.c:13-31 | Likewise for a decrypted frame |
| Crypt.FrameRoundTrip | managed_components/crypt/crypt.c:13-53 | Decrypting an encrypted secure frame gives it back; header and vector are unchanged on the way |
| Crypt.Encrypt | managed_components/crypt/crypt.c:33-53 | The output buffer is the encrypted frame, the input unchanged |
| Crypt.Decrypt | managed_components/crypt/crypt.c:13-31 | The output buffer is the decrypted frame, the input unchanged |
| LowNet.BuiltIsIntact | managed_components/lownet/lownet.c:216-229 | Every frame sent passes the magic and checksum tests |
| LowNet.BuiltIs | managed_components/lownet/include/lownet.h:27-37 | A frame on the air byte for byte: magic 0x10 0x4e, source, destination, protocol, length, padding, payload, noise, checksum with its lowest byte first |
| LowNet.LaidIs | managed_components/lownet/include/lownet.h:39-50 | A secure frame byte for byte before encryption: magic 0x20 0x4e, source, destination, vector, the rest of the frame |
| LowNet.RestoredIs | managed_components/lownet/lownet.c:327-330 | A decrypted frame byte for byte: plain magic, source, destination, and what was behind the vector |
| LowNet.SizesOnAir | managed_components/lownet/lownet.c:443-453 | Something is sent if and only if the length is at most 200; 212 bytes without a key, 228 with one, and only those are received |
| LowNet.SentIs | managed_components/lownet/lownet.c:176-240 | The bytes sent: the frame, or magic, identity, destination and vector in the clear and what decrypts to the rest of the frame |
| LowNet.DispatchedExactly | managed_components/lownet/lownet.c:391-423 | A frame goes to a handler if and only if its magic, checksum, source and destination pass and the handler is the one found for the low six bits of byte 4 |
| MachineTypes.FromLeBytes | managed_components/lownet/include/lownet.h:27-37 | Byte i of a number in a packed struct counts 256^i |
| MachineTypes.ToLeBytes | managed_components/lownet/include/lownet.h:27-37 | Byte i of a number written is its quotient by 256^i, modulo 256 |
| LowNet.SentIsReceived | managed_components/lownet/lownet.c:176-240 | A frame of length at most 200 reaches a peer in the same mode with the same key byte for byte as built, with the sender's identity and the payload given |
| LowNet.DeliveredExactly | managed_components/lownet/lownet.c:391-423 | The peer's handler runs on a sent frame if and only if its length is possible, it is not from the broadcast address, it is for the peer or for all, and that handler is the one registered for its protocol |
| LowNet.ModesDoNotMix | managed_components/lownet/lownet.c:443-453 | Nothing gets through between a node with a key and one without |
| LowNet.DamagePassesExactly | managed_components/lownet/lownet.c:393-404 | A frame changed under the checksum passes the tests if and only if its magic bytes are in place and the change is a multiple of G |
| LowNet.DamageIsDropped | managed_components/lownet/lownet.c:399-404 | A frame changed within any 24 consecutive bits under the checksum reaches no handler |
| LowNet.ChecksumDamageIsDropped | managed_components/lownet/lownet.c:399-404 | A frame of which only the checksum field is changed, in whatever way, reaches no handler |
| LowNet.LookupIsFirst | managed_components/lownet/lownet.c:513-525 | The lookup finds the first registration, and nothing if and only if there is none |
| LowNet.LeRoundTrip | managed_components/lownet/lownet.c:229 | The checksum is read back from the bytes it was written to |
| LowNet.Assembled | managed_components/lownet/lownet.c:213-226 | Writing the fields one after the other lays the frame out as specified |
| LowNet.Net.constructor | managed_components/lownet/lownet.c:340-347 | A node starts with no protocol, no key and empty queues |
| LowNet.Net.RegisterProtocol | managed_components/lownet/lownet.c:497-507 | Appends to the table, or refuses when ten are registered and changes nothing |
| LowNet.Net.GetHandler | managed_components/lownet/lownet.c:513-525 | The loop finds the first registered handler |
| LowNet.Net.SetKey | managed_components/lownet/lownet.c:288-300 | No key means plain mode; a key of a wrong size leaves the old one |
| LowNet.Net.Send | managed_components/lownet/lownet.c:208-240 | What goes on the air is the specified transmission, in either mode, or nothing for an impossible length |
| LowNet.Net.FillWithNoise | managed_components/lownet/lownet.c:222-226 | Exactly the unused payload bytes are overwritten with noise |
| LowNet.Net.EncryptSend | managed_components/lownet/lownet.c:176-203 | The secure frame is the encryption of the plain one with the vector given |
| LowNet.Net.InboundHandler | managed_components/lownet/lownet.c:443-453 | A frame joins the queue of its mode if its size fits the mode and the queue is not full; nothing else changes |
| LowNet.Net.DecryptService | managed_components/lownet/lownet.c:315-333 | Moves the oldest encrypted frame, decrypted, to the inbound queue, dropping it if that is full; fails if and only if a frame is waiting and the key has been removed |
| LowNet.Net.ServiceMain | managed_components/lownet/lownet.c:385-425 | Takes the oldest frame and gives it to the specified handler, or to none |
| LowNet.Net.SetTime | managed_components/lownet/lownet.c:263-268 | Remembers the time and the timer's milliseconds |
| LowNet.Net.GetTime | managed_components/lownet/lownet.c:243-259 | Reports the extrapolated time, zero if it was never set |
| NetTime.CompareIsOrder | managed_components/lownet/lownet_util.c:19-34 | The comparison is the order of the instants in 1/256 s, both directions |
| NetTime.DiffIsExact | managed_components/lownet/lownet_util.c:36-39 | The difference is exact modulo 2^32 units for all times, through every overflow |
| NetTime.ReportUnits | managed_components/lownet/lownet.c:252-256 | The reported time is the scaled elapsed time, modulo the wrap of the seconds |
| NetTime.ReportExactly | managed_components/lownet/lownet.c:243-259 | The reported time, exactly: zero if the clock was never set, otherwise the time set plus the scaled milliseconds, modulo 2^40 units |
| NetTime.ClockIsAccurate | managed_components/lownet/lownet.c:243-259 | The reported time is never ahead of the exact one and less than 1.256 units behind |
| NetTime.ClockIsMonotone | managed_components/lownet/lownet.c:243-259 | The reported time never goes back between synchronisations |
| NetTime.ExpiredExactly | managed_components/command/command.c:238-240 | The timeout test compares exactly the units counted between two readings, modulo 2^32 |
| NetTime.TenSecondsExactly | managed_components/command/command.c:229-240 | The timeout test fires if and only if more than 2560 units lie between the times, modulo 2^32 |
| NetTime.TenSecondBound | managed_components/command/command.c:229-245 | Never expired up to 10000 ms of the timer, always from 10004 ms up to the wrap |
| NetTime.TenSecondBoundIsTight | managed_components/command/command.c:229-245 | 10001 ms can be expired and 10003 ms can be in time |
| CommandRuns.ExecutesExactly | managed_components/command/command.c:159-260 | In every run, an arrival executes a command if and only if that is the most recently accepted one, the arrival is a half of it in time of the type opposite to the first that came, the latest halves of both types are approved as its signature, and no late frame of its hash and no wrong signature ended it before |
| CommandRuns.OnlyAuthorisedCommandsExecute | managed_components/command/command.c:159-260 | An executed command is the most recently accepted one, and the latest first and second halves that came after it, with its hash and the key's and in time, together are approved as its signature; the frame at hand is one of them |
| CommandRuns.TrackedAfter | managed_components/command/command.c:172-260 | After every run the receiver waits if and only if a command is alive; the pending frame, its time, hash, the awaited type and the half in the buffer are those of identified arrivals |
| CommandRuns.HalfTracked | managed_components/command/command.c:195-222 | A half in time updates that correspondence, and executes exactly if it completes an approved signature |
| CommandRuns.SignedCommandExecutes | managed_components/command/command.c:172-222 | After any run, a command at or above the floor that is followed by the halves of its genuine signature in time is executed |
| CommandRuns.GenuineFramesExecute | managed_components/command/command.c:172-260 | The same on bytes: protocol bytes 64..127, 128..191 and 192..255, number not below that of the last command executed, key hash, command hash and half in their places, and a signature that RSA turns into 220 zeros, four ones and the hash |
| CommandRuns.ExchangedHashesAreIgnored | managed_components/command/command.c:235-248 | A signature frame with the two hashes exchanged leaves the receiver as it is |
| CommandRuns.ReplacesExactly | managed_components/command/command.c:172-176 | A command is accepted, on its bytes, if and only if it is signed and its number is not below that of the last command executed |
| CommandRuns.SupportsExactly | managed_components/command/command.c:227-260 | What makes a frame a half of a command's signature, on its bytes |
| CommandRuns.TooLateExactly | managed_components/command/command.c:235-245 | What makes a signature frame late, on its bytes; the key's hash does not matter |
| CommandRuns.NumbersNeverDecrease | managed_components/command/command.c:159-193 | Executed sequence numbers never decrease in any run, and the floor is the last of them |
| CommandRuns.PendingIsAboveFloor | managed_components/command/command.c:172-193 | A pending command's number is never below the floor |
| CommandRuns.ExecutionSetsFloor | managed_components/command/command.c:159-170 | A step executes only the pending command and only then moves the floor, to its number |
| CommandRuns.HalvesInEitherOrder | managed_components/command/command.c:195-222 | Both orders of the halves execute the same command, exactly if they are approved as its signature |
| CommandRuns.ExecutionRepeats | managed_components/command/command.c:168-169 | Coming again, the frame that completed a signature executes the command again if it is in time and approved again, as often as it comes, and otherwise ends it |
| CommandRuns.OneCommandExecutesTwice | managed_components/command/command.c:168-175 | From the start, a command is executed by its halves, again by a copy of the second half in time, and again when the command and its halves are replayed, however late |
| CommandRuns.SomeCommandExecutesTwice | managed_components/command/command.c:168-175 | A concrete run from the start that does so |
| CommandRuns.HalfInTime | managed_components/command/command.c:227-260 | With a set clock, a signature frame for the pending command is judged by its key and half up to 10000 ms after the command, and ends it from 10004 ms on, up to the wrap |
| CommandRuns.LateHalvesExecuteNothing | managed_components/command/command.c:159-260 | In a run timed by one set clock, no command is executed on a half that came 10004 ms or more after it, up to the wrap |
| Command.ApprovedExactly | managed_components/command/command.c:101-116 | Approved are exactly the genuine signatures and those on which RSA fails while the local buffer holds what a genuine one turns into |
| Command.GenuineExactly | managed_components/command/command.c:101-116 | A signature is genuine if and only if RSA turns it into 220 zeros, four ones and the hash |
| Command.FrameTypes | managed_components/command/command.c:57-60 | The type by the value of byte 4 |
| Command.CommandFields | managed_components/command/include/command.h:19-25 | Number, type and contents of a command frame, on its bytes |
| Command.SignatureFields | managed_components/command/include/command.h:30-35 | Key hash in bytes 8..39, command hash in 40..71, half in 72..199 |
| Command.ReadyNextClears | managed_components/command/command.c:66-73 | Everything but the floor is cleared; the first floor is 0 |
| Command.ExecutionIs | managed_components/command/command.c:140-152 | The effect of a command by the bytes of its frame |
| Command.PingFitsContents | managed_components/command/command.c:131-135 | The ping of a test command stays within the command's contents if and only if the frame's length is in 12..200 |
| Command.Commands.constructor | managed_components/command/command.c:262-265 | The receiver starts listening, with floor 0 |
| Command.Commands.CommandReadyNext | managed_components/command/command.c:66-73 | Everything but the floor is cleared |
| Command.Commands.VerifySignature | managed_components/command/command.c:101-116 | True exactly for an approved signature of the hash in the buffer, given what the local buffer held |
| Command.Commands.SignatureReceived | managed_components/command/command.c:159-170 | An approved signature executes the pending command and sets the floor to its number; any other discards it |
| Command.Commands.HandleCommandFrame | managed_components/command/command.c:172-193 | An old number changes nothing; a new one replaces what was pending; a failed hash clears it |
| Command.Commands.HandleSignaturePart1 | managed_components/command/command.c:195-206 | The first half is stored, and completes the signature if it was awaited |
| Command.Commands.HandleSignaturePart2 | managed_components/command/command.c:208-222 | The second half likewise |
| Command.Commands.HandleSignatureFrame | managed_components/command/command.c:227-260 | Hash, time and key are checked in that order, with their different outcomes |
| Command.Commands.CommandReceive | managed_components/command/command.c:270-287 | Any frame takes the receiver to the specified state and executes the specified command |
| Ping.StampRoundTrip | managed_components/ping/ping.c:49-53 | A time stamp is read back from the bytes it was written to |
| Ping.PingFields | managed_components/ping/include/ping.h:28-33 | The two stamps, the origin and the rest of a ping, on the bytes of its frame |
| Ping.StampIs | managed_components/lownet/include/lownet.h:68-71 | A stamp is four bytes of seconds, the lowest first, and one of parts |
| Ping.AnswersExactly | managed_components/ping/ping.c:90-103 | What makes a frame the answer to a ping, on the bytes of both |
| Ping.Ask | managed_components/ping/ping.c:41-65 | The ping carries the time, the own identity and the payload, cut to what fits |
| Ping.PingReceive | managed_components/ping/ping.c:67-105 | For every frame: a short one is ignored, an own ping shown with its round-trip time, any other answered if and only if its length is at most 200; a longer one makes the copy leave the reply |
| Ping.AnswerTo | managed_components/ping/ping.c:90-104 | The answer goes to the sender with time stamp, origin, length and trailing bytes unchanged and only the return stamp filled in; there is none exactly for lengths above 200 |
| Ping.SentMessage | managed_components/ping/ping.c:64-103 | Sending a ping changes nothing of it but the source |
| Ping.AskedIsStart | managed_components/ping/ping.c:41-65 | A ping of a node's own, as sent, is a start of the network |
| Ping.AnswerIsReply | managed_components/ping/ping.c:90-104 | The answer of the handler, as sent, is the reply of the network |
| Ping.ReceiversAreAddressed | managed_components/lownet/lownet.c:408-414 | The receivers of a ping in the network are the nodes whose dispatcher takes it |
| Ping.DeliveryIs | managed_components/ping/ping.c:76-104 | A delivery adds exactly one ping, back to the source with origin, stamp and trailing bytes unchanged, if the ping is not the node's own, and nothing otherwise |
| Ping.StartIs | managed_components/ping/ping.c:41-65 | A ping started is on the air for the node it is for, or for all |
| Ping.NetworkKept | managed_components/ping/ping.c:67-105 | In every step each ping on the air comes from or goes to its origin and carries what the origin asked |
| Ping.DeliveryLowersPotential | managed_components/ping/ping.c:76-104 | A delivery causes at most one answer, an answer none, and the potential falls |
| Ping.TrafficIsBounded | managed_components/ping/ping.c:41-105 | In every run the deliveries are bounded by what was on the air and the pings started: traffic dies out |
| Ping.AnswersCarryWhatWasAsked | managed_components/ping/ping.c:67-105 | At every moment of every run, stamp, origin and trailing bytes on the air are those of a ping its origin sent |
| Utility.HexToDec | managed_components/utility/utility.c:16-35 | The value of the digits, in either case, modulo 2^32; 0 if any character is no digit |
| Utility.DigitExactly | managed_components/utility/utility.c:17-27 | A character has value v if and only if it stands at place v of the small or the capital digits |
| Utility.NumberPlaces | managed_components/utility/utility.c:32 | Each digit counts 16 to the power of the digits behind it |
| Utility.MapIsDigits | managed_components/utility/utility.c:17-27 | The table search finds a character exactly at its digit value |
| Utility.LastEightDigits | managed_components/utility/utility.c:32 | Modulo 2^32 only the last eight digits matter |
| Utility.PrintRoundTrip | managed_components/lownet/lownet_util.c:46-49 | Reading a number printed in hexadecimal gives the number |
| Utility.PrintIsCanonical | managed_components/lownet/lownet_util.c:46-49 | Printing uses small letters and no leading zero |
| Utility.IdentityRoundTrip | managed_components/lownet/lownet_util.c:46-49 | An identity as it is shown, without its "0x", is read back |

## Left out

- FreeRTOS, ESP-NOW, Wi-Fi and start-up, task creation and removal, the device table: foreign calls and fixed tables; the queues' bounds and the blocking times are kept.
- SHA-256, RSA and the AES block function: arbitrary functions with the assumptions named above; `public_key_init` is not modelled, the key's hash is given.
- The serial service, command line parsing, chat, logging, `format_time`, `printable` and buffer comparison: user interface and one-line helpers. `managed_components/ping/app_ping.c` is not built.
- The bytes of a crane packet: a CCP packet is a record whose union is one 32-bit word, of which a command and a backlog are the low byte; time left, light and temperature are only displayed.
- CraneClient.Controller.ReadAcks: the list of arrivals is finite, so that the drain loop ends; a crane that answers faster than the loop drains, for ever, is not covered by the class, but is by the machine.
- Data races inside handlers and inside single statements of the two tasks.
- CraneSystem.DeliveredExactlyOnce: safety within a connection; that a command is ever delivered is not claimed, and the network is not assumed to be fair.
- NetTime.ClockIsAccurate: stated while the seconds do not overflow and no time is set in between, as the code promises it.
- LowNet.Net.DecryptService: what the task does after the failure (it reads through a null pointer, `managed_components/crypt/crypt.c:19`) is not modelled; the condition for it is.
- LowNet.Net.SetTime: `lownet_sync_time` (`managed_components/lownet/lownet.c:455-467`) is not modelled, it is called from nowhere.
- LowNet.Net.RegisterProtocol: takes a protocol registered before, as the code does.
- Ping.Ask: requires that the payload buffer holds the length given; `PingFitsContents` says when a test command meets that.
- Ping.PingReceive: what a copy beyond the reply overwrites (`managed_components/ping/ping.c:100`) is not modelled; the condition for it is.
- Ping.TrafficIsBounded: every node receives a ping at most once, and nodes have distinct identities, none of them the broadcast address.
- Nothing in this firmware calls `command_receive`: `command_init` (`managed_components/command/command.c:262-268`) does not register it with LowNet, so the command receiver, and with it `lownet_set_time`, is reached only once that is added. The model is of what the receiver then does.
- CraneSystem.ExecutedIsPrefixOfScript: if the crane answers the handshake only after the test has given it up, commands of the command line can follow in that connection; the statement ends there.
- Command.Commands.CommandReceive: gives the command to execute; carrying it out is `Command.Execute` (set the clock, ping, or nothing), and the network time is a parameter.
