# OSDP-Embedded: a verified model

A Dafny model of the OSDP-Embedded stack (SIA OSDP v2.2.2) and proofs about it:
the link protocol between a control panel (ACU) and a peripheral device (PD)
over a half-duplex line that loses frames, the Secure Channel, the framing and
stream layers, reassembly, and the PD's data structures.

`dafny verify dfyconfig.toml` checks everything.

## How it is built

| module | what it holds |
|---|---|
| `Bytes`, `Codes`, `Clocks` | bytes, status codes, message codes, the wrapping 32-bit clock |
| `Crc16`, `Frames`, `Streams` | CRC-16, frame codec and sizing, push decoder |
| `Ciphers`, `Payloads`, `Macs`, `Keys`, `Wrapping` | CBC, padding, the two-key CBC-MAC, key derivation, wrap and unwrap |
| `EventQueues`, `LedStates`, `LedBanks`, `Buzzers` | the PD's data structures |
| `Multiparts`, `FileTransfers`, `Fragments` | reassembly and its sizing |
| `Devices`, `Controllers` | one step of a PD and of an ACU slot, as functions of their states |
| `Peripherals`, `Panels` | the same steps as the code has them, on mutable objects and buffers, proved equal to the functions |
| `Accounting`, `Policies` | what one side guarantees over every run |
| `Authentication` | what opens a session on either side |
| `Exchanges`, `Links`, `Handshakes`, `Completions`, `Rekeying` | both sides and the line, over every run |
| `Ticks` | the device's receive loop from bytes to steps |

Where the source changes state in place (stream buffer, in-place encryption,
MAC patching, queues, banks, caches, slots) there is a class or an array method
with the same branches, whose contract equates its effect with a specification
function; the theorems over runs are proved about those functions.

AES is an abstract block cipher with `Inverts` (decryption undoes encryption)
as its only property. Random bytes, clocks, callbacks and the transport are
parameters of a step. Histories (commands issued, executed and answered, events
accepted, counters) are fields of the modelled states that no decision reads.

The main results build on everything below them. `ChainLockstep`, `AtMostOnce`
and `EventsInOrder` hold for every run in which commands and replies are lost at
will and the application repeats a command until it is answered, or gives it up
before the PD has met it. One loss is outside: that of the reply to a COMSET
that the PD has applied, which drops the PD's cache, unless the exchange is in
clear text and the PD has left the slot's address. `LostComRunsAgain` and
`LostComIsRefused` say exactly what that loss leads to. Runs with BUSY answers,
and clear commands that a keyed PD refuses, are also outside these three
theorems. `HandshakeAgreement` holds for every interleaving of handshakes,
commands, losses and timeouts without a KEYSET, and `EntryStartsLink` shows that
what it establishes is exactly where those runs begin; `SessionNeedsCryptogram`
needs no common base key, and says what a session then rests on. `TickIsSteps` carries the
PD's steps down to bytes in chunks.

Places where the obvious claim fails, with the exact condition:

- A decoder answer of TRUNCATED does not always mean "nothing more to decode":
  `TruncatedMeansStarved`, `DrainCanStopEarly`; ticks without input catch up
  (`IdleTicksCatchUp`).
- A changed pair of bytes across the start of the CRC can go unnoticed:
  `BoundaryPairEscapes`, against `DecodeDetects`.
- `osdp_sc_max_payload` on an SCS_15/16 shape does not describe
  `osdp_sc_wrap_frame`: `PlainShapeOverstates`.
- A repeated command is not always answered from the cache: `ReplayExactly` gives
  the condition on the command and the application's answer,
  `SequenceZeroRunsAgain` and `LostComRunsAgain` two cases outside it. The comment
  at pd/src/pd.c:556-560 says that a command whose reply was not cached is
  processed afresh; the code meets its repetition with silence
  (`ReplayIsVerbatim`).
- The exemption of BUSY at acu/src/acu.c:249-258 never applies to a BUSY of this
  PD, whose sequence number is zero: `BusyExemption`, `DeviceBusyEndsSession`.
- Fragmenting and reassembling returns exactly the messages of 1 to 65535 bytes
  that fit the receiver: `ReassembledIff`. Beyond 16 bits the declared total
  wraps, and a message can be taken to end early (`LongMessageCutShort`).
- The PD's clear NAK for a corrupted frame ends the ACU's session:
  `BadCheckEndsSession`.
- The comment at pd/src/pd_dispatch.c:583-584 speaks of a KEYSET the application
  would ACK; the key is rotated on any reply, a NAK included:
  `KeysetOutcome`.
- A random source that fails when a handshake is started has already cost the
  slot its session, without an event: `StartOutcome`.
- A timed LED override comes back after every turn of the 32-bit clock:
  `OverrideKept`, `OverrideReturns`; likewise a finished beep, `PatternReturns`.
- core/src/sc/mac.c has a branch for a padded length of zero, which padding
  rules out; it has no counterpart here.

## Model

| member | source | states |
|---|---|---|
| `Links.ChainLockstep` | core/src/sc/wrap.c:169-196 | in every permitted lossy run of an established pair the keys stay equal, and either the slot last received what the PD last sent, or the PD has executed the slot's last command and its reply, cached or (for an applied COMSET) on the line, is one the slot will verify |
| `Links.AtMostOnce` | pd/src/pd.c:587-638 | in every permitted lossy run, clear or secured, the executed commands are the issued ones in order without repetition, the newest perhaps missing; an answered command ran exactly once and its answer is that run's reply |
| `Links.EventsInOrder` | pd/src/pd.c:840-916 | the events told to the ACU's application are always a prefix of those the PD accepted; between exchanges nothing is missing but what is still queued |
| `Links.RetryCompletes` | acu/src/acu.c:290-310 | from every reachable state one retry that is not lost completes the outstanding command with exactly one more answer and the chain in step; nothing changes iff, beforehand, the PD has another address, remembers that it had no reply, or the new command or its reply has no room or the application gives none |
| `Links.RoomCompletes` | acu/src/acu.c:290-310 | with room, a PD that hears the slot and has not met the command, and whose application replies, always completes the retry |
| `Links.AbandonedChain` | core/src/sc/wrap.c:169-196 | giving up a command leaves the chain in step if the PD has not met it or had no reply; out of step, the next command, whatever it is, has another whole MAC for the PD |
| `Links.LostComRunsAgain` | pd/src/pd.c:181-194 | in clear text a COMSET whose reply is lost is executed again when repeated, so that more commands run than were issued, iff the PD keeps its address or the slot uses the broadcast address |
| `Links.LostComIsRefused` | pd/src/pd.c:181-194 | under a session, after a lost reply that moved the chain the repetition has another whole MAC for the PD; it runs again iff the PD still hears the slot, the four bytes sent agree by chance and the payload decrypts under the moved chain, and is met with silence otherwise |
| `Links.RunKeeps` | pd/src/pd.c:604-638 | the joint invariant behind these theorems survives every permitted run |
| `Links.SendingKeepsWire` | acu/src/acu.c:409-479 | sending leaves the slot such that the same command again has the same bytes |
| `Links.NewCommandExecutes` | pd/src/pd.c:459-544 | a command the PD has not seen is executed once and answered with a reply the slot will accept or with none; it is remembered unless it is an applied COMSET |
| `Links.SeenCommandReplays` | pd/src/pd.c:604-611 | a command the PD remembers is answered from the cache without touching the PD |
| `Links.ReplyInIsAnswered` | acu/src/acu.c:204-226 | a reply on the line is delivered as the newest execution's reply, and the chains meet |
| `Handshakes.HandshakeAgreement` | acu/src/acu_sc.c:254-330 | after every run a slot in ESTABLISHED means a PD established with the same keys, and entering it leaves one session on both sides seeded with the initial R-MAC |
| `Handshakes.SessionNeedsCryptogram` | acu/src/acu_sc.c:191-219 | whatever base keys the sides hold, after every run a slot past CCRYPT shares with the PD a key selector whose two keys give one client cryptogram for the nonces of the handshake |
| `Handshakes.ForeignKeysNeverMeet` | acu/src/acu_sc.c:204-215 | sides whose cryptograms never coincide never get past the challenge |
| `Handshakes.EntryStartsLink` | acu/src/acu_sc.c:311-329 | entering ESTABLISHED puts the pair where the runs of `Links` begin |
| `Handshakes.RunKeeps` | pd/src/pd_sc.c:70-235 | the handshake invariant survives every run without a key change |
| `Handshakes.CommandInKeeps` | pd/src/pd_sc.c:325-345 | whatever command the PD receives, its handshake replies, live and cached, stay true of its state |
| `Handshakes.CcryptKeeps` | acu/src/acu_sc.c:156-250 | accepting CCRYPT pairs the slot with the PD that sent it |
| `Handshakes.RmacKeeps` | acu/src/acu_sc.c:254-330 | accepting RMAC_I means that the PD's session is open with the same keys |
| `Completions.HandshakeCompletes` | acu/src/acu.c:747-766 | with a common base key and no loss, the four messages end with the same open session on both sides |
| `Completions.FirstExchange` | acu/src/acu_sc.c:129-250 | challenge and cryptogram pair both sides' nonces and keys and put SCRYPT on the line, which the PD cannot mistake for a repetition |
| `Rekeying.RekeyRestores` | pd/src/pd.c:97-135 | a KEYSET exchange over an open session and the panel's own setter leave both sides with the same base keys, ready for a handshake |
| `Rekeying.RekeyCompletes` | pd/src/pd.c:97-135 | that handshake opens a session on keys derived from the new key |
| `Authentication.SessionHasProof` | pd/src/pd_sc.c:153-235 | over every run of a PD, a session at the end was opened by a SCRYPT that encrypts RND.B and RND.A under S-ENC after a challenge |
| `Authentication.ScryptOpensIff` | pd/src/pd_sc.c:177-234 | a SCRYPT opens the session iff it carries that cryptogram and the answer has room, and both chains start at the initial R-MAC |
| `Authentication.WrongCryptogramRefused` | pd/src/pd_sc.c:187-202 | any other sixteen bytes close the handshake and get status 0xFF without R-MAC |
| `Authentication.ChallengeAcceptedIff` | pd/src/pd_sc.c:70-149 | a challenge is accepted iff it names a key that is set and there is a nonce and room; the session keys come from that key and RND.A |
| `Authentication.ChallengeRefusals` | pd/src/pd_sc.c:72-103 | NAK 0x03, 0x02 or 0x05 for the refused challenges |
| `Authentication.ScryptRefusals` | pd/src/pd_sc.c:155-175 | NAK 0x03, 0x02 or 0x05 for the refused SCRYPTs |
| `Authentication.SlotSessionHasProof` | acu/src/acu_sc.c:156-330 | over every run of a slot, a session at the end had the PD's client cryptogram at one step and its R-MAC at another |
| `Authentication.CcryptAcceptedIff` | acu/src/acu_sc.c:156-250 | the slot goes on to SCRYPT iff the CCRYPT has the right sequence, shape, selector and client cryptogram; a stale one is ignored, any other ends the handshake |
| `Authentication.RmacAcceptedIff` | acu/src/acu_sc.c:254-330 | the slot enters ESTABLISHED iff the RMAC_I has status 1 and the R-MAC it computes itself |
| `Exchanges.CommandArrives` | acu/src/acu.c:429-470 | a sent command decodes at the PD to its address, sequence, code and, in clear text, payload |
| `Exchanges.CommandUnwraps` | core/src/sc/wrap.c:199-272 | with chains in step the PD recovers the exact payload and MAC of a secured command iff its plaintext buffer takes the padded payload |
| `Exchanges.SecureReplyFits` | pd/src/pd_sc.c:286-320 | a reply is wrapped iff its size on the wire fits the transmit buffer and the longest frame |
| `Exchanges.PlainReplyFits` | pd/src/pd.c:21-42 | a clear reply is built iff its size fits |
| `Exchanges.SecureReplyAnswers` | pd/src/pd_sc.c:286-320 | a wrapped reply is one the waiting slot will verify |
| `Exchanges.PlainReplyAnswers` | pd/src/pd.c:21-42 | a clear reply is one the waiting slot will accept |
| `Exchanges.AnswerIsDelivered` | acu/src/acu_sc.c:377-413 | the slot delivers such a reply with its exact payload |
| `Accounting.RunBalances` | acu/src/acu.c:204-330 | over every run of a slot: ESTABLISHED iff the session is established; sends = answers + timeouts + waits consumed + 1 if waiting; sessions established = lost + reset + 1 if established; handshakes begun = succeeded + failed + abandoned + 1 if under way |
| `Accounting.RunInRange` | acu/src/acu.c:388-479 | sequence numbers stay in range and a pending one is the next one |
| `Accounting.AdvanceMoves` | acu/src/acu.c:41-47 | the sequence number always moves, and never back to zero |
| `Accounting.SequenceCycles` | acu/src/acu.c:39-47 | the sequence numbers of a fresh slot are 0 and then 1, 2, 3 over and over |
| `Accounting.StartOutcome` | acu/src/acu.c:747-766 | with a key set, starting a handshake fails iff the slot waits, which changes nothing, or the random source fails, which ends the session without an event |
| `Policies.ReplayExactly` | pd/src/pd.c:587-638 | a command repeated at once is taken for a retransmit iff its sequence is not zero, it fits the cache and, if it reaches the dispatch, it is neither answered BUSY nor a COMSET of five bytes, whatever address that sets |
| `Policies.ReplayIsVerbatim` | pd/src/pd.c:552-581 | the repetition gets the first reply byte for byte, or silence if that did not fit, and the PD is untouched |
| `Policies.SequenceZeroRunsAgain` | pd/src/pd.c:583-592 | a clear command with sequence zero, other than KEYSET and COMSET, sent to a PD without operational key and session, runs every time it is sent |
| `Policies.BusyIsRepeatable` | pd/src/pd.c:44-81 | if the application says BUSY any number of times to a secured command that verified once, the same bytes verify each time, are never answered from the cache, reach the application each time, and the PD's outbound chain does not move |
| `Policies.BusyThenExecuted` | pd/src/pd_sc.c:239-321 | it is then dispatched with its exact payload |
| `Policies.BusyExemption` | acu/src/acu.c:236-258 | a clear reply leaves an established slot established iff it is BUSY with a sequence number other than zero |
| `Policies.SecureReplyOutcome` | acu/src/acu_sc.c:377-413 | a secured reply ends an established session iff its sequence is zero or, being awaited, it fails to verify; an awaited one that verifies is delivered, any other ignored |
| `Policies.PlainReplyOutcome` | acu/src/acu.c:228-273 | which clear replies end a session, are delivered, or are ignored |
| `Policies.DeviceBusyEndsSession` | acu/src/acu.c:243-247 | the PD's own BUSY frame ends the slot's session |
| `Policies.BadCheckEndsSession` | pd/src/pd.c:1458-1481 | a corrupted command leaves the PD alone, and the clear NAK it earns ends an established slot's session |
| `Policies.BadCheckAnswer` | pd/src/pd.c:1458-1481 | a corrupted command for this address gets a clear NAK 0x01, room given, and anything else with bad check bytes gets nothing |
| `Policies.KeysetOutcome` | pd/src/pd_dispatch.c:577-590 | a KEYSET that reaches the dispatch with the bytes 01 10 and a key stores that key iff the application gives a reply, be it a NAK; any other record leaves the key and turns a reply into NAK 0x09 |
| `Policies.KeysetKeyIff` | core/src/commands/cmd_keyset.c:9-36 | a record yields a key iff it is 01 10 and the sixteen bytes of it |
| `Policies.ClearTextNeverDispatched` | pd/src/pd.c:507-522 | once a key is set, over every run no clear command but ID, CAP and COMSET reaches the dispatch |
| `Policies.ClearDispatchIff` | pd/src/pd.c:476-522 | which clear commands reach the dispatch |
| `Policies.ClearTextEndsSession` | pd/src/pd.c:488-505 | a clear command ends the PD's session and, with a sequence other than zero, gets NAK 0x06 and goes nowhere |
| `Policies.KeyedDeviceRefuses` | pd/src/pd.c:507-522 | a keyed PD answers a clear command other than ID, CAP and COMSET with NAK 0x06 at every sequence number |
| `Policies.UnservedScb` | pd/src/pd_sc.c:325-345 | a security block that cannot be served gets NAK 0x05 |
| `Policies.ComsetOutcome` | pd/src/pd_dispatch.c:51-75 | a COMSET of five bytes is answered with the settings that come into force, and the address follows; any other length gets NAK 0x02 |
| `Policies.OfferIff` | pd/src/pd.c:840-871 | an event is taken over iff the queue has room |
| `Policies.KeyChangesOnlyByAuthority` | pd/src/pd.c:107-135 | over every run the stored key changes only by the local setter or by a KEYSET carrying its very bytes whose MAC verified in an established session |
| `Peripherals.Peripheral.ProcessFrame` | pd/src/pd.c:604-638 | the in-place PD makes the step `Devices.Process` and sends its reply |
| `Peripherals.Peripheral.ReceiveFrame` | pd/src/pd.c:1451-1493 | the body of the receive loop: commands for this address or the broadcast address are processed, one for this address with bad check bytes gets a clear NAK 0x01 |
| `Peripherals.Peripheral.HandleTx` | pd/src/pd.c:459-544 | routing of a command, with the reply in the transmit buffer |
| `Peripherals.Peripheral.HandlePlainTx` | pd/src/pd.c:476-544 | clear-text policy: session dropped, NAK 0x06 or dispatch |
| `Peripherals.Peripheral.HandleChlngTx` | pd/src/pd_sc.c:70-149 | nonces and keys taken, CCRYPT built, every refusal with its NAK |
| `Peripherals.Peripheral.HandleScryptTx` | pd/src/pd_sc.c:153-235 | the session opens iff the server cryptogram matches |
| `Peripherals.Peripheral.HandleOperationalTx` | pd/src/pd_sc.c:239-321 | unwrap, dispatch, wrap; BUSY outside the chain, failures silent |
| `Peripherals.Peripheral.DispatchCommand` | pd/src/pd_dispatch.c:459-591 | COMSET, POLL from the queue and the KEYSET hook, everything else by the application's verdict |
| `Peripherals.Peripheral.CacheReply` | pd/src/pd.c:552-581 | command and reply bytes remembered where they fit |
| `Peripherals.Peripheral.Repeats` | pd/src/pd.c:587-600 | true iff the bytes equal the remembered command's and the sequence is not zero |
| `Peripherals.Peripheral.BusyTx` | pd/src/pd.c:44-81 | BUSY in clear text with sequence zero, not to be cached |
| `Peripherals.Peripheral.ApplyStaged` | pd/src/pd.c:181-194 | a staged address takes effect and the cache is dropped |
| `Peripherals.Peripheral.Enqueue` | pd/src/pd.c:840-871 | the event is accepted or nothing changes |
| `Peripherals.Peripheral.Offline` | pd/src/pd.c:384-402 | cache and queue are dropped |
| `Panels.PanelSlot.Send` | acu/src/acu.c:409-479 | the slot makes the step `Controllers.SendCommand`; a refusal changes nothing |
| `Panels.PanelSlot.Start` | acu/src/acu.c:747-766 | the step `Controllers.StartHandshake`, failure of the random source included |
| `Panels.PanelSlot.SendSc` | acu/src/acu_sc.c:71-111 | a handshake command is built, sent and marked pending |
| `Panels.PanelSlot.HandleCcrypt` | acu/src/acu_sc.c:156-250 | the step `Controllers.CcryptIn`, with the SCRYPT it sends |
| `Panels.PanelSlot.HandleRmacI` | acu/src/acu_sc.c:254-330 | the step `Controllers.RmacIn` |
| `Panels.PanelSlot.TerminateSc` | acu/src/acu_sc.c:334-375 | wait, sequence and session reset, with the event of the former phase |
| `Panels.PanelSlot.HandleScReply` | acu/src/acu_sc.c:377-413 | the step `Controllers.SecureReplyIn` |
| `Panels.PanelSlot.ProcessReply` | acu/src/acu.c:228-273 | the step `Controllers.PlainReplyIn` |
| `Panels.PanelSlot.Deliver` | acu/src/acu.c:204-226 | one answer, the wait over, the sequence advanced |
| `Panels.PanelSlot.ReceiveFrame` | acu/src/acu.c:564-609 | routing of one reply by its security block and the slot's phase |
| `Panels.PanelSlot.ReplyLate` | acu/src/acu.c:290-310 | the wait ends and the sequence number stays |
| `Panels.PanelSlot.WindowOver` | acu/src/acu.c:312-328 | the slot goes offline and a session or handshake is terminated |
| `Wrapping.UnwrapWrap` | core/src/sc/wrap.c:42-272 | secure round trip: the exact payload of every length, and the receiver's inbound MAC equals the sender's outbound one |
| `Wrapping.WrapIsBuild` | core/src/sc/wrap.c:150-196 | the patched output is the frame built from the final ciphertext and MAC |
| `Wrapping.WrapRepeats` | core/src/sc/wrap.c:104-196 | wrapping does not depend on the outbound MAC: a retry has the same bytes |
| `Wrapping.UnwrapChecksMac` | core/src/sc/wrap.c:215-245 | what unwraps carried the first four bytes of the MAC of everything before it, and that whole MAC enters the chain |
| `Wrapping.ChangedFrame` | core/src/sc/wrap.c:215-245 | a frame changed within one covered block is refused or, four bytes agreeing by chance, has another whole MAC |
| `Wrapping.WrapFitsExactly` | core/src/sc/wrap.c:10-40 | on SCS_17/18 a non-empty payload is wrapped iff it is at most `osdp_sc_max_payload`, with its exact size |
| `Wrapping.PlainShapeOverstates` | core/src/sc/wrap.c:23-28 | on SCS_15/16 the bound of the upgraded type decides, and the stated maximum itself is always refused |
| `Wrapping.SessionState.WrapInto` | core/src/sc/wrap.c:42-197 | in-place encryption, placeholder and patching yield `Wrap`; a failure leaves the session unchanged |
| `Wrapping.SessionState.UnwrapInto` | core/src/sc/wrap.c:199-272 | yields `Unwrap`; a failure leaves the session unchanged |
| `Keys.DerivedKeysDiffer` | core/src/sc/keys.c:24-67 | the three session keys are different keys |
| `Keys.DerivedKeys` | core/src/sc/keys.c:16-67 | the inputs of the three derivations, byte for byte |
| `Keys.CryptogramsBind` | core/src/sc/keys.c:71-107 | a cryptogram determines both nonces and their order |
| `Macs.MacIsCbc` | core/src/sc/mac.c:39-123 | all blocks but the last CBC under S-MAC1, the last under S-MAC2 |
| `Macs.MacOfMessage` | core/src/sc/mac.c:39-123 | the MAC of a message is that of all of it, padded with 0x80 and zeros unless it is whole blocks |
| `Macs.MacDetects` | core/src/sc/mac.c:84-114 | messages of one length that differ within one block have different MACs |
| `Macs.MacInjectiveInIcv` | core/src/sc/mac.c:39-123 | different chaining values give different MACs for every message |
| `Macs.Compute` | core/src/sc/mac.c:39-123 | the block loop computes that MAC, padding only what is not whole blocks |
| `Payloads.DecryptEncrypt` | core/src/sc/payload.c:19-131 | decryption recovers every payload exactly |
| `Payloads.EncryptIsCbc` | core/src/sc/payload.c:11-72 | CBC, from the complemented chaining value, of the payload, 0x80 and as few zeros as complete a block |
| `Payloads.DepadPad` | core/src/sc/payload.c:45-60 | stripping undoes padding for every payload, one ending in the marker or zeros included |
| `Payloads.DepadIsMarked` | core/src/sc/payload.c:111-131 | what was stripped is one marker and zeros only |
| `Payloads.EncryptInto` | core/src/sc/payload.c:19-72 | pads and encrypts in the output buffer, nothing outside it touched |
| `Payloads.DecryptInto` | core/src/sc/payload.c:74-131 | decrypts and strips backwards, or fails |
| `Ciphers.CbcRoundTrip` | core/src/sc/cbc.c:15-94 | CBC decryption undoes CBC encryption |
| `Ciphers.CbcBlockAt` | core/src/sc/cbc.c:15-52 | each ciphertext block encrypts its plaintext block added to the previous ciphertext block or the initial vector |
| `Ciphers.EncryptBlocks` | core/src/sc/cbc.c:15-52 | the block loop computes CBC, source and destination possibly the same place |
| `Ciphers.DecryptBlocks` | core/src/sc/cbc.c:54-94 | likewise for decryption |
| `Frames.DecodeBuild` | core/src/shared/frame.c:279-422 | what is built decodes to itself |
| `Frames.WireLayout` | core/src/shared/frame.c:279-422 | every byte of a built frame, by position |
| `Frames.BuildDecode` | core/src/shared/frame.c:13-171 | what decodes is rebuilt byte for byte |
| `Frames.DecodeAcceptsExactlyBuilt` | core/src/shared/frame.c:13-171 | the decoder accepts exactly the builder's outputs |
| `Frames.BuildFitsExactly` | core/src/shared/frame.c:205-260 | a non-empty payload is built iff it is at most `osdp_frame_max_payload` |
| `Frames.MaxPayloadZeroIsAmbiguous` | core/src/shared/frame.c:225-260 | zero stands both for "only an empty frame fits" and "none fits" |
| `Frames.BuildInto` | core/src/shared/frame.c:279-422 | the buffer holds the built frame, also when its payload already lies in place; a refusal leaves it untouched |
| `Frames.DecodeDetects` | core/src/shared/frame.c:130-150 | a change of one or two adjacent bytes, CTRL and the pair across the CRC's start excepted, is never accepted |
| `Frames.DecodeDetectsByte` | core/src/shared/frame.c:130-150 | every single-byte change outside CTRL makes a CRC frame unacceptable |
| `Frames.BoundaryPairEscapes` | core/src/shared/crc16.c:50-60 | every CRC frame has an acceptable neighbour that differs in the last covered byte and the first check byte |
| `Frames.ChecksumCancels` | core/src/shared/checksum.c:6-17 | message and checksum sum to zero |
| `Crc16.TableIsBitSerial` | core/src/shared/crc16.c:15-48 | all 256 table entries are the bit-serial 0x1021 register's |
| `Crc16.TableStepIsFeed` | core/src/shared/crc16.c:55-58 | one table step is eight bit steps, for every register and byte |
| `Crc16.Update` | core/src/shared/crc16.c:50-60 | the loop computes the bit-serial register of the message |
| `Crc16.RegisterAppend` | core/src/shared/crc16.c:50-60 | updates compose over concatenation |
| `Crc16.CrcIsAugmented` | core/src/shared/crc16.c:62-65 | starting at 0x1D0F equals starting at 0xFFFF with sixteen zero bits appended |
| `Crc16.DetectsAdjacentChange` | core/src/shared/crc16.c:62-65 | two messages that differ only in two adjacent bytes have different CRCs |
| `Streams.StreamRoundTrip` | core/src/shared/stream.c:63-152 | built frames sent back to back and cut in any way are delivered exactly, and nothing stays pending |
| `Streams.ChunkIndependence` | core/src/shared/stream.c:107-152 | on arbitrary bytes and under every chunking, what was delivered followed by what is still decodable is what a pure parser finds |
| `Streams.DeliveredIsPrefix` | pd/src/pd.c:1451-1493 | the delivered frames are a prefix of the parser's, and all of them when the decoder is starved |
| `Streams.TruncatedMeansStarved` | core/src/shared/stream.c:138-144 | TRUNCATED means "wait" iff no seven-byte candidate with the CRC bit is in front, in which case a byte was consumed |
| `Streams.NextConsumes` | core/src/shared/stream.c:107-152 | every other answer shortens what is pending, so the drain loop ends |
| `Streams.NextLeaves` | core/src/shared/stream.c:107-152 | one call goes on behind the frame at the first SOM if there is one there, and at the very next byte otherwise |
| `Streams.FrameFound` | core/src/shared/stream.c:107-152 | a frame at any position of the input is found if every candidate before it is complete and fails or ends by there |
| `Streams.FramesAfterGarbage` | core/src/shared/stream.c:107-152 | behind garbage whose candidates are complete and fail, exactly the built frames are found |
| `Streams.DrainCanStopEarly` | core/src/shared/frame.c:50-54 | a drain can stop with a decodable frame in the buffer |
| `Streams.IdleTicksCatchUp` | pd/src/pd.c:1451-1493 | ticks without input deliver everything decodable |
| `Streams.Stream.Feed` | core/src/shared/stream.c:63-94 | the buffer keeps the longest fitting suffix of buffered bytes plus data |
| `Streams.Stream.NextFrame` | core/src/shared/stream.c:107-152 | the object makes the step `Next`, consumption deferred |
| `Streams.Stream.Pending` | core/src/shared/stream.c:96-105 | the number of bytes not yet consumed |
| `Streams.Stream.ResyncToSom` | core/src/shared/stream.c:35-45 | drops exactly what precedes the first SOM |
| `Streams.Stream.DrainFrames` | pd/src/pd.c:1451-1493 | the loop delivers `Drain` and terminates |
| `Streams.Stream.Receive` | pd/src/pd.c:1411-1493 | chunk by chunk, the object delivers `Deliver`, as long as the bytes from the first SOM on fit the buffer |
| `Streams.WholeFramesFit` | core/src/shared/stream.c:63-94 | a buffer of 1440 bytes takes every built frame that arrives whole, the longest with its marking byte included, and delivers exactly those frames |
| `Ticks.TickIsSteps` | pd/src/pd.c:1411-1493 | built frames in any chunks come up byte for byte and in order, are served as one by one, and leave nothing pending |
| `Ticks.ChunksServeAlike` | pd/src/pd.c:1411-1493 | on any bytes and under any chunking, serving what came up and then what is still to come up is serving what the whole input holds, frames with bad check bytes included |
| `Ticks.SightingFound` | pd/src/pd.c:1451-1493 | the same for whatever the receive loop acts on, frames with bad check bytes included |
| `Ticks.DeliveredFrames` | pd/src/pd.c:1451-1493 | the frames among what comes up are the delivered ones |
| `EventQueues.EventQueue.Put` | pd/src/pd.c:840-871 | the packed queue appends, or refuses and changes nothing |
| `EventQueues.EventQueue.Take` | pd/src/pd.c:873-916 | the oldest event leaves; one too long for the scratch is dropped |
| `EventQueues.EventQueue.Pending` | pd/src/pd.c:835-838 | true iff an event is queued |
| `EventQueues.EventQueue.Clear` | pd/src/pd.c:827-833 | the queue is empty |
| `EventQueues.PackedInjective` | pd/src/pd.c:840-871 | the packed bytes determine the queue |
| `EventQueues.EnqueueIff` | pd/src/pd.c:840-871 | an event is accepted iff its length fits 16 bits and its three header bytes and payload fit the rest of the queue |
| `EventQueues.FirstInFirstOut` | pd/src/pd.c:873-916 | the k-th dequeue gives the k-th event, or nothing in place of one over 64 bytes |
| `LedBanks.LedBank.ObserveLed` | pd/src/pd.c:1208-1247 | an LED command applies every record in order or leaves the bank unchanged |
| `LedBanks.LedBank.CanFit` | pd/src/pd.c:1158-1184 | true iff the tracked LEDs and those named fit together, however often one is named |
| `LedBanks.NeverFull` | pd/src/pd.c:1232-1244 | after that check no record fails to find a slot |
| `LedBanks.ColorIsHistory` | pd/src/pd.c:1343-1357 | over every run the colour of an LED is that of one LED alone, fed the applied records addressed to it; the bank never exceeds its slots |
| `LedBanks.ObserveIff` | pd/src/pd.c:1217-1229 | an LED command is malformed iff empty or not whole records, refused for room iff the LEDs tracked and named exceed the slots, and applied otherwise |
| `LedStates.RecordLayout` | core/src/commands/cmd_led.c:8-63 | the fields of a record, byte by byte |
| `LedStates.ColorAfter` | core/src/shared/led_state.c:20-86 | the colour at any time of the clock's turn after a record, for every control code |
| `LedStates.CancelReverts` | core/src/shared/led_state.c:38-40 | from a cancelling record on, the permanent setting shows at every time |
| `LedBanks.LedBank.Claim` | pd/src/pd.c:1034-1053 | the key's slot, or a dark free one; fails iff all slots belong to others; keys stay unique |
| `LedBanks.LedBank.Find` | pd/src/pd.c:1005-1016 | the slot of a tracked LED, and none iff it is not tracked |
| `LedBanks.LedBank.CountFree` | pd/src/pd.c:1019-1028 | capacity minus tracked LEDs |
| `LedBanks.LedBank.Refresh` | pd/src/pd.c:1058-1074 | every tracked LED's reported colour becomes its colour now, and the listener's display agrees |
| `LedBanks.DisplayIsColor` | pd/src/pd.c:1058-1074 | after a refresh a listener that only remembers the reports shows every LED's colour |
| `LedBanks.LedBank.ColorNow` | pd/src/pd.c:1343-1357 | the colour in the map, black for an untracked LED |
| `LedStates.OverrideKept` | core/src/shared/led_state.c:70-86 | whatever the colours and flash times, the LED shows a timed override for its timer and the permanent setting afterwards iff less than one turn of the clock has passed or the override's window is not open again |
| `LedStates.OverrideReturns` | core/src/shared/led_state.c:76-84 | an override of 0.1 s is seen again after 2^32 ms |
| `LedStates.FlashShare` | core/src/shared/led_state.c:58-68 | a flasher shows its first colour for its on-time in every period |
| `LedStates.OtherPhase` | core/src/shared/led_state.c:58-68 | the second colour for the rest of each period, and a steady first one without times |
| `Buzzers.SoundsExactly` | core/src/shared/buz_state.c:33-59 | over one turn of the clock from any moment, a finite pattern sounds exactly count times its on-time |
| `Buzzers.SilentAfter` | core/src/shared/buz_state.c:49-55 | all of it before count times (on + off) |
| `Buzzers.NoOverflow` | core/src/shared/buz_state.c:33-59 | no intermediate value leaves 32 bits |
| `Buzzers.SoundsWhen` | core/src/shared/buz_state.c:33-59 | the sounding moments in true time, whatever wraps in between |
| `Buzzers.PatternReturns` | core/src/shared/buz_state.c:33-59 | a finished pattern sounds again after each turn of the clock |
| `Buzzers.ContinuousShare` | core/src/shared/buz_state.c:56-58 | a continuous pattern sounds its share of whole cycles |
| `Buzzers.Buzzer.Apply` | core/src/shared/buz_state.c:17-31 | loads the command and starts it now |
| `Multiparts.FragmentThenReassemble` | core/src/shared/multipart.c:225-246 | pushing every fragment of a message of 1 to 65535 bytes that fits completes with that message, for every fragment size and whatever was in progress |
| `Multiparts.AnySlices` | core/src/shared/multipart.c:150-208 | for every sequence of slices of a message and early terminations, repeats, overlaps, restarts and gaps included, the buffer begins with the message's beginning, and COMPLETE means all of it |
| `Multiparts.PushKeepsSound` | core/src/shared/multipart.c:150-208 | bounds are kept, and a refused fragment changes nothing |
| `Multiparts.FragmentRoundTrip` | core/src/shared/multipart.c:86-124 | a built fragment decodes to itself |
| `Multiparts.FragmentSpelledOnce` | core/src/shared/multipart.c:44-84 | a decoded fragment is rebuilt byte for byte |
| `Multiparts.FragmentLayout` | core/src/shared/multipart.c:86-124 | total, offset and length on the wire, low bytes first, then the data |
| `Multiparts.TerminatesIff` | core/src/shared/multipart.c:27-42 | a fragment ends the transfer iff it has no data and lies at or past the end of a non-empty message |
| `Multiparts.TakesIff` | core/src/shared/multipart.c:150-208 | any other fragment is taken iff it begins a message that fits or continues the one in progress without a gap |
| `Multiparts.ReassembledIff` | core/src/shared/multipart.c:150-246 | pushing all fragments of a message completes with exactly that message iff it has 1 to 65535 bytes and fits the receiver |
| `Multiparts.LongMessageCutShort` | core/src/shared/multipart.c:239-240 | a message of 65536 + 128 bytes completes after its first fragment |
| `Multiparts.Reassembler.PushFragment` | core/src/shared/multipart.c:150-208 | the object makes the step `Push` |
| `Multiparts.FragmentIterator.Next` | core/src/shared/multipart.c:225-246 | hands out the remaining fragments in order |
| `Multiparts.DeliveredWasSent` | pd/src/pd_dispatch.c:348-418 | over any osdp_MFG traffic, every byte of a delivered message was sent under the vendor code it is delivered with, at its place in a message of just that length |
| `Multiparts.MfgMessageArrives` | pd/src/pd_dispatch.c:348-418 | a message of 1 to 65535 bytes that fits, sent through osdp_MFG in fragments of any size, is acknowledged fragment by fragment and then handed up whole under its vendor code, whatever was in progress |
| `Multiparts.DeliveredIsTheMessage` | pd/src/pd_dispatch.c:348-418 | whatever else is sent, if every fragment under a vendor code is a slice of one message or a termination, a message delivered under it is that message |
| `Multiparts.MfgRefusals` | pd/src/pd_dispatch.c:361-395 | a payload without a vendor code gets NAK 0x02 and changes nothing, any other refusal is NAK 0x09 and ends the transfer |
| `Multiparts.VendorReceiver.Receive` | pd/src/pd_dispatch.c:348-418 | the object makes the step `MfgReceive` |
| `FileTransfers.AcceptKeeps` | pd/src/pd.c:196-311 | after every fragment an active transfer is incomplete and fits, the fragments taken since the last restart are of one type and declared size and follow each other without gap, the buffer begins with their data, PROCESSED means the whole file, no counter overflows |
| `FileTransfers.DetailIs` | pd/src/pd.c:255-301 | the status detail of every fragment: abort for one out of order, out of bounds or of another file, otherwise by the application's verdict |
| `FileTransfers.RunKeeps` | pd/src/pd.c:196-311 | the same over any sequence of fragments, verdicts and aborts |
| `FileTransfers.WholeFileArrives` | pd/src/pd.c:196-311 | a file sent in consecutive parts of any sizes ends PROCESSED and in the buffer |
| `FileTransfers.FileReceiver.Receive` | pd/src/pd.c:196-311 | the object makes the step `Accept` and keeps it sound |
| `FileTransfers.FileReceiver.Terminate` | pd/src/pd_dispatch.c:208-213 | osdp_ABORT ends the transfer |
| `Fragments.PlainFragmentFits` | pd/src/pd.c:740-800 | a clear reply with one fragment of the reported size fits the transmit buffer and the ACU's limit, and in CRC mode one byte more does not |
| `Fragments.SecureFragmentFits` | pd/src/pd.c:740-800 | the same for a wrapped reply |
| `Fragments.MaxFragmentExact` | pd/src/pd.c:740-800 | in CRC mode a fragment of n bytes fits both limits iff n is at most the reported size |

## Left out

- AES, the random source, transports, tools, the command line programs and the Rust bindings.
- Failures of the AES callbacks (the interface documents that they do not fail), NULL arguments and short transport writes.
- Per-message codecs other than the LED record and the multi-part header; KEYSET is a plain record check and osdp_FILETRANSFER arrives decoded.
- The SC2 cryptography; only its tag length takes part in framing.
- The loop over ACU slots, the ACU's mirror of LED and buzzer states, the PD's bank of buzzers (the LED bank without its pre-check), and the inter-character timeouts of both sides.
- A panel without cryptography or random source, which refuses to start a handshake as it does without a key.
- Re-entrant callbacks and user pointers.
- Peripherals.Peripheral.DispatchCommand: the status requests, PDCAP, ACURXSIZE, KEEPACTIVE and the table from application results to NAK codes enter as an arbitrary verdict; file transfer, osdp_MFG and osdp_LED are modelled in their own modules, not through the dispatch.
- Peripherals.Peripheral.ReceiveFrame: takes one candidate frame, from the SOM on as the decoder delivers it.
- Links.ChainLockstep: runs without BUSY answers and offline transitions; the reply to an applied COMSET has room and is not lost (see `Links.LostComRunsAgain` and `Links.LostComIsRefused`), a command is given up only before the PD has met it (see `Links.AbandonedChain`), commands fit the command cache, the reply cache is at least as large as the transmit buffer, and a fault is the loss of a whole frame. Timeouts are steps taken when the line is quiet, without their durations.
- Links.AtMostOnce: the same runs; a keyed PD is sent only what it accepts in clear text, since a refusal is answered without a dispatch.
- Links.EventsInOrder: the same runs, with events of at most 64 bytes, the size the PD can hand back.
- Handshakes.HandshakeAgreement: runs without KEYSET, since the base keys are taken to be equal throughout.
