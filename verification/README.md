# HomeKit accessory protocol over Bluetooth LE: a verified model

This project models the Bluetooth LE core of a HomeKit accessory server and proves what it is for.
Every part has a machine or function on values with its properties, and, where the code works by
changing state, a class or in-place algorithm proved to do the same.

- **Advertising** (`Advertising`, `AdvertisingProperties`, `AdvertisingNonces`, `AdvertisingEffects`,
  `AdvertisingServer`): the cyclic GSN, the broadcast key with its expiration GSN, two timers and the
  broadcasted event; the joint invariant over all runs, nonces that never repeat, the exact lifetime of
  a key, and what every entry point achieves. `Cyclic` holds the arithmetic.
- **PDUs and transactions** (`Pdu`, `Transaction`, `TransactionObject`): the wire format, its parser
  and serializer, fragmentation and reassembly.
- **Procedures** (`Procedure`, `ProcedureProperties`, `ProcedureAnswers`, `TimedWrite`,
  `TimedWriteRequest`, `ProcedureObject`): dispatch and the two-step timed write, on values for any
  parser of write requests, and the answer to each kind of request on the wire. **Fallback
  procedures** (`FallbackProcedure`): the second, hand-written parser of the same format.
- **Write requests** (`Tlv`, `WriteRequest`, `WriteRequestItems`, `RawBuffer`): TLV fragments joined
  in place, what a list of items says, and the relocation of value and authorization data.
  `ProcedureObject` runs this parser on its scratch buffer; `WriteRequest.AsParser` is the same on
  values.
- **Broadcast configuration** (`BroadcastTable`, `BroadcastStore`): a sorted byte record as a map.
- **Setup** (`Numerals`, `SetupPayload`, `SetupInfo`, `SetupInfoProperties`, `SetupInfoLifecycle`,
  `SetupInfoServer`): setup codes, the payload text, and the state machine that locks a code during
  pairing.
- **Subscriptions** (`Subscriptions`, `SubscriptionTable`): the GATT table against what the
  application has been told.
- **Companions**: `ServiceIndex`, `ConfigurationNumber`. `Base` holds bytes, words and errors.

Verify with `dafny verify dfyconfig.toml`.

## Conventions

Integer widths are subset types (`byte`, `u16`, `u32`, `u64`), so that an operation that stays inside
its type is proved not to wrap; where the code does wrap or truncate, that is written out. A failed
`HAPAssert` or `HAPPrecondition` and a fatal error are outcomes or states of the model, not
preconditions, except where a contract says so. Failing store accesses and timer allocations are
inputs. Logs of notifications sent and handlers called are ghost state.

## Where code and expectation part

- A firmware update at server start resets GSN and key, and so does a factory reset of a stopped
  server. `ble.adv` survives a stop, so an event timer of the earlier start may still be armed; the
  advertising invariant then breaks, and only then (`AdvertisingProperties.FirmwareUpdateNeedsIdleTimer`,
  `FactoryResetNeedsIdleTimer`). Runs are guarded accordingly.
- A start without an admin pairing, and the removal of the last one at run time, remove the broadcast
  parameters. With an event on air the next advertisement then finds no key, which is fatal
  (`AdvertisingProperties.PurgeOnAirFindsNoKey`); the guard asks for none
  (`CleanupAtStartNeedsSilence`, `RemovePairingNeedsSilence`). Neither guard is needed for the nonces.
- A firmware update resets the GSN before the key. If it fails in between and the next start is one of
  the old firmware, which then counts as unchanged, a nonce can be used twice
  (`AdvertisingNonces.InterruptedUpdateRepeatsNonce`); a purge that fails half-way does the same
  (`InterruptedResetRepeatsNonce`). `StartRepeatsExactly` says for which states this is so.
- `ParseRequest` reads the position of the TLV reader after the reader has advanced past the request.
  Value and authorization data are thus moved into the free space behind it, and fit only if that
  space holds both with their NULs (`WriteRequest.Relocate`). The comment about overlapping layouts
  describes moves from the start of the buffer. A request that fits into the buffer but leaves too
  little room behind it is handled all the same. If a copy leaves the buffer
  (`TimedWriteRequest.FullBufferRuins`), the model makes no statement from there on. If not, because
  each part fits on its own and the authorization data came second, the handler gets the complete
  value, and authorization data of which the part under the value has been overwritten.
- An execute write with an explicitly empty body meets a transaction without body buffer and fails an
  assertion (`Transaction.NoBufferAssertsOnEmptyBody`, `TimedWrite.EmptyExecuteBodyAsserts`).
- A subscription written after the session's pairing has been removed, but before the session is
  invalidated, is never announced but later withdrawn
  (`Subscriptions.RemovedPairingBreaksAlternation`). The same goes for one written while the pairing
  cannot be read (`UnreadablePairingBreaksAlternation`), which also lets Pair Verify start over an
  active session (`UnreadablePairingFailsPrecondition`).
- On an accessory with both a display and programmable NFC, a pairing stored in NFC mode whose state
  update runs before the attempt is stopped fails an assertion
  (`SetupInfoProperties.PairedInNfcModeFailsAssertion`).
- A state update that a start or a change of the pairings has scheduled is not withdrawn when the
  server stops, and a start that is refused for its older firmware has scheduled one too. On an
  accessory with an output that is not paired it then uses an accessory that is not there
  (`SetupInfoProperties.UpdateAfterShutdownFails`, `UpdateAfterRefusedStartFails`). So does a pairing
  mode entered on a stopped server, which nothing forbids (`NfcModeBeforeStartFails`).
- A look-up of the pairings that fails says "unpaired". Code that looks twice can then fail a
  precondition on a paired accessory (`SetupInfoProperties.MisreadPairingFails`).
- An absent body with a nonzero length and an explicitly empty continuation do not survive the wire
  (`Pdu.FirstRoundTrip`, `Pdu.ContinuationRoundTrip`).
- Comments speak of 42 broadcast records; the code stores at most 41. The continuation parser calls
  the total body length "remaining body bytes". "+0/-5" for the scaled quotient is not exact from
  above; the bound proved is the one that matters for the remainder.

## Assumptions

A central connects only while the server runs, and broadcast keys are generated in a session; the key
derived there has not been used for a notification before. Application callbacks do not call back
into the server. A broadcast interval and instance ID handed to the advertising machine are valid, as
accessory validation demands. A store write that fails leaves the store as it was. A pairing is stored
only by a pairing attempt, which unlocks only through its stop. There is no IP server engine, which would
complete a shutdown within the state update.

## Model

| member | source | states |
|---|---|---|
| AdvertisingNonces.NoncesNeverRepeat | HAP/HAPBLEAccessoryServer+Advertising.c:85-182 | In every run in which no start keeps a key under which the GSN has been reset, and whatever else fails, two encrypted notifications under the same key with the same GSN are the same notification: across raises, timer expiries, connections, key generation, pairing removal, updates, factory resets, reboots, failures and wrap-around no nonce is used for two payloads |
| AdvertisingNonces.StartRepeatsExactly | HAP/HAPAccessoryServer+Reset.c:70-94 | A start that keeps the key can be continued to a run in which a nonce repeats if and only if a notification sent under that key has its GSN still to come before the key expires, or in use for another event; never while the GSN has not been reset under the key |
| AdvertisingNonces.FreshIsSafe | HAP/HAPAccessoryServer+Reset.c:70-94 | A run whose starts never keep a key under which the GSN has been reset has only starts that are safe in this exact sense |
| AdvertisingNonces.RunKeeps | HAP/HAPBLEAccessoryServer+Advertising.c:48-1144 | Every run whose starts are safe keeps the nonce invariant, with any failing access and even past a failed assertion or a missing key |
| AdvertisingNonces.NextKeeps | HAP/HAPBLEAccessoryServer+Advertising.c:48-1144 | One step with any failures keeps the nonce invariant |
| AdvertisingProperties.AssertionsHold | HAP/HAPBLEAccessoryServer+Advertising.c:451-630 | In every guarded run no assertion of the machine fails and no broadcast is due without a valid key; connected means no timer and no event, an event means armed timer, valid key and didIncrement, an armed timer means didIncrement. The guard: firmware updates and factory resets find no event timer armed, and the broadcast parameters are purged only with no event on air |
| AdvertisingProperties.RunKeeps | HAP/HAPBLEAccessoryServer+Advertising.c:451-1144 | The joint invariant of RAM and store is kept by every guarded run of entry points, starts, pairing removals, factory resets and reboots, with any I/O and timer failures |
| AdvertisingProperties.NextKeeps | HAP/HAPBLEAccessoryServer+Advertising.c:451-1144 | One guarded step with any failures keeps the joint invariant |
| AdvertisingNonces.KeyLifetime | HAP/HAPBLEAccessoryServer+Broadcast.c:120-131 | A key generated at any GSN is still valid after each of the first 32766 increments and expired by exactly the 32767th, also across the wrap from 65535 to 1 |
| AdvertisingNonces.SentWithinKeyLifetime | HAP/HAPBLEAccessoryServer+Broadcast.c:120-131 | Whatever an entry point sends goes out under the stored valid key with a GSN 1 to 32766 increments after the one the key was generated at; earlier notifications stay |
| AdvertisingNonces.RaiseSendsAtMostOne | HAP/HAPBLEAccessoryServer+Advertising.c:698-1090 | Raising an event sends at most one notification, the current one under the current key |
| AdvertisingProperties.BroadcastUsesNextGsn | HAP/HAPBLEAccessoryServer+Advertising.c:760-974 | A broadcastable change with nothing failing moves the GSN to its successor once and puts exactly that change on air under it |
| AdvertisingProperties.CoalescedAtMostOnce | HAP/HAPBLEAccessoryServer+Advertising.c:546-617 | Between connects and disconnects all non-broadcast events together increment the GSN at most once, and the GSN has moved by those increments plus one for each broadcast |
| AdvertisingProperties.FirmwareUpdateNeedsIdleTimer | HAP/HAPAccessoryServer+Reset.c:52-94 | The reset of GSN and key after a firmware update keeps the invariant if and only if no event timer is armed; otherwise the key is missing or the next disconnected event fails an assertion |
| AdvertisingProperties.UnguardedUpdateFailsAssertion | HAP/HAPAccessoryServer.c:484-570 | A concrete run: disconnected event, stop, start with new firmware, disconnected event; the last one fails the assertion on didIncrement |
| AdvertisingProperties.FactoryResetNeedsIdleTimer | HAP/HAPAccessoryServer+Reset.c:10-30 | A factory reset of a stopped server keeps the invariant if and only if no event timer is armed; otherwise the next start finds no key or the next disconnected event fails an assertion |
| AdvertisingProperties.UnguardedResetFailsAssertion | HAP/HAPAccessoryServer+Reset.c:10-30 | A concrete run: disconnected event, stop, factory reset, start, disconnected event; the last one fails the assertion on didIncrement |
| AdvertisingProperties.CleanupAtStartNeedsSilence | HAP/HAPAccessoryServer.c:992-1040 | A start without an admin pairing, which purges the broadcast parameters, keeps the invariant if and only if no event is on air; otherwise, and only then, the start finds no key |
| AdvertisingProperties.RemovePairingNeedsSilence | HAP/HAPPairingPairings.c:470-510 | So does the removal of the last admin pairing at run time: the next advertisement finds no key if and only if an event is on air |
| AdvertisingProperties.PurgeOnAirFindsNoKey | HAP/HAPBLEAccessoryServer+Advertising.c:85-102 | Two concrete runs end without a key: with an event on air the last admin pairing is removed; or the server is stopped, its pairings are removed, and it is started again |
| AdvertisingEffects.EventMovesGsn | HAP/HAPBLEAccessoryServer+Advertising.c:1029-1144 | An event that is not broadcast, raised or sent to the connected controller, stores the cyclic successor of the GSN with didIncrement set, or nothing at all if an event has done so since the last connect or disconnect |
| AdvertisingEffects.ConnectionStartsOver | HAP/HAPBLEAccessoryServer+Advertising.c:520-630 | A connect or disconnect that succeeds clears didIncrement and nothing else in the store, and leaves no event on air |
| AdvertisingEffects.CoalescedExactlyOnce | HAP/HAPBLEAccessoryServer+Advertising.c:546-617 | Between connects and disconnects, with at least one event that is not broadcast and none that is, the GSN has moved by exactly one; with any such event it has moved |
| AdvertisingEffects.NothingElseStops | HAP/HAPBLEAccessoryServer+Advertising.c:451-1144 | Without a failing access every guarded step leaves the machine alive |
| AdvertisingEffects.NothingToTell | HAP/HAPBLEAccessoryServer+Advertising.c:760-1000 | A change that is neither broadcast nor counted changes nothing; one that could be broadcast but has no value only ends the broadcast before it |
| AdvertisingEffects.EventArmsTimer | HAP/HAPBLEAccessoryServer+Advertising.c:1050-1074 | A counted event of a disconnected accessory arms the event timer |
| AdvertisingEffects.OnAirIsRepeated | HAP/HAPBLEAccessoryServer+Advertising.c:85-182 | While an event is on air every refresh sends it again, unchanged; otherwise nothing encrypted is sent |
| AdvertisingEffects.PeriodEnds | HAP/HAPBLEAccessoryServer+Advertising.c:451-494 | The event timer ends a broadcast and is armed for one more period; without a broadcast it is not armed again |
| AdvertisingEffects.FastAdvertising | HAP/HAPBLEAccessoryServer+Advertising.c:496-594 | The first start and every disconnect arm the fast timer |
| AdvertisingEffects.SilentWithoutAdvertising | HAP/HAPBLEAccessoryServer.c:147-193 | A server that is stopped or connected sends no notification, and a refresh does not touch anything |
| AdvertisingEffects.FailedCountIsFatal | HAP/HAPBLEAccessoryServer+Advertising.c:520-695 | A failing access to the GSN is fatal and leaves GSN and flag as they were |
| AdvertisingEffects.FailedParametersAreReported | HAP/HAPBLEAccessoryServer+Broadcast.c:99-254 | Key generation and identifier change nothing when the parameters cannot be read or written |
| AdvertisingEffects.FailedStartIsFatal | HAP/HAPAccessoryServer.c:491-615 | A start whose version check, update or cleanup fails is fatal before anything is sent |
| AdvertisingEffects.GeneratedKeyIsUsed | HAP/HAPBLEAccessoryServer+Broadcast.c:99-212 | A key generated in a connection, with its identifier, is what the change after the disconnect is broadcast under, with the next GSN |
| AdvertisingEffects.IdentifierIsUsed | HAP/HAPBLEAccessoryServer+Broadcast.c:215-254 | An identifier set in a connection is what the change after the disconnect is broadcast under |
| AdvertisingEffects.StartSettlesStore | HAP/HAPAccessoryServer.c:475-623 | After an update GSN 1 and no key, without an admin pairing neither key nor identifier, otherwise the store as it was; older firmware is not started |
| AdvertisingEffects.PurgesSettleStore | HAP/HAPAccessoryServer.c:992-1040 | The removal of the last admin pairing takes key and identifier away, a factory reset the GSN too |
| AdvertisingNonces.InterruptedUpdateRepeatsNonce | HAP/HAPAccessoryServer+Reset.c:70-94 | A concrete run: an update fails between the reset of the GSN and that of the key, the old firmware is started again, and a broadcast uses a nonce a second time |
| AdvertisingNonces.InterruptedResetRepeatsNonce | HAP/HAPAccessoryServer+Reset.c:10-30 | A concrete run: the purge of a factory reset fails after it has removed the GSN but not the key, the server is started again, and a broadcast uses a nonce a second time |
| AdvertisingServer.GsnRoundTrip | HAP/HAPBLEAccessoryServer+Advertising.c:12-45 | The three-byte GSN record decodes to the value encoded |
| AdvertisingServer.ParametersRoundTrip | HAP/HAPBLEAccessoryServer+Broadcast.c:10-96 | The stored broadcast parameter record decodes to the value encoded |
| AdvertisingServer.RecordLayout | HAP/HAPBLEAccessoryServer+Broadcast.c:10-50 | Both records keep their numbers little endian, key and identifier at their offsets, and flags in the lowest bit |
| AdvertisingServer.Server.constructor | HAP/HAPAccessoryServer.c:80-240 | An empty store and cleared advertising state are the initial state of the machine |
| AdvertisingServer.Server.GetGsn | HAP/HAPBLEAccessoryServer+Advertising.c:12-45 | The stored GSN, or 1 and not incremented when there is no record |
| AdvertisingServer.Server.GetParameters | HAP/HAPBLEAccessoryServer+Broadcast.c:10-50 | The stored parameters, or none when there is no record |
| AdvertisingServer.Server.GetAdvertisedParameters | HAP/HAPBLEAccessoryServer+Broadcast.c:53-96 | The stored parameters; without an advertising identifier the device ID has to be readable too |
| AdvertisingServer.Server.SaveParameters | HAP/HAPBLEAccessoryServer+Broadcast.c:18-50 | The record holds exactly these parameters afterwards, or nothing changed |
| AdvertisingServer.Server.ExpireKey | HAP/HAPBLEAccessoryServer+Broadcast.c:257-294 | Key and expiration GSN are cleared, everything else stays |
| AdvertisingServer.Server.GenerateKey | HAP/HAPBLEAccessoryServer+Broadcast.c:99-212 | The new key expires 32766 GSN steps after the current one; the advertising identifier is kept unless given |
| AdvertisingServer.Server.SetAdvertisingID | HAP/HAPBLEAccessoryServer+Broadcast.c:215-254 | Only the advertising identifier changes |
| AdvertisingServer.Server.IncrementGsn | HAP/HAPBLEAccessoryServer+Advertising.c:641-695 | Expires a key at its last GSN first, then stores the cyclic successor with didIncrement set; each failing access ends as the machine says |
| AdvertisingServer.Server.UpdateAdvertisingData | HAP/HAPBLEAccessoryServer+Advertising.c:48-200 | While an event is broadcast exactly one encrypted notification with the stored key and GSN is produced, otherwise none |
| AdvertisingServer.Server.DidStartAdvertising | HAP/HAPBLEAccessoryServer+Advertising.c:496-517 | Arms the fast timer once per boot; nothing else changes |
| AdvertisingServer.Server.DidConnect | HAP/HAPBLEAccessoryServer+Advertising.c:520-572 | Connecting disarms both timers, ends the broadcast and clears didIncrement |
| AdvertisingServer.Server.DidDisconnect | HAP/HAPBLEAccessoryServer+Advertising.c:575-630 | Disconnecting clears didIncrement and starts fast advertising for quick reconnection |
| AdvertisingServer.Server.AdvertisingTimerExpired | HAP/HAPBLEAccessoryServer+Advertising.c:451-494 | The expired timer is disarmed; with the event timer the broadcast ends and 20 ms advertising is kept up for another period |
| AdvertisingServer.Server.BroadcastEvent | HAP/HAPBLEAccessoryServer+Advertising.c:760-974 | Fetches configuration and value, increments the GSN, arms the event timer and only then puts the event on air |
| AdvertisingServer.Server.CoalesceIncrement | HAP/HAPBLEAccessoryServer+Advertising.c:1029-1048 | Increments the GSN only if nothing incremented it since the last connect or disconnect |
| AdvertisingServer.Server.DidRaiseEvent | HAP/HAPBLEAccessoryServer+Advertising.c:698-1090 | A raised event acts on the decoded state as the machine on values does, for every failing access |
| AdvertisingServer.Server.DidSendEventNotification | HAP/HAPBLEAccessoryServer+Advertising.c:1093-1144 | Sending an event to the connected controller increments the GSN at most once per connection |
| AdvertisingServer.Server.Start | HAP/HAPAccessoryServer.c:475-630 | Version check, post-update reset, cleanup of pairings and the first advertisement act as the machine on values does, for every failing access |
| AdvertisingServer.Server.CheckFirmware | HAP/HAPAccessoryServer.c:491-594 | A downgrade stops the start, an update resets GSN and key before the version is recorded, and each failing access is fatal |
| AdvertisingServer.Server.HandleFirmwareUpdate | HAP/HAPAccessoryServer+Reset.c:52-94 | The GSN is back to 1 and the key expired, or as far as the accesses succeeded |
| AdvertisingServer.Server.CleanupPairings | HAP/HAPAccessoryServer.c:992-1040 | Without an admin pairing the broadcast parameters are gone; a failing access leaves them |
| AdvertisingServer.Server.RemovePairing | HAP/HAPPairingPairings.c:454-510 | A removal at run time cleans up too, and only reports a failure |
| AdvertisingServer.Server.RestoreFactorySettings | HAP/HAPAccessoryServer+Reset.c:10-30 | Every record that the purge removes is gone, also when it fails at another; timers and the broadcasted event stay |
| Pdu.ControlRoundTrip | HAP/HAPBLEPDU.c:257-307 | The parser returns every control field the serializer writes |
| Pdu.PduLayout | HAP/HAPBLEPDU.c:587-690 | Control field, opcode, TID, status, instance ID, length and body are in their places, words little endian |
| Pdu.FirstRoundTrip | HAP/HAPBLEPDU.c:310-401 | A serialized first fragment is accepted, and returned unchanged if and only if an absent body claims no length; no body and empty body stay distinct |
| Pdu.ContinuationRoundTrip | HAP/HAPBLEPDU.c:404-475 | A serialized continuation is accepted at every running count that leaves room for it, and returned unchanged if and only if it is not an explicitly empty fragment |
| Pdu.FirstReserialized | HAP/HAPBLEPDU.c:587-690 | Re-serializing an accepted first fragment gives the same bytes |
| Pdu.ContinuationReserialized | HAP/HAPBLEPDU.c:587-690 | Re-serializing an accepted continuation gives the same bytes |
| Pdu.DeserializeControlField | HAP/HAPBLEPDU.c:257-307 | The field-by-field checks accept exactly the encodings of a control field |
| Pdu.Deserialize | HAP/HAPBLEPDU.c:310-401 | The pointer-advancing parser is the inverse reading of the wire format, with the same refusals |
| Pdu.DeserializeContinuation | HAP/HAPBLEPDU.c:404-475 | The same for continuations, whose remaining bytes are those of the whole body not yet received |
| Pdu.Serialize | HAP/HAPBLEPDU.c:587-690 | Writes the encoding at the start of the buffer and leaves the rest alone, or reports out of resources exactly when it does not fit |
| Transaction.RequestReassembles | HAP/HAPBLETransaction.c:29-141 | For every body up to 65535 bytes and every split each fragment is accepted and the handler gets the header and the body, or out of resources when it exceeds the buffer |
| Transaction.AcceptedNeverExceedsTotal | HAP/HAPBLETransaction.c:51-141 | In every accepted sequence the bytes collected are those on the wire, never more than announced, and the buffer holds exactly them |
| Transaction.NoBufferAssertsOnEmptyBody | HAP/HAPBLETransaction.c:29-48 | Without a body buffer, as while a timed write is pending, storing fails an assertion if and only if the request has an explicitly empty body |
| Transaction.ResponseCollects | HAP/HAPBLETransaction.c:211-314 | With any sequence of read capacities the controller collects TID, status and the body sent so far; the last fragment is marked final exactly when the body is complete |
| Transaction.ResponseFinishes | HAP/HAPBLETransaction.c:211-314 | Reads with room for at least one body byte finish the response |
| Transaction.FragmentsAreFull | HAP/HAPBLETransaction.c:211-314 | A fragment never exceeds the capacity of its read and uses all of it unless it is final |
| Transaction.TrailingWrites | HAP/HAPBLETransaction.c:113-134 | After the request exactly one frame is accepted: the empty continuation of its transaction, with the opcode in place of the TID while the request is handled |
| Transaction.OutOfTurn | HAP/HAPBLETransaction.c:51-314 | Writes while a response is sent, and reads before there is one, fail and change nothing |
| TransactionObject.BleTransaction.Create | HAP/HAPBLETransaction.c:10-19 | The object is back in its initial state with the given body buffer |
| TransactionObject.BleTransaction.TryAppendBodyFragment | HAP/HAPBLETransaction.c:29-48 | Fragments are written to their place in the buffer, or only counted when the body does not fit |
| TransactionObject.BleTransaction.HandleWrite | HAP/HAPBLETransaction.c:51-141 | Collects, skips or refuses a write as the transaction on values does, in place; while a request is handled a write is held against the byte that response and request share |
| TransactionObject.BleTransaction.GetRequest | HAP/HAPBLETransaction.c:152-176 | The body in the buffer, or out of resources |
| TransactionObject.BleTransaction.SetResponse | HAP/HAPBLETransaction.c:178-208 | The response is ready to be sent from its first byte |
| TransactionObject.BleTransaction.HandleRead | HAP/HAPBLETransaction.c:211-314 | Writes the next fragment as the transaction on values does; the buffer starts with exactly that frame |
| FallbackProcedure.AgreesWithTransaction | HAP/HAPBLEPeripheralManager.c:1211-1364 | For every sequence of writes the hand-written parser accepts exactly what the transaction accepts; it waits for the announced body minus the bytes received, and answers exactly when the full procedure would |
| FallbackProcedure.RefusesLikeProcedure | HAP/HAPBLEPeripheralManager.c:1226-1290 | For every request both can collect, with a valid opcode other than the service signature read, the fallback procedure complains about the instance ID if and only if the full procedure of that characteristic does so whatever the application does, and otherwise about the number of procedures |
| FallbackProcedure.RefusalMeans | HAP/HAPBLEPeripheralManager.c:1226-1290 | The reply by opcode and instance ID, with success and an empty list of linked services for a service signature read of instance ID 0 that is not the service's |
| FallbackProcedure.ReplyIsReadable | HAP/HAPBLEPeripheralManager.c:783-811 | The fixed reply is a response PDU that parses back |
| FallbackProcedure.Procedure.HandleFirstFragment | HAP/HAPBLEPeripheralManager.c:1211-1311 | Accepts a first fragment exactly when the PDU parser reads it as a request, with the refusal of its opcode and instance ID and the body bytes still to come |
| FallbackProcedure.Procedure.HandleContinuation | HAP/HAPBLEPeripheralManager.c:1312-1364 | Accepts a continuation exactly when the PDU parser does for this transaction and the bytes still to come |
| FallbackProcedure.Procedure.HandleWrite | HAP/HAPBLEPeripheralManager.c:1180-1364 | Dispatches to the two parsers; an error is always invalid data |
| FallbackProcedure.Procedure.HandleRead | HAP/HAPBLEPeripheralManager.c:736-838 | Answers only when the whole request has been skipped, with the encoding of the response PDU, in a secured session encrypted; then the state is cleared |
| ProcedureProperties.TimedWritesInOrder | HAP/HAPBLEProcedure.c:683-914 | In every run, up to a first copy that leaves the buffer, a handler of a characteristic that requires timed writes runs only for an execute write, on byte for byte the body cached by the timed write before it, at most once each, and within its time to live |
| ProcedureProperties.RunKeeps | HAP/HAPBLEProcedure.c:170-1328 | Every run of reads, writes, timer expiries and attachments keeps the procedure invariant: a pending body is never overwritten and the timer runs while a transaction is under way |
| ProcedureProperties.GattWriteKeeps | HAP/HAPBLEProcedure.c:1062-1189 | A GATT write leaves the scratch buffer alone while a timed write stays pending |
| ProcedureProperties.DispatchWriteKeeps | HAP/HAPBLEProcedure.c:751-914 | A write reaches the handler only with the cached body and in time, or as a plain write of a characteristic without that requirement |
| ProcedureProperties.WritePermitted | HAP/HAPBLEProcedure.c:765-858 | A write passes the checks if and only if the session is not transient, the characteristic is writable in that kind of session (identify: while unpaired), its controller is an admin where needed, and a required timed write is one; whoever is told to authenticate gains from doing so where secure writes are supported |
| ProcedureProperties.HandlerCallPermitted | HAP/HAPBLEProcedure.c:170-914 | One GATT read calls the write handler at most once, and only for a permitted request to this very characteristic; for an execute write exactly when a timed write is pending |
| ProcedureProperties.ReadPermitted | HAP/HAPBLEProcedure.c:952-1056 | A read is answered with the value if and only if the session may read and the read handler succeeds |
| ProcedureAnswers.ReadRequestAnswered | HAP/HAPBLEProcedure.c:938-1056 | A collected read request is answered, on the wire, with the value the read handler has produced, or with the status that says why not; nothing is handled or cached |
| ProcedureAnswers.ReadRefused | HAP/HAPBLEProcedure.c:952-1010 | A read is refused if and only if it is not permitted, and the controller told to authenticate if and only if an admin, in this or in a secured session, may read |
| ProcedureAnswers.ValueDelivered | HAP/HAPBLEProcedure.c:938-1328 | With enough reads the controller collects exactly the value of a permitted read, the last fragment is marked, and the procedure is free again |
| ProcedureAnswers.WriteRefused | HAP/HAPBLEProcedure.c:765-858 | A write is refused if and only if it is not permitted; invalid request stands for a plain write where only the timed one is missing, and authentication is asked for exactly where it helps |
| ProcedureAnswers.ForbiddenWriteAnswered | HAP/HAPBLEProcedure.c:751-858 | A write that is not permitted is answered with that status on the wire and does not reach the handler |
| ProcedureAnswers.ForbiddenExecuteAnswered | HAP/HAPBLEProcedure.c:725-858 | Nor does the execution of a cached write that is not permitted; the cached write is forgotten |
| ProcedureAnswers.TransientTimedWriteAnswered | HAP/HAPBLEProcedure.c:683-724 | A timed write of a transient session is answered with unsupported PDU and not cached |
| ProcedureAnswers.TransientExecuteAsserts | HAP/HAPBLEProcedure.c:725-750 | Executing in a transient session fails an assertion |
| ProcedureAnswers.OrderEnforced | HAP/HAPBLEProcedure.c:235-760 | While a timed write is pending every other operation, and without one its execution, fails and leaves the pending write as it is |
| ProcedureAnswers.MisaddressedAnswered | HAP/HAPBLEProcedure.c:184-247 | A body without room, an unknown opcode and a foreign instance ID are answered with their statuses, and nothing is handled or cached |
| ProcedureAnswers.OtherAnswered | HAP/HAPBLEProcedure.c:235-682 | The remaining operations are answered with the status and body they produce |
| ProcedureAnswers.FrameFits | HAP/HAPBLEProcedure.c:1255-1302 | A fragment with its tag in a secured session never exceeds what the read can take, and takes all of it unless it is the final one |
| ProcedureAnswers.UnreadableRefused | HAP/HAPBLEProcedure.c:1245-1267 | A read in a session that has ended, or without room for the tag, fails and changes nothing |
| ProcedureAnswers.NothingSent | HAP/HAPBLEProcedure.c:1269-1302 | Nothing is sent when encryption fails or the request has not come in |
| ProcedureAnswers.EndedSessionRefused | HAP/HAPBLEProcedure.c:1076-1105 | A session that has ended cannot write, one about to end cannot begin a procedure; nothing changes |
| ProcedureAnswers.UndecryptableRefused | HAP/HAPBLEProcedure.c:1144-1170 | A fragment that cannot be decrypted is invalid data and not collected |
| ProcedureAnswers.DroppedSessionInTheClear | HAP/HAPBLEProcedure.c:1107-1143 | On a characteristic that drops the session a procedure starts afresh and collects plain frames |
| TimedWrite.TimedWriteExecutes | HAP/HAPBLEProcedure.c:683-914 | From the first fragment to the frame the controller reads last: in any fragmentation the timed write is answered with success; the execute write runs the handler on the value exactly if the bytes are a request with a value and a time to live, the buffer has room for the value behind the request, and it is not late; the answer has the status of the result |
| TimedWrite.EmptyExecuteBodyAsserts | HAP/HAPBLETransaction.c:29-48 | A concrete run for every timed write: answered, then followed by an execute write with an explicitly empty body, it fails an assertion |
| TimedWrite.PlainWriteExecutes | HAP/HAPBLEProcedure.c:751-914 | A plain write in any fragmentation runs the handler on the value exactly if the bytes are a request with a value and the buffer has room for it; the answer has the status of the result |
| TimedWriteRequest.TimedValueExecutes | HAP/HAPBLECharacteristicParseAndWriteValue.c:219-280 | For the bytes of a value of any length with a time to live, and the parser of this project, the exchange goes as TimedWriteExecutes says for that value |
| TimedWriteRequest.ValueExecuted | HAP/HAPBLECharacteristicParseAndWriteValue.c:161-215 | There the handler gets the value if and only if the room takes it with its NUL, the time to live is not zero and the write is in time |
| TimedWriteRequest.FullBufferRuins | HAP/HAPBLECharacteristicParseAndWriteValue.c:161-215 | A plain write of any value whose bytes fill the buffer is collected, and moving the value then leaves the buffer |
| TimedWrite.RequestCollected | HAP/HAPBLEProcedure.c:1062-1189 | A procedure collects a request in any fragmentation at the start of its scratch buffer |
| TimedWrite.TimedWriteCached | HAP/HAPBLEProcedure.c:683-724 | Answering a timed write caches body and start time and frees the transaction |
| TimedWrite.CachedExecuted | HAP/HAPBLEProcedure.c:725-750 | Executing passes exactly the cached body and start time on, and gives the answer of the result; afterwards the procedure is idle |
| ProcedureObject.BleProcedure.constructor | HAP/HAPBLEProcedure.c:14-44 | A new procedure is attached and idle |
| ProcedureObject.BleProcedure.Attach | HAP/HAPBLEProcedure.c:14-44 | Attaching leaves nothing of an earlier procedure but the scratch bytes |
| ProcedureObject.BleProcedure.Reset | HAP/HAPBLEProcedure.c:60-75 | Back to attached and idle on the same characteristic |
| ProcedureObject.BleProcedure.ProcedureTimerExpired | HAP/HAPBLEProcedure.c:78-110 | Expiry drops everything, including a pending timed write |
| ProcedureObject.BleProcedure.ParseAndWriteValue | HAP/HAPBLECharacteristicParseAndWriteValue.c:219-280 | Parses in the scratch buffer itself; the handler runs exactly when the request parses, its moves stay in the buffer, it is within its time to live and its value is acceptable, on the complete value found in the buffer; the result is its verdict |
| ProcedureObject.BleProcedure.HandleRead | HAP/HAPBLEProcedure.c:938-1056 | Reads, or fails while a timed write is pending |
| ProcedureObject.BleProcedure.HandleWrite | HAP/HAPBLEProcedure.c:751-937 | Writes and then responds or reads, with the status of each failure; a copy that leaves the buffer has no determined outcome |
| ProcedureObject.BleProcedure.HandleTimedWrite | HAP/HAPBLEProcedure.c:683-724 | Only remembers where the body is |
| ProcedureObject.BleProcedure.HandleExecuteWrite | HAP/HAPBLEProcedure.c:725-750 | Restores the cached body and goes on as a write |
| ProcedureObject.BleProcedure.ProcessTransaction | HAP/HAPBLEProcedure.c:170-1059 | Dispatches a collected request as the procedure on values does |
| ProcedureObject.BleProcedure.CompleteTransaction | HAP/HAPBLEProcedure.c:1196-1224 | Stops the timer and reopens the buffer, or keeps it closed for a pending timed write; fails only without a running timer |
| ProcedureObject.BleProcedure.HandleGATTWrite | HAP/HAPBLEProcedure.c:1062-1189 | Starts the procedure if needed and collects one fragment as the procedure on values does |
| ProcedureObject.BleProcedure.HandleGATTRead | HAP/HAPBLEProcedure.c:1227-1328 | Processes an available request and sends one fragment as the procedure on values does, in every state; without a running timer the last fragment fails an assertion |
| Tlv.ReadEncoded | HAP/HAPTLVReader.c:36-123 | Reading an encoded item of any length gives it back, unless an item of the same type follows at once |
| Tlv.ReadReencodes | HAP/HAPTLVReader.c:36-123 | The bytes of an accepted item are its encoding: no other fragmentation is accepted |
| Tlv.ItemLayout | HAP/HAPTLVReader.c:36-123 | Type and length stand in front of a value; a byte beyond 255 makes a second fragment of the same type |
| Tlv.GetNext | HAP/HAPTLVReader.c:36-123 | Joining fragments in place gives the value of the item, followed by a NUL inside the item's own bytes; nothing else changes |
| WriteRequest.EncodedItemsCollected | HAP/HAPTLVReader.c:126-173 | A list of items whose neighbours differ in type is collected as written, duplicates of a sought type being an error |
| WriteRequestItems.RequestSaysItems | HAP/HAPBLECharacteristicParseAndWriteValue.c:36-217 | The bytes of a list of items without repeated types are accepted if and only if the list has a value and every other item as it should be; then value, authorization data and their order, origin, time to live and response flag are those of the list |
| WriteRequestItems.DuplicateRejected | HAP/HAPTLVReader.c:126-173 | A second item of a type that is looked for, anywhere in the list, makes the request invalid |
| WriteRequest.GetAll | HAP/HAPTLVReader.c:126-173 | Every sought item is in its own slot with its NUL, no two touch, and errors are those of the request as a value |
| WriteRequest.CheckFields | HAP/HAPBLECharacteristicParseAndWriteValue.c:75-159 | Origin, time to live and response flag are accepted and decoded as the request on values says |
| WriteRequest.Relocate | HAP/HAPBLECharacteristicParseAndWriteValue.c:161-215 | Value and authorization data are moved apart, inside the buffer and with the exact capacity, if and only if both with their NULs fit behind the request; a copy leaves the buffer exactly if the value or, when it came first, the sum does not fit; otherwise the value is complete and the authorization data keeps every byte the value has not been written over |
| WriteRequest.ParseRequest | HAP/HAPBLECharacteristicParseAndWriteValue.c:36-217 | The whole request: same errors and fields as reading it as a value, which also says whether the authorization data came first; placed, overwritten or out of the buffer exactly as the sizes say |
| BroadcastTable.GetIsLookup | HAP/HAPBLECharacteristic+Broadcast.c:135-205 | Reading with its early exit is map lookup |
| BroadcastTable.EnableIsUpdate | HAP/HAPBLECharacteristic+Broadcast.c:208-314 | Enabling is map update; it fails exactly on an I/O error or for a new instance ID in a table of 41, and then the store is unchanged |
| BroadcastTable.DisableIsRemoval | HAP/HAPBLECharacteristic+Broadcast.c:317-395 | Disabling is map removal, and the record disappears with its last entry |
| BroadcastTable.ContentsInjective | HAP/HAPBLECharacteristic+Broadcast.c:208-395 | The stored bytes are determined by the map |
| BroadcastTable.DisableUndoesEnable | HAP/HAPBLECharacteristic+Broadcast.c:208-395 | Disabling what was newly enabled restores the store byte for byte |
| BroadcastTable.FirstRecord | HAP/HAPBLECharacteristic+Broadcast.c:208-314 | The record of one characteristic, byte for byte |
| BroadcastTable.AnyRecordRead | HAP/HAPBLECharacteristic+Broadcast.c:36-205 | Reading an arbitrary record: a bad length is an error, a foreign accessory ID means nothing is configured, and no invalid interval is returned |
| BroadcastTable.InvalidIntervalRefused | HAP/HAPBLECharacteristic+Broadcast.c:135-395 | An item with an invalid interval makes reading, enabling and disabling fail and stays as it is |
| BroadcastTable.ForeignRecordReplaced | HAP/HAPBLECharacteristic+Broadcast.c:36-395 | A record of another accessory ID is replaced by an enable and left by a disable |
| BroadcastTable.RunRefinesMap | HAP/HAPBLECharacteristic+Broadcast.c:135-395 | Every run of enables and disables with any I/O failures is a run of a bounded finite map; records stay sorted, valid and at most 41 |
| BroadcastStore.Find | HAP/HAPBLECharacteristic+Broadcast.c:175-200 | The scan stops at the first instance ID that is not smaller |
| BroadcastStore.Store.Load | HAP/HAPBLECharacteristic+Broadcast.c:36-132 | A record is loaded only if its length and accessory ID are right |
| BroadcastStore.Store.GetConfiguration | HAP/HAPBLECharacteristic+Broadcast.c:135-205 | Reads the configuration for every stored record, well-formed or not |
| BroadcastStore.Store.EnableNotifications | HAP/HAPBLECharacteristic+Broadcast.c:208-314 | Edits the record in place and stores it, for every stored record |
| BroadcastStore.Store.AddAt | HAP/HAPBLECharacteristic+Broadcast.c:293-313 | Moves the tail up and inserts the new entry, or refuses a full table |
| BroadcastStore.Store.RemoveAt | HAP/HAPBLECharacteristic+Broadcast.c:375-393 | Moves the tail down and stores or removes the record |
| BroadcastStore.Store.DisableNotifications | HAP/HAPBLECharacteristic+Broadcast.c:317-395 | Removes the entry in place and stores or removes the record, for every stored record |
| SetupPayload.IsValidSetupCode | HAP/HAPAccessorySetup.c:11-39 | Accepts exactly XXX-XX-XXX with digits that are not all equal, not 12345678 and not 87654321 |
| SetupPayload.ValidUnlessExcluded | HAP/HAPAccessorySetup.c:11-39 | A code of the right form is valid if and only if it is none of the twelve that are written out |
| SetupPayload.QuotientBounds | HAP/HAPAccessorySetup.c:144-157 | For every 64-bit value shifts and additions give the quotient by 36 or up to one less, so the remainder is in [0, 72) |
| SetupPayload.TruncatedSubtraction | HAP/HAPAccessorySetup.c:156-157 | The 32-bit truncating subtraction loses nothing |
| SetupPayload.DivMod36 | HAP/HAPAccessorySetup.c:145-163 | The corrected quotient and remainder are exact, and no intermediate value leaves its C type |
| SetupPayload.ToAsciiPicks | HAP/HAPAccessorySetup.c:165-173 | The branch-free transformation picks the character of the alphabet |
| SetupPayload.Text9Injective | HAP/HAPAccessorySetup.c:143-176 | Nine base-36 characters determine every packed code |
| SetupPayload.Text9Read | HAP/HAPAccessorySetup.c:143-176 | Read as a number in base 36, most significant character first, the nine characters are the packed code |
| SetupPayload.OrIsSum | HAP/HAPAccessorySetup.c:124-130 | The bit fields do not overlap |
| SetupPayload.FieldsRecovered | HAP/HAPAccessorySetup.c:123-142 | Category, flags and setup code are recovered from the packed code |
| SetupPayload.EncodeBase36 | HAP/HAPAccessorySetup.c:143-176 | Writes the nine base-36 digits big endian in place |
| SetupPayload.GetSetupPayload | HAP/HAPAccessorySetup.c:102-193 | The template is filled with prefix, packed code and setup ID, and stays terminated |
| SetupPayload.PayloadReads | HAP/HAPAccessorySetup.c:102-193 | A reader of the text finds the prefix, category, flags and the digits of the setup code at their bit positions, and the setup ID |
| SetupPayload.PayloadDetermines | HAP/HAPAccessorySetup.c:102-193 | Two inputs have the same payload if and only if flags, category, code and ID agree, a missing code counting as 000-00-000 with ID 0000 |
| SetupPayload.PayloadInjective | HAP/HAPAccessorySetup.c:102-193 | With valid setup codes the payload determines the input, including whether it has a code |
| SetupInfoProperties.NextKeeps | HAP/HAPAccessorySetupInfo.c:186-559 | Whichever look-ups of the pairings fail, every step keeps the invariant and goes wrong exactly on conditions that are read off the state before it: an assertion or precondition fails only where a paired accessory is taken for unpaired or left showing a code, and the accessory of a stopped server is used exactly by a state update or a pairing mode on an accessory with an output that looks unpaired |
| SetupInfoProperties.RunFailsExactly | HAP/HAPAccessorySetupInfo.c:186-559 | A run ends in a failed assertion or at the missing accessory if and only if one of its steps meets these conditions |
| SetupInfoProperties.CleanSteps | HAP/HAPAccessorySetupInfo.c:77-180 | While every look-up succeeds the only step that fails an assertion is the end of NFC mode on a paired accessory whose locked code stays on show |
| SetupInfoProperties.SetupInfoInvariant | HAP/HAPAccessorySetupInfo.c:186-534 | In every run locked means no refresh timer, a refresh timer means an available code, an attempt means a locked code, and the verifier belongs to the code |
| SetupInfoLifecycle.DisplayHasCode | HAP/HAPAccessorySetupInfo.c:186-434 | In every run in which removals are noticed, a running accessory with a display that is not paired has a code as soon as no state update is due, locked by an attempt or to be refreshed |
| SetupInfoLifecycle.NothingElseFails | HAP/HAPAccessorySetupInfo.c:186-559 | With a timer to be had, a step stays alive if and only if none of the failure conditions is met |
| SetupInfoLifecycle.StartEffect | HAP/HAPAccessorySetupInfo.c:341-352 | A start gives an accessory with a display that looks unpaired a new code to be refreshed, any other one nothing |
| SetupInfoLifecycle.UpdateEffect | HAP/HAPAccessorySetupInfo.c:372-390 | A state update leaves an unpaired display with a code, the old one if there was one, and a paired accessory without NFC mode |
| SetupInfoLifecycle.BeginEffect | HAP/HAPAccessorySetupInfo.c:392-407 | An attempt locks the code that is there, or a new one, and stops its refreshing |
| SetupInfoLifecycle.GetEffect | HAP/HAPAccessorySetupInfo.c:298-337 | The verifier belongs to the code that is there; a kept code is discarded for a new one unless it is to be restored |
| SetupInfoLifecycle.StopEffect | HAP/HAPAccessorySetupInfo.c:409-434 | An attempt that keeps its code leaves it locked, any other one uses it up: a display shows a new code |
| SetupInfoLifecycle.RefreshEffect | HAP/HAPAccessorySetupInfo.c:276-294 | An expired or refreshed code is replaced on a display and gone elsewhere; one that is not to be refreshed stays |
| SetupInfoLifecycle.EnterNfcEffect | HAP/HAPAccessorySetupInfo.c:479-518 | NFC mode begins or goes on with a setup, the old one if there was one, unless the accessory looks paired |
| SetupInfoLifecycle.LeaveNfcEffect | HAP/HAPAccessorySetupInfo.c:454-534 | Leaving NFC mode takes away the setup that is neither locked nor refreshed, and only that |
| SetupInfoLifecycle.EnterLegacyEffect | HAP/HAPAccessorySetupInfo.c:536-559 | The deprecated mode prepares a setup with a deprecated output, outside of attempts, while unpaired |
| SetupInfoProperties.AssertionsHold | HAP/HAPAccessorySetupInfo.c:77-559 | Without both an always shown code and programmable NFC no assertion or precondition ever fails and the accessory of a stopped server is never used, provided that look-ups succeed while paired, starts are not refused and shutdowns find no state update scheduled, and pairing modes are not entered on a stopped, unpaired accessory |
| SetupInfoProperties.UpdateAfterShutdownFails | HAP/HAPAccessoryServer.c:38-76 | A concrete run on any accessory with an output: start, stop, and the state update the start has scheduled, which uses the accessory of the stopped server |
| SetupInfoProperties.UpdateAfterRefusedStartFails | HAP/HAPAccessoryServer.c:479-540 | A concrete run on any accessory with an output: a start that is refused for its older firmware, and the state update it has scheduled, which finds no accessory |
| SetupInfoProperties.NfcModeBeforeStartFails | HAP/HAPAccessoryServer.c:837-843 | A concrete run on any accessory with programmable NFC: NFC pairing mode before the server is started finds no accessory |
| SetupInfoProperties.MisreadPairingFails | HAP/HAPAccessoryServer.c:797-815 | A concrete run on a paired accessory with a display: the look-up made by the state update fails, the next one succeeds, and a precondition fails |
| SetupInfoProperties.PairedInNfcModeFailsAssertion | HAP/HAPAccessorySetupInfo.c:118-120 | A concrete run on an accessory with display and NFC in which the assertion that a shown code means unpaired fails |
| SetupInfoProperties.AtMostOneReplacement | HAP/HAPAccessorySetupInfo.c:298-337 | Between start and stop of an attempt, under any interleaving, code and verifier are replaced at most once, and only when a kept code is discarded |
| SetupInfoProperties.SameVerifierThroughout | HAP/HAPPairingPairSetup.c:244-251 | The two messages of an attempt that use the verifier get the same one, whatever happens in between and however each asks; only a kept code restored by the first has to be restored by the second |
| SetupInfoServer.Server.SynchronizeDisplayAndNFC | HAP/HAPAccessorySetupInfo.c:77-180 | Fails exactly when a pairable payload would be derived for an accessory that looks paired, or finds no accessory |
| SetupInfoServer.Server.IsPaired | HAP/HAPAccessoryServer.c:797-815 | Whether a pairing is stored; a look-up that fails says no |
| SetupInfoServer.Server.PrepareStart | HAP/HAPAccessoryServer.c:475-623 | A start schedules a state update before the version check; if that refuses it, nothing else has happened |
| SetupInfoServer.Server.ClearSetupInfo | HAP/HAPAccessorySetupInfo.c:186-199 | Forgets code, verifier and marks together with the refresh timer |
| SetupInfoServer.Server.PrepareSetupInfo | HAP/HAPAccessorySetupInfo.c:201-274 | Locks what is available, or generates or loads a code with a refresh timer only if it is not locked |
| SetupInfoServer.Server.DynamicSetupInfoExpired | HAP/HAPAccessorySetupInfo.c:276-294 | Replaces the expired code where there is a display |
| SetupInfoServer.Server.GetSetupInfo | HAP/HAPAccessorySetupInfo.c:298-337 | Returns the verifier of the current code, discarding a kept one unless it is to be restored |
| SetupInfoServer.Server.HandleAccessoryServerStart | HAP/HAPAccessorySetupInfo.c:341-352 | Starts generating codes on an accessory with a display that looks unpaired |
| SetupInfoServer.Server.HandleAccessoryServerStop | HAP/HAPAccessorySetupInfo.c:354-370 | Clears everything |
| SetupInfoServer.Server.HandleAccessoryServerStateUpdate | HAP/HAPAccessorySetupInfo.c:372-390 | Resumes generating codes, or leaves NFC mode once paired; each of its look-ups of the pairings can fail by itself |
| SetupInfoServer.Server.HandlePairingStart | HAP/HAPAccessorySetupInfo.c:392-407 | Locks the code for the attempt |
| SetupInfoServer.Server.HandlePairingStop | HAP/HAPAccessorySetupInfo.c:409-434 | Keeps the code for the next attempt or clears it |
| SetupInfoServer.Server.RefreshSetupPayload | HAP/HAPAccessorySetupInfo.c:438-451 | Replaces a code only while its refresh timer runs |
| SetupInfoServer.Server.NFCPairingModeExpired | HAP/HAPAccessorySetupInfo.c:468-477 | Leaves NFC mode |
| SetupInfoServer.Server.EnterNFCPairingMode | HAP/HAPAccessorySetupInfo.c:479-518 | Starts or extends NFC mode on an unpaired accessory |
| SetupInfoServer.Server.ExitNFCPairingMode | HAP/HAPAccessorySetupInfo.c:520-534 | Clears the code unless it is locked or refreshed |
| SetupInfoServer.Server.EnterLegacyPairingMode | HAP/HAPAccessorySetupInfo.c:536-559 | Prepares a code unless pairing or paired |
| Subscriptions.ApplicationInStep | HAP/HAPBLEPeripheralManager.c:452-497 | Over any interleaving of subscription writes, sessions and connections in which pairings outlive their sessions and stay readable the application's set is the table's within a session and empty otherwise, calls alternate per characteristic, and no precondition fails |
| Subscriptions.NextKeeps | HAP/HAPBLEPeripheralManager.c:210-272 | A precondition fails exactly when Pair Verify is accepted over an active session or cannot be seen to be secured; any other step keeps the application in step exactly when it is not a subscription change, or a transient session over subscriptions, while the active session does not count as secured |
| Subscriptions.InStepExactly | HAP/HAPBLEPeripheralManager.c:452-497 | A run stays in step throughout if and only if none of its steps fails or is blind |
| Subscriptions.DisconnectLeavesNone | HAP/HAPBLEPeripheralManager.c:240-272 | After a disconnect no subscription is outstanding |
| Subscriptions.WriteChangesSubscription | HAP/HAPBLEPeripheralManager.c:452-497 | A descriptor write sets the subscription of its characteristic to what is written, in any state of the session, and the application is told exactly in a session that counts as secured and of a change only |
| Subscriptions.TableOutlivesSession | HAP/HAPBLEPeripheralManager.c:210-272 | No other step but connect and disconnect, which clear it, changes the table |
| Subscriptions.SessionsBeginAndEnd | HAP/HAPSession.c:71-171 | A session is there from its acceptance to its invalidation, the disconnect or a new connection; a removed pairing makes it count as not secured |
| Subscriptions.RemovedPairingBreaksAlternation | HAP/HAPSession.c:125-171 | A concrete run: the pairing is removed, a subscription made, the session invalidated; the application gets an unsubscribe without a subscribe |
| Subscriptions.UnreadablePairingBreaksAlternation | HAP/HAPSession.c:151-167 | A concrete run: a subscription is made while the pairing cannot be read, then the session invalidated; the application gets an unsubscribe without a subscribe |
| Subscriptions.UnreadablePairingFailsPrecondition | HAP/HAPPairingPairVerify.c:130-150 | A concrete run: while the pairing cannot be read Pair Verify starts over an active session and fails its precondition |
| SubscriptionTable.Manager.IsSecured | HAP/HAPSession.c:125-171 | Secured means active and transient, or with a pairing that still exists and can be read |
| SubscriptionTable.Manager.ResetEventState | HAP/HAPBLEPeripheralManager.c:130-146 | No entry of the used table is subscribed or pending |
| SubscriptionTable.Manager.SendPendingEventNotifications | HAP/HAPBLEPeripheralManager.c:279-381 | Sends exactly the specified entries, in table order, and clears their pending flags only |
| SubscriptionTable.SentExactly | HAP/HAPBLEPeripheralManager.c:290-381 | An event is sent if and only if its entry is used, subscribed, pending and permitted, and neither it nor a due entry before it ends the loop, by a session not secured or transient or by a busy platform |
| SubscriptionTable.RaisedEventIsSent | HAP/HAPBLEPeripheralManager.c:279-381 | A raised event of a subscribed characteristic is sent where session, controller and platform allow it |
| SubscriptionTable.SentMeans | HAP/HAPBLEPeripheralManager.c:290-381 | Whatever is sent is used, pending and subscribed, in an active session with a pairing that is not transient, to a controller with the rights |
| SubscriptionTable.Manager.RaiseEvent | HAP/HAPBLEPeripheralManager.c:1637-1664 | Marks the entry and sends what can be sent; the flags left are specified |
| SubscriptionTable.Manager.SetNotificationsEnabled | HAP/HAPBLEPeripheralManager.c:452-497 | Changes the subscription, tells the application in a secured session, and goes on sending events; the flags left are specified |
| SubscriptionTable.Manager.HandleCccWrite | HAP/HAPBLEPeripheralManager.c:1373-1407 | Accepts exactly the two descriptor values; subscriptions, calls and pending flags are specified |
| SubscriptionTable.Manager.InformApplication | HAP/HAPBLEPeripheralManager.c:1680-1700 | One call for each subscribed characteristic, in table order |
| SubscriptionTable.Manager.HandleSessionAccept | HAP/HAPBLEPeripheralManager.c:1666-1711 | Announces what was subscribed before the session and goes on sending events, or fails its precondition exactly when the session does not count as secured |
| SubscriptionTable.Manager.Accept | HAP/HAPPairingPairVerify.c:60-150 | Pair Verify over an active session fails; otherwise the session becomes active and is accepted as the machine on values says |
| SubscriptionTable.Manager.InvalidateSession | HAP/HAPSession.c:71-118 | Withdraws every announced subscription while the table keeps them |
| SubscriptionTable.Manager.HandleConnectedCentral | HAP/HAPBLEPeripheralManager.c:210-238 | A new connection starts without subscriptions and without session |
| SubscriptionTable.Manager.HandleDisconnectedCentral | HAP/HAPBLEPeripheralManager.c:240-272 | Session and subscriptions end with the connection |
| ServiceIndex.IndexThenLookup | HAP/HAPAccessoryServer.c:1561-1660 | Looking up the index of a service gives it back |
| ServiceIndex.LookupThenIndex | HAP/HAPAccessoryServer.c:1561-1660 | The index of what a lookup gave is the number again if and only if the same service and accessory have no smaller one |
| ServiceIndex.EveryIndexRoundTrips | HAP/HAPAccessoryServer.c:1561-1660 | Without repeated services every number below the count makes the round trip |
| ServiceIndex.GetNumServiceInstances | HAP/HAPAccessoryServer.c:1522-1558 | The number of services of the type, or a failed assertion when it does not fit into 16 bits |
| ServiceIndex.GetServiceTypeIndex | HAP/HAPAccessoryServer.c:1561-1608 | The index of the service, fatal exactly when it is missing or its index does not fit |
| ServiceIndex.GetServiceFromServiceTypeIndex | HAP/HAPAccessoryServer.c:1610-1660 | The service of the number, fatal exactly when there is none |
| ConfigurationNumber.NumbersAdvance | HAP/HAPAccessoryServer.c:1100-1142 | Over any number of increments from 1 the 32-, 16- and 8-bit numbers each take their own cyclic successor at every step, also at the 32-bit wrap, and are never 0 |
| ConfigurationNumber.ProjectionsCompose | HAP/HAPBLEProtocol+Configuration.c:165-178 | The 8-bit number is the same whether derived from 16 or from 32 bits |
| ConfigurationNumber.Store.GetCN | HAP/HAPAccessoryServer.c:1046-1105 | The 16-bit projection of the stored number; the first call creates it, and a short record is an error |
| ConfigurationNumber.Store.GetCN8 | HAP/HAPBLEAccessoryServer+Advertising.c:310-318 | The 8-bit projection of the stored number, and an error exactly when an access fails or the record is short |
| ConfigurationNumber.Store.IncrementCN | HAP/HAPAccessoryServer.c:1108-1157 | The stored number becomes its successor, or stays on failure; a short record, completed by what was on the stack, is replaced by a well-formed one |

## Left out

- Cryptography: encryption, authentication tags and key derivation are inputs (whether they succeed, and to what plaintext); random codes and salts are inputs, and the rejection-sampling loops are not modelled.
- IP transport, pair verify and the messages of pair setup: only the events they cause are steps of a machine.
- BroadcastStore.Store.Load: one key of the store is modelled; enumeration over several keys for several accessories is not, since the accessory ID is always 1.
- BroadcastTable.GetIsLookup: speaks of the records this code writes; for unsorted records only the scan itself is specified.
- SubscriptionTable.Manager.InvalidateSession: of the session only the flags that decide about subscriptions are modelled; on a disconnect it runs before the connection flag is cleared, not after.
- SetupInfoServer.Server.SynchronizeDisplayAndNFC: what is displayed or written is not recorded; the payload itself is proved in SetupPayload.
- AdvertisingServer.Server.UpdateAdvertisingData: the bytes of regular and encrypted advertisements are reduced to key, GSN, identifier, instance ID and value; the periods between advertisements are not modelled.
- AdvertisingServer.Server.GetAdvertisedParameters: the device ID itself is not modelled, only whether it can be read where it is needed.
- AdvertisingServer.Server.DidRaiseEvent: the indication to a connected controller that the same call raises first is the separate step of a sent notification; a run with both in a row is the call.
- ProcedureObject.BleProcedure.ProcessTransaction: the operations of one transaction other than reads and writes are one step with an arbitrary status and body.
- TimedWrite.TimedWriteExecutes: speaks of frames before encryption; a tag is added in a secured session.
- SetupPayload.OrIsSum: the packed code is a sum; that OR gives the same is proved on bit vectors beside it.
- Signatures, configuration, tokens and information, the other operations of one transaction, in detail.
- ProcedureObject.BleProcedure.ParseAndWriteValue: the formats of characteristic values and their constraints are one input that says whether the value is acceptable.
- WriteRequest.Relocate: once a copy has left the buffer nothing is said about its contents.
- Session expiry times, and the search for a GATT attribute by handle.
- Service and characteristic signatures, the TLV writer, accessory validation, opcode and status tables, bit sets: case by case, without properties across functions.
- Parsing of firmware version strings.
