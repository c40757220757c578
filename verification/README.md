# Verified models of the ESP32 Mist port

A Dafny project about the stateful parts of the ESP32 port: the flash layer under the file
system, the over-the-air update endpoint, Wi-Fi commissioning, and the queues, loops and
bookkeeping around the Wish core. `dafny verify dfyconfig.toml` checks all of it.

| file | what it is about |
|---|---|
| `Prelude.dfy` | options and bytes |
| `NorFlash.dfy` | the flash chip and the algebra of its writes and erases |
| `SpiHal.dfy` | byte-granular reads, writes and erases on a chip that takes aligned words |
| `SpiRoundTrip.dfy` | erase, write, read back |
| `OtaUpdate.dfy` | the upload server and the safety of its boot switch |
| `OtaDelivery.dfy` | progress, an obedient client, delivery over a bad network |
| `WifiControl.dfy` | the Wi-Fi state machine with its saved mode, timer and scan slot |
| `WifiSafety.dfy` | what it keeps over whole runs and restarts |
| `WifiJourneys.dfy` | where it gets to: joining, standalone, the access point, scans |
| `Device.dfy` | the upload server and the Wi-Fi machine in one device |
| `EventRing.dfy` | the ring of core events, overflow included |
| `ServiceIpc.dfy` | the message queue between core and apps, with reentrant handlers |
| `FriendRequests.dfy` | the mark-and-sweep list behind push notifications |
| `SocketWriter.dfy` | writing to a socket with bounded retries |
| `ClaimCore.dfy` | claiming the core |
| `TimeHelper.dfy`, `ButtonGpio.dfy` | time subtraction in place, and the debouncer built on it |
| `SelectLoop.dfy` | the descriptor sets of the network loop and the dispatch on them |

Each module that updates C variables is a class whose methods follow the C statements, and
each such method is proved to do what a function on values says. The properties are lemmas
about those functions, over every input, every run, or every answer the platform may give.
Platform calls (`spi_flash_*`, `esp_ota_*`, `write()`, `malloc`, file saves, the core's
callbacks) answer as they like: either the model lets them choose, or their answers are
parameters that the statements range over. SHA-256 is an arbitrary function.

## How the code is read

- `src/spiffs_integration.c:226` offsets and `:308` steps a `uint32_t *` by a number of bytes.
  `PointerStep` has both readings: `ByWord` is the code as written, `ByByte` what it is meant
  to be. The methods are proved for both. `WriteCorrectIff` and `ReadCorrectIff` say exactly when
  each one is right: as written, a read needs an aligned address, and a write through the bounce
  buffer needs at most 256 bytes of whole words. Even with byte steps a read that ends inside its
  first, partly covered word writes past the request.
- A push without an integer offset is accepted at any time (`mist_config_esp32/ota_update.c:181`).
  `DuplicateHarmlessIff` shows that the offset is what makes duplicates harmless. Delivery is
  proved for clients that send it.
- The boot property is stated at each switch of the boot partition, not as a lasting fact about
  partition contents: a later begin may reuse the partition.
- `src/time_helper.c:21-23` speaks of returning 1 for a negative difference; the code returns the
  difference in seconds. Its microseconds can be zero or a full million
  (`src/time_helper.c:37-38`).
- `src/button_gpio.c:153` speaks of ten minutes; the code waits ten seconds.
- `mist_config_esp32/claim_core.c:154` speaks of skipping the access list with `false`; the code
  asks with `true` while unclaimed and with `false` once claimed.
- A friend request that is listed and asked for again is dropped from the list when the loop over
  the response ends before its turn (`mist_config_esp32/mist_config.c:399-404`), and is then announced
  a second time: `AnnouncedAgainAfterFailure`.
- `write_to_socket` returns 0 whether or not everything was sent.

## Model

| member | source | states |
|---|---|---|
| `NorFlash.ByteAfterProgram` | src/spiffs_integration.c:259-326 | programming makes each covered byte old AND new and leaves all others alone |
| `NorFlash.PaddingIsNeutral` | src/spiffs_integration.c:267-276 | bytes of 0xff around the data of a partly covered word do not disturb its neighbours |
| `NorFlash.AdjacentWritesJoin` | src/spiffs_integration.c:259-326 | writing a and then b next to it equals writing both at once, for every split point |
| `NorFlash.WritesCommute` | src/spiffs_integration.c:259-326 | any two writes commute, also when they share words or bytes |
| `NorFlash.RetryCompletes` | src/spiffs_integration.c:259-326 | a write that failed after any prefix is completed by repeating it |
| `NorFlash.OrderDoesNotMatter` | src/spiffs_integration.c:259-326 | a list of writes has the same outcome in every order |
| `NorFlash.EraseThenWritesReadBack` | src/spiffs_integration.c:259-343 | after an erase, disjoint writes in any order leave exactly their data, 0xff between them, and the rest of the chip untouched |
| `SpiHal.MySpiWrite` | src/spiffs_integration.c:259-326 | flash becomes old AND the bytes sent, all of them on success and a prefix on failure; the bytes sent are the caller's whenever the pointer step is harmless; it fails exactly when a chip call fails, and every chip call is aligned |
| `SpiHal.WriteBounced` | src/spiffs_integration.c:289-311 | the bounce loop sends its chunks one after the other and, on a failure, a prefix of them |
| `SpiHal.WriteHead` | src/spiffs_integration.c:267-276 | the leading odd bytes land, and nothing else in their word changes |
| `SpiHal.WriteTail` | src/spiffs_integration.c:314-323 | the trailing odd bytes land, and nothing else in their word changes |
| `SpiHal.WriteCorrectIff` | src/spiffs_integration.c:278-311 | a write sends the caller's bytes for all RAM contents if and only if steps are bytes, the source is aligned, or the whole words fit one chunk |
| `SpiHal.ChunksByByte` | src/spiffs_integration.c:289-311 | with byte steps the chunks are the caller's bytes without gaps |
| `SpiHal.MySpiRead` | src/spiffs_integration.c:207-253 | every byte of the destination after a read, for both pointer readings; the flash bytes and nothing else where the read is as meant; it fails exactly when a chip call fails |
| `SpiHal.ReadCorrectIff` | src/spiffs_integration.c:217-227 | a read is right for all stack and destination contents if and only if, as written, the address is aligned, or, with byte steps, the request reaches the first word boundary |
| `SpiHal.MySpiErase` | src/spiffs_integration.c:328-343 | exactly the sectors up to the first failure are erased, a misaligned request is rounded down, and it fails exactly when a chip call fails |
| `SpiRoundTrip.ReadAfterWrites` | src/spiffs_integration.c:207-343 | after an erase and disjoint writes in any order, a read anywhere in the region, across writes, gaps and shared words, returns exactly the written bytes and 0xff between them |
| `SpiRoundTrip.WrittenSpanReadsBack` | src/spiffs_integration.c:207-343 | in particular, reading a written span returns the bytes of RAM it was written from |
| `SpiRoundTrip.EraseWriteRead` | src/spiffs_integration.c:207-343 | the three operations called on one chip succeed unless the chip fails; then each byte read is the byte of RAM written there or 0xff, and nothing outside the sectors changed |
| `OtaUpdate.Endpoint.OtaInvoke` | mist_config_esp32/ota_update.c:79-303 | reply, new state and platform calls of every invoke; the restart is taken at most once, and exactly for a begin outside the initial state |
| `OtaUpdate.Endpoint.HandleBegin` | mist_config_esp32/ota_update.c:113-175 | what a begin stores and calls, with every early exit |
| `OtaUpdate.Endpoint.HandlePush` | mist_config_esp32/ota_update.c:176-259 | what a push writes, hashes, counts and, when the image is complete, checks and switches |
| `OtaUpdate.Endpoint.OtaBuildNext` | mist_config_esp32/ota_update.c:72-77 | the block asked for starts at the offset, has at most 1024 bytes, stays inside the image, and reaches its end when it is shorter |
| `OtaUpdate.StepIsSafe` | mist_config_esp32/ota_update.c:79-303 | each invoke or power cycle keeps the server in agreement with the calls it has made |
| `OtaUpdate.BootSafety` | mist_config_esp32/ota_update.c:212-258 | in every run, each boot switch is to the partition of the current upload, after at least the announced bytes, which hash to the announced value, and at most once per begin |
| `OtaUpdate.RepliesTellThePhase` | mist_config_esp32/ota_update.c:113-285 | in every run the server's state is the one a client reads off its requests and the replies |
| `OtaUpdate.BeginDecides` | mist_config_esp32/ota_update.c:113-175 | in every run a begin starts an upload if and only if size and a 32-byte hash are there, a partition is free and the platform begins; it then asks for the first block |
| `OtaUpdate.PushDecides` | mist_config_esp32/ota_update.c:176-259 | in every run, told by the calls so far: when a push is written, refused or fails; that a complete image with the announced hash is switched to, and no other; and which answer and status it gets |
| `OtaUpdate.OthersDecide` | mist_config_esp32/ota_update.c:79-303 | in every run a reboot starts over, a resync asks again for the next block, and everything else changes nothing |
| `OtaUpdate.FinishedIff` | mist_config_esp32/ota_update.c:237-248 | a step answers ota_finish if and only if it switched the boot partition and that succeeded |
| `OtaDelivery.EveryNextAsksForData` | mist_config_esp32/ota_update.c:72-77 | with positive sizes, every ota_next of every run names a non-empty block inside the image of at most 1024 bytes |
| `OtaDelivery.FirstBlockIff` | mist_config_esp32/ota_update.c:119-162 | an accepted begin asks for data exactly when the announced size is positive |
| `OtaDelivery.UploadRuns` | mist_config_esp32/ota_update.c:176-248 | a client that answers each ota_next moves 1024 bytes a push, and the last block finishes and switches the boot partition once |
| `OtaDelivery.ObedientClientFinishes` | mist_config_esp32/ota_update.c:113-258 | it finishes with push number ceil(size/1024), not before, with the image on the handle and one switch, to the partition the begin took |
| `OtaDelivery.HonestUploadDelivers` | mist_config_esp32/ota_update.c:176-285 | under loss, duplication, reordering, resync and restarts the handle holds the front of the image up to the offset, finished means all of it, and the checksum test never fails |
| `OtaDelivery.HonestSwitchBootsTheImage` | mist_config_esp32/ota_update.c:221-248 | every boot switch then follows exactly the image |
| `OtaDelivery.SwitchFollowsAccept` | mist_config_esp32/ota_update.c:212-258 | only a push that was just accepted and completed the image switches |
| `OtaDelivery.DuplicateHarmlessIff` | mist_config_esp32/ota_update.c:179-188 | delivering an accepted push twice changes nothing if and only if it carries an offset |
| `WifiControl.Control.EventHandler` | src/wifi_control.c:67-152 | state, saved mode, timer and scan bit after every event |
| `WifiControl.Control.WifiControlPeriodic` | src/wifi_control.c:250-279 | one tick: polling for scan results, and stopping or postponing the access point |
| `WifiControl.Control.WifiInvokeListAvailable` | mist_config_esp32/mist_config.c:201-225 | answers at once, refuses, or takes the slot and starts a scan |
| `WifiControl.Control.WifiInvokeCommissioning` | mist_config_esp32/mist_config.c:226-273 | stores a mode for the two known types and restarts, or does nothing |
| `WifiSafety.ConfirmedLostIff` | src/wifi_control.c:77-116 | a confirmed network is given up in one step if and only if a commissioning invoke stores a mode |
| `WifiSafety.ConfirmedNeverLost` | src/wifi_control.c:77-116 | in every run without one it is kept, restarts included |
| `WifiSafety.FirstTimeLeftOnlyBy` | src/wifi_control.c:93-104 | the first-time mode is left only by an address arriving or by a disconnect while waiting to connect |
| `WifiSafety.ConnectedMeansConfirmedIff` | src/wifi_control.c:77-85 | connected implies confirmed after a step, unless a save fails while an address arrives |
| `WifiSafety.ConnectedIsConfirmed` | src/wifi_control.c:77-85 | so in every run whose saves succeed, connected implies that the saved mode is confirmed |
| `WifiSafety.ApNeverOverstays` | src/wifi_control.c:117-136 | in every reachable state with the access point up its timer is at most 900 seconds old |
| `WifiSafety.UpForAtMost900Ticks` | src/wifi_control.c:262-275 | it does not stay up for a 901st tick after a start, a station or a postponement |
| `WifiSafety.IdleApStopsExactly` | src/wifi_control.c:262-275 | left alone it stays up for exactly the allowed ticks and the next one stops it |
| `WifiSafety.PostponedIff` | src/wifi_control.c:264-268 | the stop is put off if and only if it is due with stations connected and an upload ongoing |
| `WifiSafety.BootIsSafe` | src/wifi_control.c:190-243 | every start, whatever the saved mode, begins unconnected, with a fresh timer and an empty scan slot; without a mode file it waits for activation |
| `WifiSafety.SlotRun` | mist_config_esp32/mist_config.c:113-154 | every run keeps the bookkeeping of the slot, the scan bit and the scans in flight |
| `WifiSafety.AnswersMatchRequests` | mist_config_esp32/mist_config.c:201-225 | since the last restart answers carry, in order, the ids of all accepted requests but the one in the slot; results never wait without a request |
| `WifiJourneys.StationIsCommissioned` | mist_config_esp32/mist_config.c:226-273 | from every state a "station" invoke leads to the first-time mode and a joining device, through ticks and restarts; then an address leads to connected and confirmed, a disconnect back to uncommissioned |
| `WifiJourneys.StandaloneIsCommissioned` | mist_config_esp32/mist_config.c:226-273 | from every state an "access-point" invoke leads to a standalone access point, which restarts keep |
| `WifiJourneys.KeepsTrying` | src/wifi_control.c:190-243 | while nothing decides it an attempt to join goes on, restarts included |
| `WifiJourneys.ConfirmedRejoins` | src/wifi_control.c:87-112 | a confirmed network is joined again after restarts and any number of failed attempts, without a restart of its own |
| `WifiJourneys.LinkLossIsRidden` | src/wifi_control.c:108-112 | a lost link changes nothing; a restart rejoins |
| `WifiJourneys.ModeAfter` | src/wifi_control.c:77-112 | the saved mode after any step: the four ways it comes to change, and only those |
| `WifiJourneys.RestartsIff` | src/wifi_control.c:87-112 | exactly which steps restart the device, and that it then starts from the saved mode |
| `WifiJourneys.ActivatedApComesUp` | src/wifi_control.c:113-125 | activation and the start event bring the access point up with a fresh timer and no stations, from waiting or stopped and from no other state |
| `WifiJourneys.TimerStartsOver` | src/wifi_control.c:126-130 | a station coming in, or a postponement, starts the time over |
| `WifiJourneys.StationsAreCounted` | src/wifi_control.c:126-136 | in every run the station count is arrivals less departures since the last restart or activation |
| `WifiJourneys.RequestDecides` | mist_config_esp32/mist_config.c:201-225 | in every run a list request is answered at once, taken, or refused, told by the requests accepted and answered so far |
| `WifiJourneys.ScanIsAnswered` | src/wifi_control.c:141-147 | a request made while connected is answered, once and with its id, by the first tick after its scan |
| `Device.ApOutlivesItsTimeOnlyForAnUpload` | src/wifi_control.c:262-275 | in every run of the whole device the access point outlives its time if and only if the upload server is missing bytes and a station is connected when it is due |
| `Device.RestartsTogether` | mist_config_esp32/ota_update.c:100-104 | a restart of either part is a restart of both and keeps the saved mode; otherwise an upload leaves Wi-Fi alone |
| `EventRing.Queue.Notify` | src/event.c:31-39 | one more event in the traffic; each slot holds its newest event, indices and count follow the totals |
| `EventRing.Queue.GetNext` | src/event.c:41-49 | the slot handed out, and that the event in it is the one the specification returns, overflow included; nothing exactly when all notified events were returned |
| `EventRing.NothingIsRefused` | src/event.c:31-49 | in every run all events are taken in as they came, and a get returns one whenever one is left |
| `EventRing.NextIsNewestInSlot` | src/event.c:41-49 | that notify is R plus whole laps of 40 |
| `EventRing.FifoIffNoOverflow` | src/event.c:31-49 | in every run of notifies and gets the events come back first in, first out if no get finds more than 40 queued, and only if, when events can be told apart |
| `EventRing.SlotStaysIntactIff` | src/event.c:31-49 | the slot handed out with c queued is intact if and only if at most 40 - c notifies followed |
| `ServiceIpc.Ipc.SendMessage` | src/port_service_ipc.c:102-184 | appends a copy of the message with its kind, app and payload if the app exists and memory allows, else nothing; two blocks live per queued event |
| `ServiceIpc.Ipc.Task` | src/port_service_ipc.c:52-81 | delivers the oldest message whatever its handler sends; accepted = delivered then queued, and live blocks are two per queued event beside leaked ones |
| `ServiceIpc.Ipc.Deliver` | src/port_service_ipc.c:62-75 | a handler's own sends go to the end of the queue and leave live blocks alone |
| `ServiceIpc.Ipc.ReleaseHead` | src/port_service_ipc.c:77-79 | unlinks and frees the delivered event and no other |
| `ServiceIpc.Ipc.TaskHasMore` | src/port_service_ipc.c:83-96 | true exactly when something accepted is undelivered |
| `ServiceIpc.EventAppended` | src/port_service_ipc.c:115-130 | an event of two new blocks joins at the end and changes no queued message |
| `ServiceIpc.HeadReleased` | src/port_service_ipc.c:77-79 | freeing the head's blocks changes no other message |
| `FriendRequests.FriendRequestList.Callback` | mist_config_esp32/mist_config.c:351-438 | the list becomes old survivors followed by new ones, and the notifications are those of the specification |
| `FriendRequests.FriendRequestList.MarkAndAppend` | mist_config_esp32/mist_config.c:367-429 | the loop over at most four requests with all its early exits |
| `FriendRequests.SweepKeeps` | mist_config_esp32/mist_config.c:431-436 | the sweep keeps the seen and the added entries in order |
| `FriendRequests.ListStaysSmall` | mist_config_esp32/mist_config.c:351-438 | whatever fails, no duplicates, at most four entries, all among the first four requests |
| `FriendRequests.SeenIff` | mist_config_esp32/mist_config.c:367-429 | a listed ruid survives if and only if a request for it comes up before the loop ends early |
| `FriendRequests.HealthyCallback` | mist_config_esp32/mist_config.c:351-438 | without failures the list is the old survivors in order, then the new online ruids in the order of the response; exactly these are announced, each with the alias of its first online request |
| `FriendRequests.CallbackExactly` | mist_config_esp32/mist_config.c:351-438 | the list and the notifications as sequences for every response: up to the first new request that cannot be allocated or has no alias, which ends the loop, and which is listed unannounced in the second case |
| `FriendRequests.KeepJoins` | mist_config_esp32/mist_config.c:431-436 | survivors keep their order |
| `FriendRequests.NotifiedAtMostOnce` | mist_config_esp32/mist_config.c:378-419 | a ruid that comes up in consecutive responses is announced at most once, and not at all if already listed, also when allocations fail or aliases are missing |
| `FriendRequests.HealthyComesUp` | mist_config_esp32/mist_config.c:378-419 | without failures every ruid present in the responses comes up |
| `FriendRequests.AnnouncedAgainAfterFailure` | mist_config_esp32/mist_config.c:399-404 | a failed allocation before its turn drops a listed ruid and has it announced again |
| `SocketWriter.WriteToSocket` | src/port_net.c:455-506 | all bytes and no close, or a proper prefix and one close, at the first error or the 41st EAGAIN in a row; at most 41 calls a byte |
| `SocketWriter.GivesUpIff` | src/port_net.c:469-487 | the connection is given up exactly at the first error, at a write of nothing, or when the last 41 results were EAGAIN |
| `SocketWriter.CallsBounded` | src/port_net.c:465-503 | retries and calls are paid for by the bytes taken |
| `ClaimCore.Claim.ClaimCoreInvoke` | mist_config_esp32/claim_core.c:229-290 | answered when claimed, refused without memory, else pending |
| `ClaimCore.Claim.PermissionsCb` | mist_config_esp32/claim_core.c:171-226 | answers the pending invoke; a grant claims, saves and closes the access list |
| `ClaimCore.Claim.LoadConfigFile` | mist_config_esp32/claim_core.c:48-105 | what is claimed after loading, and what the file holds then |
| `ClaimCore.ClaimProtocolFromBoot` | mist_config_esp32/claim_core.c:165-290 | in every run invokes = answers + pending + refusals, id by id, and the skip requests are none when booted claimed, else true and one false per grant, claimed exactly when there was one |
| `ClaimCore.ClaimedIsMonotone` | mist_config_esp32/claim_core.c:221-225 | claimed stays until a reboot, and a stored claim is never overwritten |
| `ClaimCore.SavedClaimSurvives` | mist_config_esp32/claim_core.c:48-125 | a saved claim is in force after any later boot if and only if that boot can open and read the file |
| `ClaimCore.BootReadsTheFile` | mist_config_esp32/claim_core.c:48-105 | a boot is claimed if and only if the file can be opened and read and holds true; a blank file is started with false |
| `ClaimCore.UnclaimedUntilGranted` | mist_config_esp32/claim_core.c:48-105 | from any file without a stored claim, every run without a grant ends unclaimed and claimable, through any number of reboots |
| `ClaimCore.ClaimedIffOwned` | mist_config_esp32/claim_core.c:171-226 | at any point claimed means that a pending request was granted since the last boot or that this boot read a stored claim |
| `ClaimCore.InvokeDecides` | mist_config_esp32/claim_core.c:229-290 | in every run an invoke gets the services at once exactly when the core is owned, else asks for permission or is refused for lack of memory |
| `ClaimCore.AnswerDecides` | mist_config_esp32/claim_core.c:171-226 | a grant answers with the services, claims and saves; a denial answers 1000 plus its code and changes nothing |
| `ClaimCore.TalliesAreReplies` | mist_config_esp32/claim_core.c:171-290 | the invokes counted as answered and refused are those the replies name |
| `TimeHelper.TimevalSubtract` | src/time_helper.c:24-45 | returns x - y exactly, keeps the time y stands for, microseconds of the result within a million |
| `TimeHelper.NoDrift` | src/time_helper.c:24-45 | reusing one subtrahend any number of times neither shifts it nor lets its fields grow |
| `ButtonGpio.ButtonInput.ProcessEvents` | src/button_gpio.c:99-163 | state and callbacks of a call, as if the last time stamp were never rewritten |
| `ButtonGpio.CallbacksAreDue` | src/button_gpio.c:113-163 | in every run a level change comes after more than 0.2 s without an edge, and a long press after more than 10 s with the button down and not yet reported |
| `ButtonGpio.DueCallbacksAreMade` | src/button_gpio.c:113-163 | in every run a call makes exactly the callbacks that are due, told by all edges consumed and all callbacks made so far |
| `ButtonGpio.LevelsAlternate` | src/button_gpio.c:121-138 | reported levels strictly alternate, pressed first |
| `ButtonGpio.OneLongPressPerPress` | src/button_gpio.c:153-162 | between two long presses a release was reported |
| `SelectLoop.Network.BuildSets` | src/port_main.c:97-159 | the exact sets for every configuration of server, adverts and relays, every descriptor below max_fd, and one report for each connection in use without a descriptor |
| `SelectLoop.Network.UpdateMaxFd` | src/port_main.c:81-85 | above the new descriptor and never lower |
| `SelectLoop.WaitedForOnce` | src/port_main.c:131-159 | with distinct descriptors a connection is in the write set exactly when connecting and in the read set exactly when open |
| `SelectLoop.SetsAre` | src/port_main.c:97-159 | which descriptors are in the read set and in the write set: listening sockets that are turned on, relays and connections by their state |
| `SelectLoop.Network.Dispatch` | src/port_main.c:231-327 | each ready connection is served once in the way its socket calls for, and no other; the state-inconsistency abort is not reached, and the others only on an error of the platform |
| `SelectLoop.Network.NetworkPeriodic` | src/port_main.c:87-374 | in a whole round open connections are read when readable, connecting ones are told the outcome when writable, lost ones are reported, each once; the state-inconsistency abort is not reached |

## Left out

- The SPIFFS library, its mount, format and file wrappers: thin calls into code that is not here.
- MySpiWrite: requests that wrap around the 32-bit address space, or start in its last three bytes, are excluded; so are they for MySpiRead and MySpiErase.
- MySpiWrite: a source pointer's alignment decides the path taken, but RAM alignment is not demanded of chip calls, as the bounce buffer itself has none declared.
- Bytes are eight bits each instead of a machine word, so that AND is stated bit by bit.
- OTA offsets and sizes are unbounded integers: one block would have to carry the sum past 2^31, far beyond the flash.
- A failed `esp_ota_write` is taken to have accepted nothing.
- BSON encoding and parsing: an invoke's arguments are a record of optional typed fields; an encoding error is modelled only where it decides the scan slot.
- Wi-Fi handlers, ticks and invokes are atomic steps: no interleaving of the event task with the main loop.
- Mode values outside the enumeration in the mode file, and the radio, LED and SSID calls.
- Liveness of the scan slot: a scan that ends while the station is not connected leaves its request waiting for ever.
- `SocketWriter.Connection` takes at least one byte when a write succeeds and never more than offered.
- ServiceIpc.Ipc.Malloc: addresses are never reused, and the linked list is a sequence of pointers; an event block that a failed payload allocation leaves behind is counted as leaked.
- FriendRequests.FriendRequestList.Callback: ruids are compared as a whole, while the code compares the first `WISH_UID_LEN` bytes without looking at the length; the linked list is a sequence; the notification's service name is left out.
- Short presses are modelled as the code has them, but nothing is claimed about how often they are reported: their handled flag is never set again.
- Missing button callbacks: a callback counts as made whether or not a function is set.
- Select loop: callbacks change only their own connection and give it no new descriptor, relay dispatch and accepting connections are not modelled.
- The drain loops of the periodic function: they end only if handlers stop sending.
- DNS, relay connections, socket setup, adverts, logging, uptime and identity creation.
