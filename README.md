# Eclair scale driver, modelled in Dafny

This project models the Eclair driver of an ESP32 library that reads live
weights from a Bluetooth Low Energy coffee scale. The driver talks to the
scale's primary service. That service has a *data* characteristic, which
notifies weight and flow frames, and a *config* characteristic, which notifies
battery and timer frames and receives commands. Every frame is
`[header][payload ...][checksum]`, where the checksum is the XOR of the
payload bytes.

The project has four modules:

- `EclairMessages` (`message_type.dfy`) holds the one-byte tags of
  `EclairMessageType` and the tare header byte.
- `EclairFrames` (`frames.dfy`) holds the XOR checksum, the frame encoder,
  the little-endian `int32_t` decoding, and one pure decoder per channel
  (`DecodeData`, `DecodeConfig`). Each decoder returns what the handler does
  with the frame: accept it, reject it and why, or only log it.
- `Ble` (`ble.dfy`) is the wireless stack, reduced to an oracle. A
  `Peripheral` value says whether the link comes up, which services and
  characteristics exist, and whether each characteristic can notify.
- `Eclair` (`eclair.dfy`) holds the three UUIDs, the keep-alive timing rules
  and the class `EclairScales`. The class has the driver's fields: the link
  state, the service and characteristic handles, the subscriptions, the raw
  weight, the battery level, the last heartbeat time, and the list of frames
  written to the config characteristic. Each of its methods is proved
  against the pure functions above.

Modelling choices:

- Bytes are `bv8`.
- `millis()` is passed in as a `Uint32` argument `now`. `uint32_t`
  subtraction is written out as `Sub32`, which wraps modulo 2^32.
- The weight is stored as the raw signed 32-bit milligram count.
  `Grams(raw) = raw / 1000` is a relation over the reals; the float
  rounding is not modelled.
- A null handle is `None`.
- Each handler returns a notice naming the branch it took. This stands for
  the log line the driver writes.

The source does not agree with itself, and the model resolves it this way:

- `eclair.cpp` uses enumerators `TARE_COMMAND`, `FLOW_RATE`,
  `BATTERY_STATUS` and `TIMER_STATUS`, but `eclair.h` declares only
  `WEIGHT`, `FLOW`, `CONFIG` and `BATTERY`. The model maps flow rate to
  `Flow` (0x46), battery status to `Battery` (0x42) and timer status to
  `Config` (0x43, "Timer Start/Stop").
- No byte is declared for the tare header. It is the subset type
  `TareTag`: any byte other than the four tags. It is given to the
  constructor, so every proof holds for every such byte.
- `lastHeartbeat` and `battery` are not declared in the header. The model
  gives them `uint32_t` and `uint8_t` types and an initial value of 0.
- The initial weight, set by the base class (which is not part of this
  model), is taken as 0.

Three behaviours of the source worth noting:

- The data channel rejects frames shorter than 10 bytes; the config channel accepts frames from 3 bytes.
- Notifications are handled whatever the link state; the driver does not
  check that it is connected.
- A failed handshake releases the link but does not reset the
  `service`/`dataCharacteristic`/`configCharacteristic` fields. They keep
  the values the lookups gave them.

## Model

| member | source | states |
|---|---|---|
| `EclairMessages.DataChannelTags` | src/scales/eclair.h:12-13 | WEIGHT is 0x57 and FLOW is 0x46 |
| `EclairMessages.ConfigChannelTags` | src/scales/eclair.h:14-15 | CONFIG (timer start/stop) is 0x43 and BATTERY is 0x42 |
| `EclairMessages.TagsDistinct` | src/scales/eclair.h:11-16 | two tags have the same byte exactly when they are the same tag, so header dispatch is unambiguous |
| `EclairMessages.TareTagDistinct` | src/scales/eclair.cpp:53 | the tare header differs from every enumerated tag |
| `Eclair.EclairScales.constructor` | src/scales/eclair.h:29-31 | a new driver holds no service, data-characteristic or config-characteristic handle; it is disconnected, has no subscriptions and has written nothing |
| `Eclair.EclairScales.CalculateXor` | src/scales/eclair.cpp:165-171 | the loop returns the XOR fold of `length` bytes starting at `from`, and 0 for an empty range |
| `EclairFrames.XorConcat` | src/scales/eclair.cpp:165-171 | the checksum of a concatenation is the XOR of the checksums of its parts |
| `EclairFrames.ChecksumAppendedGivesZero` | src/scales/eclair.cpp:165-171 | appending a sequence's checksum to it gives a sequence whose checksum is 0 |
| `EclairFrames.XorOrderIndependent` | src/scales/eclair.cpp:165-171 | any two sequences holding the same bytes (as multisets) have the same checksum |
| `EclairFrames.XorUpdate` | src/scales/eclair.cpp:165-171 | replacing one byte changes the checksum by exactly the old byte XOR the new one |
| `EclairFrames.EncodeFrame` | src/scales/eclair.cpp:88-93 | the frame has length payload + 2: byte 0 is the header, then the payload unchanged, then the XOR of the payload only |
| `EclairFrames.EncodedFramePassesChecksum` | src/scales/eclair.cpp:87-93 | every encoded frame passes the receivers' test over bytes 1..length-2, and its bytes after the header XOR to 0 |
| `EclairFrames.SingleByteCorruptionDetected` | src/scales/eclair.cpp:118-125 | changing any one payload or checksum byte of a frame that passes the test makes it fail |
| `Eclair.EclairScales.SendMessage` | src/scales/eclair.cpp:87-98 | writes exactly one frame to the config characteristic, namely the encoding of the tag byte and the data |
| `Eclair.EclairScales.Tare` | src/scales/eclair.cpp:51-59 | when disconnected, returns false and writes nothing; when connected, writes exactly `[TARE, 0x01, 0x01]` and returns true |
| `EclairFrames.TareFrameLayout` | src/scales/eclair.cpp:53-55 | the tare frame is `[TARE, 0x01, 0x01]`: the checksum of the single flag byte 0x01 is 0x01 |
| `Eclair.EclairScales.NotifyCallback` | src/scales/eclair.cpp:100-110 | data-characteristic frames change only the weight, as the data decoder says; config-characteristic frames change only the battery, as the config decoder says; frames from any other characteristic change nothing |
| `Eclair.EclairScales.HandleDataNotification` | src/scales/eclair.cpp:112-137 | the branch taken is `DecodeData` of the frame, and the weight becomes the decoded weight if there is one and otherwise stays |
| `EclairFrames.DataFrameAccepted` | src/scales/eclair.cpp:112-131 | a data frame sets the weight exactly when it has length >= 10, passes the checksum and has header 0x57; the weight is then the little-endian int32 in bytes 1..4 |
| `EclairFrames.RejectedDataFrameKeepsWeight` | src/scales/eclair.cpp:112-136 | short frames, bad checksums and flow or unknown headers leave the weight unchanged; short and bad-checksum frames are classified as such, the latter with the computed and received checksums |
| `EclairFrames.WeightFrameRoundTrip` | src/scales/eclair.cpp:127-131 | a weight frame built by the encoder from any int32 and timer bytes decodes to that int32 |
| `EclairFrames.CorruptedWeightFrameRejected` | src/scales/eclair.cpp:118-125 | a weight frame with any one byte after the header altered is rejected for its checksum, and the weight is kept |
| `EclairFrames.Uint32RoundTrip` | src/scales/eclair.cpp:128-129 | the four little-endian bytes of any value below 2^32 assemble back to that value |
| `EclairFrames.Int32RoundTrip` | src/scales/eclair.cpp:128-129 | decoding the little-endian two's-complement bytes of an int32 gives it back |
| `EclairFrames.Int32BytesRoundTrip` | src/scales/eclair.cpp:128-129 | every 4 bytes are the encoding of the int32 they decode to |
| `EclairFrames.ExampleWeightFrame` | src/scales/eclair.cpp:127-131 | a well-formed weight frame carrying 12345 decodes to 12345, which is 12.345 g |
| `EclairFrames.ExampleNegativeWeightFrame` | src/scales/eclair.cpp:127-131 | a well-formed weight frame carrying -500 decodes to -500, which is -0.5 g |
| `Eclair.EclairScales.HandleConfigNotification` | src/scales/eclair.cpp:139-163 | the branch taken is `DecodeConfig` of the frame, and the battery becomes the decoded level if there is one and otherwise stays |
| `EclairFrames.ConfigFrameAccepted` | src/scales/eclair.cpp:139-157 | a config frame sets the battery exactly when it has length >= 3, passes the checksum and has header 0x42; the level is then byte 1 |
| `EclairFrames.RejectedConfigFrameKeepsBattery` | src/scales/eclair.cpp:139-162 | short frames, bad checksums and timer-status or unknown headers leave the battery unchanged |
| `EclairFrames.BatteryFrameRoundTrip` | src/scales/eclair.cpp:155-157 | an encoded battery frame sets the battery to its first payload byte |
| `EclairFrames.HeartbeatFrameIsTimerStatus` | src/scales/eclair.cpp:205-206 | the keep-alive frame is `[0x43, 0x00, 0x00]`, and the config decoder reads it as a timer status with value 0 |
| `Eclair.EclairScales.SendHeartbeat` | src/scales/eclair.cpp:195-208 | when connected and `now - lastHeartbeat` (mod 2^32) is at least 2000, writes `[0x43, 0x00, 0x00]` and sets `lastHeartbeat := now`; otherwise changes nothing |
| `Eclair.EclairScales.Update` | src/scales/eclair.cpp:47-49 | behaves exactly as one keep-alive step |
| `Eclair.WrappedDifferenceIsElapsedTime` | src/scales/eclair.cpp:200-201 | for two clock readings less than 2^32 ms apart, the wrapped difference is the true elapsed time, so the test fires exactly when 2000 ms have passed |
| `Eclair.HeartbeatsSpaced` | src/scales/eclair.cpp:195-208 | over any sequence of update times, the keep-alive schedule `HeartbeatsSent` (which `RunUpdates` writes) sends only at call times, and each is at least 2000 ms (mod 2^32) after the previous one |
| `Eclair.AtMostOneHeartbeatPerInterval` | src/scales/eclair.cpp:200-207 | in the schedule `HeartbeatsSent`, two updates less than 2000 ms apart send at most one keep-alive |
| `Eclair.NextHeartbeatAfterInterval` | src/scales/eclair.cpp:200-207 | in the schedule `HeartbeatsSent`, an update 2000 ms or more after a keep-alive sends the next one |
| `Eclair.HeartbeatAcrossWrapAround` | src/scales/eclair.cpp:201 | across the clock's wrap-around, 0x800 ms elapsed sends a keep-alive and 0x200 ms does not |
| `Eclair.LastHeartbeatIsLastSent` | src/scales/eclair.cpp:200-207 | after a run of updates the keep-alive timestamp is the time of the last keep-alive sent, or unchanged if none was sent |
| `Eclair.EclairScales.RunUpdates` | src/main.cpp:80-84 | when connected, a run of `update` calls at the given times writes exactly one `[0x43, 0x00, 0x00]` frame per time in `HeartbeatsSent` and leaves the timestamp at `LastHeartbeat`; when disconnected it writes nothing and keeps the timestamp |
| `Eclair.EclairScales.Connect` | src/scales/eclair.cpp:14-37 | if already connected, returns true and changes nothing. Otherwise it returns true exactly when the link comes up and the service and both characteristics are found, and on failure the driver is left disconnected with weight and heartbeat untouched. On success it subscribes only to characteristics that can notify, sets the weight to 0 and sets `lastHeartbeat := now` |
| `Eclair.EclairScales.PerformConnectionHandshake` | src/scales/eclair.cpp:65-85 | assigns the service looked up by its UUID. If it is found, assigns both characteristics looked up by their UUIDs. It succeeds exactly when all three are found, and otherwise releases the link |
| `Eclair.EclairScales.SubscribeToNotifications` | src/scales/eclair.cpp:173-193 | subscribes to each characteristic that can notify and skips the others |
| `Eclair.EclairScales.Disconnect` | src/scales/eclair.cpp:39-41 | always releases the link and its subscriptions |

## Left out

- Logging: `RemoteScales::log` and `byteArrayToHexString` are formatting only. The notice each handler returns records which log branch was taken.
- The float value `rawWeight / 1000.0f`: the model keeps the raw int32 and states grams as a real-valued quotient (`Grams`).
- The `waitResponse` flag of `writeValue` and the `isNotify` flag of the callback are not recorded. Writes are recorded as their bytes only.
- Whether the scale acknowledges a write: the wireless stack's link layer is an oracle, and writes cannot fail in the model.
- The internals of `clientConnect`, `clientGetService`, `getCharacteristic`, `canNotify`, `subscribe`, `writeValue`, `clientCleanup` and `clientIsConnected`. These are wireless-stack calls. They appear only as oracle results (`Peripheral`, `GetService`, `GetCharacteristic`) and as effects (`ClientConnect` raises the link; `ClientCleanup` drops the link and its subscriptions).
- A link lost on the peripheral's side is not modelled. The model's `linked` stays true after such a drop, so `Tare`, `Update` and `RunUpdates` behave as if still connected, where the source's `isConnected()` would refuse.
- Concurrency: `notifyCallback` can run alongside the polling loop. Each notification is modelled as one sequential step.
- `setWeight` also notifies the host's weight callback. That callback belongs to the base class, which is not part of this model.
- `src/main.cpp` is the Arduino harness (serial output, scanning, a 20 s scan timeout, the 1 s `delay` between passes). Only its polling loop is modelled (`RunUpdates`), with the call times as a parameter.
- `registerPlugin`, `containsPluginForDevice`, `initialiseRemoteScales`, `EclairScalesPlugin::handles` and `apply` are only declared in the modelled headers, so plugin selection is not modelled.
- `isConnected` and the weight accessor are plain reads of `linked` and `rawWeight` (`IsConnected`, `WeightGrams`). They have no contract of their own.
