# Heat-pump demo firmware: application logic

This project models the application core of the heat-pump demo firmware
(`demo/firmware/src/app.c`). Three things are modelled.

The first is the uNabto query handler `application_event`:
- It forwards the pairing block of query ids (11000–11999) to the ACL module's dispatcher.
- It answers the seven queries of the heat-pump interface: interface info, public device info, set device name, full state, and the three setters.
- The gated queries check the ACL before touching anything.

The second is the handler's helpers `copy_buffer`, `copy_string` and `write_string`, together with `allow_client_access`.

The third is the application's module-level statics and the code that updates them:
- the power, mode, target and room temperature, and the 50-byte device-name buffer;
- `demo_init`, which names the device;
- `demo_application_tick`, the room-temperature simulation that moves the room one degree toward the target once every 60001 ticks;
- `APP_Initialize` and the `APP_Tasks` state machine, which waits for the TCP/IP stack, then formats the device id from the MAC address into `idBuffer` and starts the demo, then serves for ever.

The model has six modules:

- `Codec`: the query buffers.
  - The request is a cursor over the received bytes (`Request`, with `ReadU8`, `ReadU32` and `ReadList`).
  - The response is an append-only buffer of fixed capacity (`Response.Write`).
  - Both are pure specifications (`TakeU8`, `TakeU32`, `TakeList`, `Encode`, and the `Writes` chain of successive writes that stops at the first that does not fit).
  - It also holds `strlen` as `CStrLen` and `CStr`.
- `Acl`: the questions the application asks the fingerprint ACL library. The answers about one request or connection are carried as data, and `allow_client_access` is a function of them.
- `HeatPumpState`: the statics as a value (`DeviceState`), their initial values, the default name, the tick of the simulation, and the text it puts on the temperature label.
- `Queries`: what `application_event` does with one request, as pure functions.
  - Each handler returns an `Outcome`: the status, the new state, the request bytes consumed, the response bytes appended and the LED value.
  - `copy_buffer` and `copy_string` are specified here as well.
  - The lemmas state what the handlers promise: routing, authorization before anything else, response layouts that decode back, and echoes.
- `Firmware`: the statics as a class `Device` whose methods update them in place.
  - `ApplicationEvent` and its per-query `Answer…` methods, `DemoInit` and `ApplicationTick` are each proved to produce exactly the state and output the `Queries`/`HeatPumpState` functions describe.
  - It also holds `CopyBuffer` and `CopyString` over an `array<byte>`, and `WriteString`.
- `Lifecycle`: `appData` and `idBuffer` as a class `App` with `Tasks`, proved against the step function `Next` and the device's step `DeviceAfter`. It also holds the id format `%02x%02x%02x%s` and its properties.

The library's wire layout is not part of this model: `unabto_query_read_*` and `unabto_query_write_*` live in the uNabto library. Here they are fixed as follows:
- integers are big-endian;
- a byte list is preceded by a 16-bit length;
- every read and every write is all-or-nothing.

The properties proved do not depend on the byte order. They do depend on the all-or-nothing behaviour, and on the 16-bit list prefix:
- a list field takes two bytes more than its contents (`Size`, `Encode`);
- `TakeList` reads the bytes after a 2-byte prefix, and so do `CopyBufferSpec`, `CopyStringSpec` and the lemmas about them;
- the response sizes in the layout lemmas (`InterfaceInfoLayout`, `PublicDeviceInfoLayout`, `DeviceNameStored`) and the 65535-byte limit of `WriteString` follow from it.

Three behaviours of the code are worth knowing:
- `copy_string` *rejects* a name of 50 bytes or more with TooLarge; it does not truncate it. TooLarge is a status of its own, alongside TooSmall, RspTooLarge, NoAccess and InvQueryId.
- The echo of `set_device_info` is the buffer's string up to its first NUL (`strlen`), not the bytes received.
- The setters store the value they read *before* writing the echo, so a response that does not fit still leaves the state changed (`Queries.EchoOverflowKeepsUpdate`).

## Model

| member | source | states |
|---|---|---|
| Codec.DecodeEncodeU16 | demo/firmware/src/app.c:315-316 | a 16-bit field written to the response reads back as the same value |
| Codec.EncodeDecodeU16 | demo/firmware/src/app.c:315-316 | every two bytes are the encoding of the value they decode to |
| Codec.DecodeEncodeU32 | demo/firmware/src/app.c:344-346 | a 32-bit field written to the response reads back as the same value |
| Codec.EncodeDecodeU32 | demo/firmware/src/app.c:364-365 | every four bytes are the encoding of the value they decode to, so the setters' echo is the bytes received |
| Codec.Encode | demo/firmware/src/app.c:314-316 | a field's encoding is exactly its size: 1, 2 or 4 bytes, or the list plus its 2-byte length |
| Codec.TakeU8 | demo/firmware/src/app.c:353 | a byte read succeeds exactly when a byte remains, and consumes exactly that byte's encoding |
| Codec.TakeU32 | demo/firmware/src/app.c:364 | a 32-bit read succeeds exactly when four bytes remain |
| Codec.TakeList | demo/firmware/src/app.c:250 | a list read fails without its 2-byte prefix; when it succeeds it stays inside the request and yields the bytes after the prefix |
| Codec.TakeU8Encoded | demo/firmware/src/app.c:353-354 | reading a byte from an encoded byte field gives that byte, whatever follows |
| Codec.TakeU32Encoded | demo/firmware/src/app.c:373-374 | reading 32 bits from an encoded 32-bit field gives that value, whatever follows |
| Codec.TakeListEncoded | demo/firmware/src/app.c:250 | reading a byte list from an encoded list gives exactly the list, whatever follows |
| Codec.TakeListPrefix | demo/firmware/src/app.c:250 | a list read that succeeds is unaffected by bytes appended after it |
| Codec.TakeU32Exact | demo/firmware/src/app.c:364 | a successful 32-bit read consumed exactly the encoding of the value read |
| Codec.TakeListExact | demo/firmware/src/app.c:250 | a successful list read consumed exactly the length prefix and the list |
| Codec.Writes.Then | demo/firmware/src/app.c:314-316 | a write in a chain appends its field if it fits and nothing otherwise; after a failure nothing more is appended; bytes written plus room left is constant |
| Codec.CStrLen | demo/firmware/src/app.c:272 | strlen is at most the buffer length, and the byte it stops at is a NUL |
| Codec.CStrLenFirstNul | demo/firmware/src/app.c:272 | no byte before the strlen position is a NUL |
| Codec.CStrLenAtMost | demo/firmware/src/app.c:266 | strlen stops at or before any NUL in the buffer |
| Codec.CStr | demo/firmware/src/app.c:272 | the C string a buffer holds contains no NUL |
| Codec.CStrOfTerminated | demo/firmware/src/app.c:266 | bytes followed by a terminator hold the string of those bytes, whatever comes after; NUL-free bytes are their own string |
| Codec.Request.constructor | demo/firmware/src/app.c:291 | a request buffer starts with its cursor at the first byte |
| Codec.Request.ReadU8 | demo/firmware/src/app.c:353 | succeeds exactly when a byte remains, returns it and advances by one; on failure the cursor stays |
| Codec.Request.ReadU32 | demo/firmware/src/app.c:364 | succeeds exactly when four bytes remain, returns their value and advances by four; on failure the cursor stays |
| Codec.Request.ReadList | demo/firmware/src/app.c:250 | succeeds exactly when a whole list remains, returns it and advances past it; on failure the cursor stays |
| Codec.Request.Skip | demo/firmware/src/app.c:305 | the pairing dispatcher's reads advance the cursor by the bytes it consumed |
| Codec.Response.WriteBytes | demo/firmware/src/app.c:305 | the pairing dispatcher's writes append its bytes within the room left |
| Codec.Response.constructor | demo/firmware/src/app.c:291 | a response buffer starts empty with its whole capacity free |
| Codec.Response.Write | demo/firmware/src/app.c:314 | succeeds exactly when the field fits the room left, then appends its encoding and uses that room; otherwise changes nothing |
| Acl.AllowClientAccess | demo/firmware/src/app.c:275-281 | a local client is always let in; a remote one exactly when the ACL allows the connection |
| HeatPumpState.Initial | demo/firmware/src/app.c:85-162 | power 1, mode HEAT, target 23, room 19, an all-zero (empty, terminated) name buffer and a tick counter of 0 |
| HeatPumpState.InterfaceIdText | demo/firmware/src/app.c:96 | the interface id is a NUL-free string of 36 characters |
| HeatPumpState.ProductText | demo/firmware/src/app.c:94 | the product is a NUL-free string of 18 characters |
| HeatPumpState.IconText | demo/firmware/src/app.c:95 | the icon is a NUL-free string of 14 characters |
| HeatPumpState.DefaultNameText | demo/firmware/src/app.c:90 | the default name is a NUL-free string of 12 characters |
| HeatPumpState.WithDefaultName | demo/firmware/src/app.c:155 | after the snprintf the buffer's string is "AMP Heat App", the bytes past its terminator are untouched, and nothing else changes |
| HeatPumpState.ToU32 | demo/firmware/src/app.c:345-346 | the (uint32_t) cast gives the 32-bit pattern congruent to the temperature, the temperature itself when not negative |
| HeatPumpState.FromU32 | demo/firmware/src/app.c:364 | reading 32 bits as int32_t gives the signed value congruent to them, negative exactly when the top bit is set |
| HeatPumpState.FromToU32 | demo/firmware/src/app.c:345-346 | the uint32 view of a signed temperature converts back to the same temperature |
| HeatPumpState.ToFromU32 | demo/firmware/src/app.c:364-365 | storing 32 bits in the signed target and casting back gives the same 32 bits |
| HeatPumpState.Drift | demo/firmware/src/app.c:164-168 | one adjustment moves the room at most one degree, toward the target, never past it, and not at all once it is reached |
| HeatPumpState.Tick | demo/firmware/src/app.c:161-179 | the room changes only when the counter has passed 60000; nothing but the room and the counter changes |
| HeatPumpState.QuietTicks | demo/firmware/src/app.c:163-178 | while the counter stays at or below 60001, ticks only count |
| HeatPumpState.TickPeriod | demo/firmware/src/app.c:163-178 | after an adjustment the room stays put for 60000 ticks and is adjusted again on tick 60001 |
| HeatPumpState.FirstAdjustment | demo/firmware/src/app.c:162-178 | from the initial counter, the first adjustment happens on tick 60002 |
| HeatPumpState.DriftsConverge | demo/firmware/src/app.c:164-168 | repeated adjustments close the distance to the target by one each time, down to zero, without overshooting |
| HeatPumpState.DriftsMonotone | demo/firmware/src/app.c:164-168 | the room temperature moves monotonically toward the target |
| HeatPumpState.DefaultWarmUp | demo/firmware/src/app.c:87-88 | from 19 degrees with target 23 the room reaches 23 after four adjustments and stays there |
| HeatPumpState.Decimal | demo/firmware/src/app.c:173 | %u prints at least one decimal digit and nothing else |
| HeatPumpState.DecimalRoundTrip | demo/firmware/src/app.c:173 | the digits %u prints read back as the value printed |
| HeatPumpState.DecimalShort | demo/firmware/src/app.c:173 | a value below 10^k prints in at most k digits |
| HeatPumpState.DecimalLong | demo/firmware/src/app.c:173 | a value of at least 10^k prints in more than k digits |
| HeatPumpState.NumberBufferOverflows | demo/firmware/src/app.c:172-173 | for every room temperature of 10 or more, and every negative one, the %u text and its terminator exceed the two-byte buffer |
| HeatPumpState.RoomLabel | demo/firmware/src/app.c:172-175 | the label text fits an 11-byte buffer with its terminator and reads back as the temperature's 32-bit value |
| Queries.CopyBufferSpec | demo/firmware/src/app.c:248-258 | TooSmall exactly when no list can be read, TooLarge exactly when it is longer than the buffer size, otherwise the list is copied to the front of the buffer; the length read is reported on TooLarge and success; the buffer is unchanged on error and past the size always |
| Queries.CopyStringSpec | demo/firmware/src/app.c:260-268 | as copy_buffer with one byte kept for the terminator: a string of destSize bytes or more is TooLarge; on success the bytes are followed by a NUL and the rest is kept |
| Queries.GetInterfaceInfo | demo/firmware/src/app.c:312-318 | case 0 reads nothing, changes nothing, signals no LED, answers ResponseReady or RspTooLarge and writes within the room |
| Queries.GetPublicDeviceInfo | demo/firmware/src/app.c:320-329 | case 10000 reads nothing, changes nothing, signals no LED, answers ResponseReady or RspTooLarge and writes within the room |
| Queries.GetFullState | demo/firmware/src/app.c:340-348 | case 20000 is NoAccess exactly when the guest check fails, otherwise ResponseReady or RspTooLarge; it reads and changes nothing |
| Queries.SetActivationState | demo/firmware/src/app.c:350-359 | case 20010 is NoAccess exactly when the guest check fails, TooSmall exactly when no byte remains; only the power may change; the LED is signalled exactly on ResponseReady |
| Queries.SetTargetTemperature | demo/firmware/src/app.c:361-368 | case 20020 is NoAccess exactly when the guest check fails, TooSmall exactly when fewer than four bytes remain; only the target may change; the LED is signalled exactly on ResponseReady |
| Queries.SetMode | demo/firmware/src/app.c:370-376 | case 20030 is NoAccess exactly when the guest check fails, TooSmall exactly when fewer than four bytes remain; only the mode may change; no LED |
| Queries.SetDeviceInfo | demo/firmware/src/app.c:331-338 | the name buffer stays terminated after any set_device_info |
| Queries.Dispatch | demo/firmware/src/app.c:291-384 | whatever the request, the handler reads no more than the request holds and writes no more than the response's room (for ids 11000–11999, given the pairing dispatcher keeps those bounds), keeps the name terminated and leaves the simulation alone |
| Queries.PairingQueriesForwarded | demo/firmware/src/app.c:303-309 | ids 11000–11999 get the pairing dispatcher's status, reads and writes unchanged, and the device state is not touched |
| Queries.UnknownQueriesRejected | demo/firmware/src/app.c:378-383 | any other id without a handler is InvQueryId with nothing read, written or changed |
| Queries.DeniedBeforeAnything | demo/firmware/src/app.c:331-376 | a gated query whose ACL check fails is NoAccess before any read, write or change, and repeating it changes nothing |
| Queries.GatedQueries | demo/firmware/src/app.c:333-372 | set_device_info alone needs owner; full state and the three setters need guest; every gated id has a handler |
| Queries.PublicQueriesUngated | demo/firmware/src/app.c:312-329 | interface info and public device info answer the same whatever the permission checks say |
| Queries.InterfaceInfoLayout | demo/firmware/src/app.c:312-318 | answers the interface id and version 1.0 exactly when they fit, RspTooLarge otherwise, and changes nothing |
| Queries.PublicDeviceInfoLayout | demo/firmware/src/app.c:320-329 | answers name, product, icon and the three ACL flags exactly when they fit, RspTooLarge otherwise, and changes nothing |
| Queries.PublicDeviceInfoName | demo/firmware/src/app.c:322 | a client reading the public device info gets the name buffer's string as its first field |
| Queries.FullStateFrameDecodes | demo/firmware/src/app.c:343-346 | the full-state answer is 13 bytes from which a client reads back power, mode and both signed temperatures |
| Queries.FullStateLayout | demo/firmware/src/app.c:340-348 | answers the full-state frame exactly when 13 bytes fit, RspTooLarge otherwise, and changes nothing |
| Queries.FreshFullState | demo/firmware/src/app.c:85-88 | with the initial statics a full-state read answers power 1, mode HEAT, target 23, room 19 |
| Queries.DeviceNameRejected | demo/firmware/src/app.c:333-335 | a truncated request is TooSmall and a name of 50 bytes or more is TooLarge; either way the name and the response are untouched |
| Queries.DeviceNameStored | demo/firmware/src/app.c:331-338 | a name that fits is stored with its terminator and the rest of the buffer kept; the echo is the stored string when it fits, RspTooLarge with nothing written otherwise, and a NUL-free name reads back exactly |
| Queries.ActivationStateEcho | demo/firmware/src/app.c:350-359 | a missing byte is TooSmall with nothing changed; otherwise the byte becomes the power, and it is echoed and sent to the LED exactly when one byte fits, RspTooLarge with nothing written or signalled otherwise |
| Queries.TargetTemperatureEcho | demo/firmware/src/app.c:361-368 | fewer than four bytes is TooSmall with nothing changed; otherwise the 32 bits become the signed target, and the echo is the bytes received exactly when four bytes fit, RspTooLarge with nothing written otherwise |
| Queries.ModeEcho | demo/firmware/src/app.c:370-376 | fewer than four bytes is TooSmall with nothing changed; otherwise the 32 bits become the mode, and the echo is the bytes received exactly when four bytes fit, RspTooLarge with nothing written otherwise |
| Queries.ModeNotRangeChecked | demo/firmware/src/app.c:373 | a mode outside the four known ones (7) is stored as it is |
| Queries.EchoOverflowKeepsUpdate | demo/firmware/src/app.c:350-376 | for each of the three setters, with less room than its echo: RspTooLarge, nothing written, no LED, yet the same new state as when the echo fits |
| Firmware.CopyBuffer | demo/firmware/src/app.c:248-258 | status, cursor, destination array and, unless the read failed, the length are exactly those of CopyBufferSpec |
| Firmware.CopyString | demo/firmware/src/app.c:260-268 | status, cursor and destination array are exactly those of CopyStringSpec |
| Firmware.WriteString | demo/firmware/src/app.c:271-273 | writes the buffer's string up to its first NUL as a byte list, exactly when it fits |
| Firmware.WriteText | demo/firmware/src/app.c:314 | write_string of a literal writes the literal's bytes, exactly when they fit |
| Firmware.Device.constructor | demo/firmware/src/app.c:85-98 | the statics start as Initial() |
| Firmware.Device.DemoInit | demo/firmware/src/app.c:155-157 | the name buffer becomes WithDefaultName of the old state, and the LED gets the power |
| Firmware.Device.ApplicationTick | demo/firmware/src/app.c:161-179 | the statics become Tick of the old ones; the label text is shown exactly when the room is adjusted |
| Firmware.Device.AnswerInterfaceInfo | demo/firmware/src/app.c:312-318 | status and bytes appended are those of GetInterfaceInfo |
| Firmware.Device.WritePublicStrings | demo/firmware/src/app.c:322-324 | the three string writes append and stop exactly as the PublicStrings chain does |
| Firmware.Device.AnswerPublicDeviceInfo | demo/firmware/src/app.c:320-329 | status and bytes appended are those of GetPublicDeviceInfo |
| Firmware.Device.AnswerSetDeviceInfo | demo/firmware/src/app.c:331-338 | status, new statics, cursor and bytes appended are those of SetDeviceInfo |
| Firmware.Device.AnswerFullState | demo/firmware/src/app.c:340-348 | status and bytes appended are those of GetFullState |
| Firmware.Device.AnswerSetActivationState | demo/firmware/src/app.c:350-359 | status, new statics, cursor, bytes appended and LED value are those of SetActivationState |
| Firmware.Device.AnswerSetTargetTemperature | demo/firmware/src/app.c:361-368 | status, new statics, cursor, bytes appended and LED value are those of SetTargetTemperature |
| Firmware.Device.AnswerSetMode | demo/firmware/src/app.c:370-376 | status, new statics, cursor and bytes appended are those of SetMode |
| Firmware.Device.ApplicationEvent | demo/firmware/src/app.c:291-384 | status, new statics, cursor, bytes appended and LED value are exactly those of Dispatch, the pairing dispatcher's reads and writes included |
| Lifecycle.Next | demo/firmware/src/app.c:189-246 | a step never goes back; INIT advances exactly when the stack is ready, INIT_UNABTO exactly when a MAC is present and unabto_init succeeds; serving is final |
| Lifecycle.DeviceAfter | demo/firmware/src/app.c:204-237 | waiting steps leave the statics alone; the start-up step names the device and then ticks (the case falls through); serving steps tick |
| Lifecycle.LedAfter | demo/firmware/src/app.c:228 | the LED is set exactly on the start-up step, to the power |
| Lifecycle.RunMovesForward | demo/firmware/src/app.c:189-246 | over any run, start-up only moves forward and never returns to INIT |
| Lifecycle.ServingTicks | demo/firmware/src/app.c:232-237 | once serving, n calls are n ticks of the simulation, whatever the platform answers |
| Lifecycle.StartUp | demo/firmware/src/app.c:224-235 | a successful start-up step serves from then on, names the device "AMP Heat App" and ticks once |
| Lifecycle.HexDigit | demo/firmware/src/app.c:216 | a hexadecimal digit is never a NUL |
| Lifecycle.HexDigitRoundTrip | demo/firmware/src/app.c:216 | a printed hexadecimal digit reads back as its value, and only that digit reads as it |
| Lifecycle.Hex2 | demo/firmware/src/app.c:216 | %02x prints two NUL-free characters |
| Lifecycle.Hex2RoundTrip | demo/firmware/src/app.c:216 | the two characters %02x prints read back as the byte |
| Lifecycle.DeviceId | demo/firmware/src/app.c:216 | the id is six characters longer than the suffix |
| Lifecycle.SuffixText | demo/firmware/src/app.c:107 | the suffix is a NUL-free string of 23 characters |
| Lifecycle.DeviceIdFields | demo/firmware/src/app.c:215-216 | the id holds no NUL, fits the 64-byte idBuffer with its terminator, ends in the suffix, and its six hex digits read back as the last three MAC bytes |
| Lifecycle.DeviceIdInjective | demo/firmware/src/app.c:216 | two MAC addresses give the same id exactly when their last three bytes agree |
| Lifecycle.IdBuffer | demo/firmware/src/app.c:215-216 | after the memset and sprintf the 64-byte buffer holds the id as its C string |
| Lifecycle.App.constructor | demo/firmware/src/app.c:182-187 | APP_Initialize: state INIT, statics as initialised, idBuffer all zero |
| Lifecycle.App.FormatId | demo/firmware/src/app.c:215-216 | idBuffer becomes IdBuffer of the MAC address |
| Lifecycle.App.Tasks | demo/firmware/src/app.c:189-246 | the new state, statics and LED value are those of Next, DeviceAfter and LedAfter; idBuffer is formatted exactly when INIT_UNABTO finds a MAC |

## Left out

- The uNabto library's query codec is not part of this model. Its byte order and list prefix are fixed here as big-endian and 16 bits. The properties above hold whatever the byte order, given all-or-nothing reads and writes; those that involve byte lists also rely on the 16-bit prefix, as listed above.
- The fingerprint ACL library is not part of this model. This covers `fp_acl_is_request_allowed`, `fp_acl_is_connection_allowed`, the pairing and owner predicates, persistence and `debug_dump_acl`. Their answers are inputs. So the rule that a local guest is always allowed is not derived here: it belongs to that library.
- `fp_acl_ae_dispatch` (the pairing block) is not part of this model. What it does is an input: its status, the request bytes it consumes and the response bytes it writes. That it reads no more than the request holds and writes no more than the room left is assumed of the library (`PairingWithinBounds`), not proved.
- `demo_init`'s ACL set-up (`fp_acl_file_init`, `fp_mem_init`, `fp_acl_ae_init`) and its `exit(1)` when the ACL file cannot be loaded are not modelled, because they are the ACL library's persistence.
- The display calls of `demo_application_tick` (`laString_*`, `laLabelWidget_SetText`) are not modelled, because they are UI. The text handed to them is modelled, as `RoomLabel`.
- `setLed`/`readLed` are hardware. The value the code passes to `setLed(1, …)` is an output of the model.
- `unabto_udp_debug_init`, `unabto_init_context`, the crypto settings of `nms`, `unabto_tick` and the TCP/IP stack calls are not modelled: they are network and crypto set-up. What `APP_Tasks` learns from the platform is an `Environment` input.
- Logging (`NABTO_LOG_*`) is not modelled, because it has no effect on state.
- The `default` case of `APP_Tasks` is not modelled: `appData.state` only ever holds the three states, so it cannot run.
- `app.h` (`APP_DATA`, the state enum) and `sysObj` are not part of this model. The state enum is the datatype `AppState`.
- Firmware.CopyString: requires `destSize >= 1`. In the code, `destSize - 1` wraps to 65535 for a size of 0; the only caller passes 50.
- Firmware.CopyBuffer: requires the destination to hold `bufSize` bytes. The code trusts its caller for this.
- Firmware.WriteString: requires the buffer to hold a NUL, which is what `strlen` needs. It also requires a string of at most 65535 bytes, because of the list's 16-bit length.

## Findings

| source | as written | input that shows it | evidently intended | confidence | as-written member | corrected member |
|---|---|---|---|---|---|---|
| demo/firmware/src/app.c:172-173 | the room temperature is printed with `%u` into `char number[2]` | room 19, the initial value, adjusted to 20: "20" plus its terminator is 3 bytes, written into a 2-byte buffer; a negative temperature prints 10 digits | a buffer that holds the text of any 32-bit value with its terminator (11 bytes) | high, not executed | HeatPumpState.NumberBufferOverflows | HeatPumpState.RoomLabel |
