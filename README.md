# VISCA serial-to-IP bridge: framing, routing and address assignment

This project models the core of `companion-module-visca-serial2ip`, a module that turns VISCA
camera-control commands arriving on a serial bus into VISCA-over-IP datagrams. It has two parts.

- **`Visca` (src/visca.js)**, the `ViscaOIP` endpoint. Its `send` builds each datagram from:
  - a 2-byte message type (COMMAND `01 00`, CONTROL `02 00` or INQUIRY `01 10`);
  - the payload length as 2 bytes, big-endian;
  - a 4-byte big-endian sequence number;
  - the payload itself.

  One module-level `packet_counter` numbers the datagrams of every endpoint. When the counter
  sits at `0xFFFFFFFF`, `send` first emits the reset frame `02 00 00 01 00 00 00 00 01`, then
  restarts the counter so the data frame carries 1. `msgToString` renders bytes as hex for
  `lastCmdSent` and for the log.
- **`Bridge` (src/index.js)**, the `Visca2IpInstance`. `applyConfig` fills a sparse table of
  endpoints for ids `firstID .. firstID+devicesNumber-1`.
  - `send(msg, type)` reads the receiver nibble `header % 16`. Receiver 8 fans out to every
    endpoint and then the serial link. A populated receiver slot gets the message alone.
    Anything else goes to the serial link, if there is one.
  - `setAddress(start)` sends each configured endpoint the frame `88 30 id FF`, then sends the
    serial link the frame for the id the loop stopped at.
  - `toHex` gives the two-digit hex form of each character.

Supporting modules:
- `Bytes` holds bytes and the big-endian 16-bit and 32-bit encodings.
- `Text` holds hex digits, `Number.toString(16)`, `padStart`, `slice(-2)`, `join`, the
  ECMAScript `trim` and a parser for space-joined hex.
- `Wrappers` holds `Option`.

State that the source changes in place is modelled as classes:
- `Visca.Shared` is the module-level counter plus what the owner records: the datagrams handed
  to `udp.send` and the `lastCmdSent` variable.
- `Visca.ViscaOip` is one endpoint. All endpoints share one `Shared`.
- `Bridge.Bridge` holds the configuration, the device table, whether a serial link is
  attached, and a log of every delivery made.

Devices and the serial link are sinks. A delivery records the target, the message and the
type passed. The serial link's `send` takes no type.

Facts of the code that the model keeps:
- `setAddress` passes `visca.device_setting`, a getter `ViscaOIP` does not define. The type is
  therefore `undefined`, and `send`'s default makes the frame a COMMAND `01 00` frame.
- `ADDRESS_SET` is the 4 bytes `88 30 00 FF`.
- `this.config` is first set by `applyConfig`. Before that, `setAddress` throws on
  `this.config.firstID`; the model reports this as the outcome `ConfigFault`.
- At rollover the counter is set to 0 and then incremented, so the data frame after the reset
  frame carries sequence number 1, not 0.
- The counter is one per process, not one per endpoint. `init_udp` zeroes an unrelated
  instance field.

## Model

| member | source | states |
|---|---|---|
| Bytes.Be16 | src/visca.js:78 | `writeUInt16BE`: two bytes whose big-endian value is the length |
| Bytes.Be32 | src/visca.js:79 | `writeUInt32BE`: four bytes whose big-endian value is the counter |
| Bytes.Be16OfValue | src/visca.js:78 | two bytes read big-endian and written back are unchanged, and the value fits in 16 bits |
| Bytes.Be32OfValue | src/visca.js:79 | four bytes read big-endian and written back are unchanged, and the value fits in 32 bits |
| Text.DigitValue | src/index.js:710 | `parseInt(c, 16)` of one character is defined exactly for 0-9, a-f and A-F, and is then below 16 |
| Text.DigitRoundTrip | src/index.js:710 | parsing the lowercase digit of n < 16 gives back n |
| Text.Digit | src/visca.js:98 | the digit `toString(16)` writes for a value below 16 is 0-9 or lowercase a-f |
| Text.HexByteRoundTrip | src/visca.js:98 | the two-digit form of a byte uses lowercase hex digits only and parses back to the byte |
| Text.PaddedRadixIsHexByte | src/visca.js:98 | `toString(16).padStart(2, '0')` of a byte is its two-digit hex form |
| Text.LastTwoRadixIsLowByte | src/index.js:26 | `('0' + n.toString(16)).slice(-2)` is the two-digit hex of `n % 256`, for every n |
| Text.HexJoinLength | src/index.js:28 | n two-digit fields joined by a delimiter d take `2n + (n-1)|d|` characters |
| Text.JoinHexParts | src/index.js:24-28 | mapping bytes to two-digit fields and then `join` gives the hex-join of the bytes |
| Text.HexJoinAt | src/index.js:24-28 | field i of a hex-join holds the digits of byte i, followed by the delimiter unless it is the last field |
| Text.HexJoinEnds | src/visca.js:98 | a non-empty hex-join starts and ends with a hex digit |
| Text.ParseHexJoinRoundTrip | src/index.js:24-28 | a hex-join splits back into exactly the bytes it was made from |
| Text.TrimTrailingSpace | src/visca.js:103 | `trim` removes exactly one trailing space from text that starts and ends with non-whitespace |
| Visca.TagOf | src/visca.js:5-7 | each message type has a 2-byte tag |
| Visca.SelectedTag | src/visca.js:65-67 | the tag copied into the frame is 2 bytes; an omitted or undefined type gives COMMAND `01 00` |
| Visca.UntypedFrameIsCommand | src/visca.js:65-77 | bytes 0-1 of a frame sent without a type are `01 00` |
| Visca.TagsDistinct | src/visca.js:5-7 | COMMAND, CONTROL and INQUIRY are pairwise distinct |
| Visca.CharUnits | src/visca.js:82 | a character is one or two UTF-16 code units, each below 65536 |
| Visca.Utf16Units | src/visca.js:66 | a string's `length` is between its character count and twice that |
| Visca.NarrowUnits | src/visca.js:82 | a string whose characters are all below U+0100 has one UTF-16 code unit per character, equal to its code point |
| Visca.Latin1OfNarrowText | src/visca.js:82 | for such a string, `write(s, 8, 'binary')` writes one byte per character, equal to its code point |
| Visca.Latin1RoundTrip | src/index.js:204 | bytes read as `'latin1'` text and written back as `'binary'` are the same bytes |
| Visca.NetworkFrame | src/visca.js:66-85 | the frame is `payload.length + 8` bytes; bytes 0-1 are the tag, 2-3 the length, 4-7 the sequence number, and 8 onward the payload |
| Visca.ResetFrameIsControlFrame | src/visca.js:72-73 | the reset frame is the CONTROL frame with sequence 0 and payload `01` |
| Visca.CountsUpWithoutReset | src/visca.js:69-76 | below the limit, k sends use c+1 .. c+k and emit no reset frame |
| Visca.RolloverAfterLimit | src/visca.js:69-76 | from 0: 0xFFFFFFFF sends without a reset, then exactly one reset frame and sequence 1 |
| Visca.WireSequenceSteps | src/visca.js:76-79 | each sequence number is the previous one plus 1, or 1 right after 0xFFFFFFFF |
| Visca.WireSequenceInRange | src/visca.js:69-79 | no sequence number written is 0, and every one fits in 32 bits |
| Visca.Shared.constructor | src/visca.js:3-4 | the process starts with counter 0, nothing sent, and no last command |
| Visca.ViscaOip.constructor | src/visca.js:10-13 | an endpoint keeps its id and is bound to the shared state |
| Visca.ViscaOip.Send | src/visca.js:65-93 | counter advanced by `NextCounter`, with the reset frame first at 0xFFFFFFFF. A payload under 65536 bytes is sent as the frame carrying the new counter, and `lastCmdSent` becomes the unseparated rendering of bytes 8 onward. A longer payload aborts after the counter step, with no frame sent and `lastCmdSent` unchanged |
| Visca.FillFrame | src/visca.js:66-85 | the in-place writes into the zeroed buffer produce exactly the frame described above |
| Visca.InstancesShareOneCounter | src/visca.js:4 | two endpoints on one state number their frames 1 and 2, each with its own tag |
| Visca.MsgToString | src/visca.js:95-104 | the accumulating loop followed by `trim` yields the rendering |
| Visca.StepIsCell | src/visca.js:98-101 | one iteration appends the two digits of the byte and a space, then `\| ` exactly at indices 1, 3, 7, 15 and 23 when separating |
| Visca.CellsRun | src/visca.js:97-102 | a stretch with no separator before its last byte is written as its space-joined hex, then ` \| ` or a space after the last byte |
| Visca.CellsUnmarked | src/visca.js:97-102 | a stretch with no separator is written as space-joined hex plus one space |
| Visca.CellsBlock | src/visca.js:97-102 | a block ending at a separator index is written as its space-joined hex plus ` \| ` |
| Visca.RenderedPlain | src/visca.js:95-104 | without separators the rendering is the bytes as two-digit hex joined by single spaces, of length `3n - 1` |
| Visca.RenderedPlainRoundTrip | src/visca.js:90 | `lastCmdSent` parses back to exactly the payload bytes |
| Visca.MarksOfBlock | src/visca.js:99 | with separators on, the separator follows exactly the last byte of each block (indices 1, 3, 7, 15, 23) |
| Visca.CellsGrouped | src/visca.js:97-102 | the loop output from a block start is the grouped reference rendering plus a trailing space |
| Visca.GroupedEnds | src/visca.js:97-102 | a grouped rendering starts with a hex digit and ends with a hex digit or `\|` |
| Visca.RenderedBlocks | src/visca.js:95-104 | with separators, the rendering is blocks 0-1, 2-3, 4-7, 8-15, 16-23 and 24 onward joined by ` \| `, with a trailing ` \|` when the message ends at a block end |
| Visca.RenderedHasNoOuterWhitespace | src/visca.js:103 | the rendering has no leading or trailing whitespace, and it is empty only for an empty message |
| Bridge.ToHex | src/index.js:23-29 | `toHex` is the hex-join of the low byte of each character's first code unit, of length `2n + (n-1)|delim|` |
| Bridge.ToHexFields | src/index.js:23-29 | field i holds the two lowercase hex digits of character i, and the delimiter follows every field but the last |
| Bridge.ToHexRoundTrip | src/index.js:23-29 | `toHex` output splits back into the low bytes of the char codes |
| Bridge.ToHexOfLatin1Text | src/index.js:204 | `toHex(data.toString('latin1'))` is the hex-join of the received bytes themselves |
| Bridge.Placed | src/index.js:144 | assigning to an index of a JavaScript array sets that slot, fills the gap with holes, and leaves every other slot unchanged |
| Bridge.PlacedExtendsTable | src/index.js:143-144 | one loop step turns the table for k ids into the table for k+1 |
| Bridge.PopulatedIdsOfTable | src/index.js:720 | `forEach` over the configured table visits ids `firstID .. firstID+devicesNumber-1` in ascending order |
| Bridge.PopulatedIdsStep | src/index.js:720 | `forEach` visits one more slot in index order, adding its id when the slot is populated |
| Bridge.ReceiverOf | src/index.js:708-717 | the receiver is a nibble below 16, NaN, or missing (an empty Buffer or a non-message) |
| Bridge.ToDevicesAppend | src/index.js:720-722 | fanning out over two id lists one after the other is the two fan-outs in order |
| Bridge.BroadcastWithoutSerialFaults | src/index.js:719-723 | as written: a broadcast with no serial link reaches the devices, then throws on `this.viscaSerial.send` |
| Bridge.Route | src/index.js:707-733 | the corrected routing never faults on the serial link. It delivers exactly what the code delivers, and with a serial link it agrees with the code in every case |
| Bridge.RouteRefusals | src/index.js:708-716 | only a non-message (`Wrong message type`) or an empty Buffer (readUInt8 throws) is refused, and a refused message is delivered nowhere |
| Bridge.BroadcastRoute | src/index.js:719-723 | on receiver 8, every configured device gets the message with its type in ascending order, then the serial link if present |
| Bridge.UnicastRoute | src/index.js:725-726 | on receiver r ≠ 8 with device r configured, device r alone gets the message, and the serial link gets nothing |
| Bridge.FallbackRoute | src/index.js:728-731 | a NaN receiver, or one with no configured device, goes to the serial link alone, or nowhere if there is none |
| Bridge.DeviceDeliveryIff | src/index.js:717-727 | device i gets the message if and only if it is configured and the receiver is 8 or i |
| Bridge.SerialDeliveryIff | src/index.js:717-732 | the serial link gets the message if and only if it exists and the receiver is NaN, 8, or matches no configured device |
| Bridge.AddressSetFrame | src/index.js:739-740 | a copy of `ADDRESS_SET` with byte 2 set to the id and every other byte as in `ADDRESS_SET` |
| Bridge.AssignConfigured | src/index.js:736-743 | the loop from `start` sends `88 30 id FF` to each configured id from `max(start, firstID)` up to the bound, in ascending order |
| Bridge.AddressPlanConfigured | src/index.js:735-749 | `setAddress(start)` sends the device frames and then, if the serial link exists, `88 30 k FF` with `k = max(start, firstID+devicesNumber)` |
| Bridge.AssignmentOfThreeDevices | src/index.js:735-749 | three devices from id 1: frames carrying 1, 2 and 3 go to the devices and 4 goes to the serial link |
| Bridge.Bridge.constructor | src/index.js:47-63 | the instance starts unconfigured, with an empty device table, no serial link and an empty log |
| Bridge.Bridge.ApplyConfig | src/index.js:135-145 | `applyConfig` sets the configuration and leaves the table in which exactly the slots `firstID .. firstID+devicesNumber-1` hold the endpoint with that id. The serial link is dropped by `clearAll`, and nothing is delivered |
| Bridge.Bridge.Send | src/index.js:707-733 | the deliveries appended and the outcome are those of the corrected routing over the configured table, so `BroadcastRoute`, `UnicastRoute` and `FallbackRoute` describe them |
| Bridge.Bridge.SetAddress | src/index.js:735-749 | before `applyConfig`: the fault of reading `this.config.firstID`, nothing delivered. After it: the deliveries and outcome of the address plan over the configured table, as `AssignConfigured` and `AddressPlanConfigured` describe, including the range fault of `writeUInt8` |

## Left out

- Networking and OS I/O are not modelled: `UDPHelper`, `init_udp`, `destroy`, the serial port and the TCP pass-through server (`init_serial`, `init_tcp`, `scanForPorts`, `findPorts`, `sendError`). A datagram "sent" is a datagram appended to `Visca.Shared.outbox`.
- `doUpdateStatus`, `updateVariables`, `init_actions`, `init_variables` and `getConfigFields` are left out. They are status text, timers, the UI schema and port selection.
- The log line written under `verbose` in `ViscaOIP.send` is a side effect only and is left out. The variable update `setVariableValues({ lastCmdSent })` is the field `lastCmdSent`.
- `ViscaSerial` is not part of this model. The serial link is a sink, and whether one is attached is the field `Bridge.Bridge.hasSerial`. Nothing in src/index.js or src/visca.js attaches one, and `applyConfig` drops it through `clearAll`.
- Bridge.Bridge.Send: each device delivery is recorded as a call. The device's own framing is `Visca.ViscaOip.Send`, and the two are not composed. A device that throws (a payload of 65536 bytes or more) would end the fan-out early in the source. The model does not capture that.
- Bridge.Bridge.ApplyConfig: models only the table loop and the dropping of the serial link. The port, socket and timer fields it also sets are left out. `firstID` is taken to be a natural number, as the configuration field demands; `devicesNumber` may be any integer.
- Values JavaScript could also pass are left out: a `firstID` that is not a number, and a non-integer `start` for `setAddress`.
- Strings are `seq<char>`, and a Dafny `char` cannot hold an unpaired surrogate. Strings passed to `send` or `toHex` that contain one are not represented.
- `ViscaOIP.send` also accepts a payload that is neither a string nor a Buffer. It then leaves bytes 8 onward zero (src/visca.js:81-85). `Visca.Payload` does not represent such payloads.
- `ViscaOIP.send` sends through `self.udp` (src/visca.js:74, :92), a field of the owning instance. No code in src/index.js or src/visca.js assigns it: `init_udp` sets the endpoint's own `this.udp`. `Visca.Shared.outbox` stands for a socket that this code never creates.
- Text.TrimTrailingSpace: `trim` is modelled on the ECMAScript whitespace set but only applied to text whose inner characters are hex digits, spaces and `|`.

## Findings

| source | as written | input that shows it | evidently intended | confidence | as-written member | corrected member |
|---|---|---|---|---|---|---|
| src/index.js:719-723 | the broadcast branch calls `this.viscaSerial.send(msg)` without checking that a serial link exists | receiver 8 (e.g. the Buffer `88 01 00 01 FF`) with one device configured and no serial link: device 1 receives it, then `send` throws a TypeError | guard the serial call as the fallback branch does (src/index.js:729) | not executed | Bridge.BroadcastWithoutSerialFaults | Bridge.Route |
