/**
 * The routing core of `Visca2IpInstance` in src/index.js: the device table `applyConfig` builds,
 * the receiver-nibble routing of `send`, the address assignment of `setAddress`, and `toHex`.
 * Devices and the serial link are sinks that record what they are given; what a device does with
 * a message is `Visca.ViscaOip.Send`.
 */
module Bridge {
  import opened Wrappers
  import opened Bytes
  import opened Text
  import Visca

  // ---------------------------------------------------------------------------------------------
  // toHex

  /** `c.charCodeAt(0)` for one element of `[...data]`: the first UTF-16 code unit of the code point. */
  function CharCode(c: char): nat {
    Visca.CharUnits(c)[0]
  }

  /** The byte whose two digits `toHex` writes for a character: the low eight bits of its char code. */
  function CharCodeBytes(data: string): (b: seq<Byte>)
    ensures |b| == |data|
  {
    seq(|data|, i requires 0 <= i < |data| => (CharCode(data[i]) % 256) as Byte)
  }

  /** `('0' + Number(c.charCodeAt(0)).toString(16)).slice(-2)` for each character. */
  function CharHexes(data: string): seq<string> {
    seq(|data|, i requires 0 <= i < |data| => LastTwo("0" + Radix16(CharCode(data[i]))))
  }

  /**
   * `toHex(data, delim)`: the map/join of src/index.js. It is the two-digit lowercase hex of the
   * low byte of each char code, joined by `delim`: `2n + (n - 1) * |delim|` characters for n > 0.
   */
  function ToHex(data: string, delim: string): (r: string)
    ensures r == HexJoin(CharCodeBytes(data), delim)
    ensures |r| == if |data| == 0 then 0 else 2 * |data| + (|data| - 1) * |delim|
  {
    var bytes := CharCodeBytes(data);
    assert CharHexes(data) == HexParts(bytes) by {
      forall i | 0 <= i < |data|
        ensures CharHexes(data)[i] == HexParts(bytes)[i]
      {
        LastTwoRadixIsLowByte(CharCode(data[i]));
      }
    }
    JoinHexParts(bytes, delim);
    HexJoinLength(bytes, delim);
    Join(CharHexes(data), delim)
  }

  /** Field `i` of `toHex` output holds the two digits of character `i`, and `delim` follows all but the last. */
  lemma ToHexFields(data: string, delim: string, i: nat)
    requires i < |data|
    ensures var r, o := ToHex(data, delim), FieldStart(i, 2 + |delim|);
            o + 2 <= |r| && r[o..o + 2] == HexByte((CharCode(data[i]) % 256) as Byte) &&
            (i + 1 < |data| ==> o + 2 + |delim| <= |r| && r[o + 2..o + 2 + |delim|] == delim)
  {
    HexJoinAt(CharCodeBytes(data), delim, i);
  }

  /** `toHex` output reads back to the low bytes of the char codes it was made from. */
  lemma ToHexRoundTrip(data: string, delim: string)
    ensures ParseHexJoin(ToHex(data, delim), delim) == Some(CharCodeBytes(data))
  {
    ParseHexJoinRoundTrip(CharCodeBytes(data), delim);
  }

  /** Serial data logged as `toHex(data.toString('latin1'))` shows exactly the received bytes, two digits each. */
  lemma ToHexOfLatin1Text(b: seq<Byte>, delim: string)
    ensures ToHex(Visca.Latin1Text(b), delim) == HexJoin(b, delim)
  {
    var t := Visca.Latin1Text(b);
    assert CharCodeBytes(t) == b by {
      forall i | 0 <= i < |b|
        ensures CharCodeBytes(t)[i] == b[i]
      {
        assert CharCode(t[i]) == b[i] as int;
      }
    }
  }

  // ---------------------------------------------------------------------------------------------
  // The device table

  /** A `ViscaOIP` instance in the table, known by the id it was constructed with. */
  datatype Device = Device(id: nat)

  /** `slots[i] = Some(d)` on a JavaScript array: an index past the end leaves holes up to it. */
  function Placed(slots: seq<Option<Device>>, i: nat, d: Device): (r: seq<Option<Device>>)
    ensures |r| == if i < |slots| then |slots| else i + 1
    ensures r[i] == Some(d) && forall j :: 0 <= j < |r| && j != i ==> r[j] == (if j < |slots| then slots[j] else None)
  {
    if i < |slots| then slots[i := Some(d)] else slots + seq(i - |slots|, _ => None) + [Some(d)]
  }

  /** The table `applyConfig` leaves: slot i holds the instance with id i for firstID <= i < firstID + devicesNumber. */
  function ConfiguredTable(firstId: nat, count: int): seq<Option<Device>> {
    seq(if count > 0 then firstId + count else 0, i => if firstId <= i then Some(Device(i)) else None)
  }

  /** Placing the next instance extends the table by one id. */
  lemma PlacedExtendsTable(firstId: nat, k: nat)
    ensures Placed(ConfiguredTable(firstId, k), firstId + k, Device(firstId + k)) == ConfiguredTable(firstId, k + 1)
  {
  }

  /** The slot `viscaOIP[r]` reads; a negative or missing index is undefined. */
  function SlotAt(slots: seq<Option<Device>>, r: int): Option<Device> {
    if 0 <= r < |slots| then slots[r] else None
  }

  /** The ids `forEach` visits: the populated slots in ascending index order. */
  function PopulatedIds(slots: seq<Option<Device>>): seq<nat>
    decreases |slots|
  {
    if |slots| == 0 then []
    else PopulatedIds(slots[..|slots| - 1]) + (match slots[|slots| - 1] case Some(d) => [d.id] case None => [])
  }

  /** One more slot visited by `forEach`: its id, if it is populated, comes after the earlier ones. */
  lemma PopulatedIdsStep(slots: seq<Option<Device>>, i: nat)
    requires i < |slots|
    ensures PopulatedIds(slots[..i + 1]) == PopulatedIds(slots[..i]) + (match slots[i] case Some(d) => [d.id] case None => [])
  {
    assert slots[..i + 1][..i] == slots[..i];
  }

  /** The integers lo .. hi-1 in ascending order. */
  function Interval(lo: nat, hi: int): seq<nat> {
    seq(if hi > lo then hi - lo else 0, j => lo + j)
  }

  lemma {:induction false} PopulatedPrefix(firstId: nat, count: int, n: nat)
    requires n <= |ConfiguredTable(firstId, count)|
    ensures PopulatedIds(ConfiguredTable(firstId, count)[..n]) == Interval(firstId, n)
  {
    var t := ConfiguredTable(firstId, count);
    if n > 0 {
      PopulatedPrefix(firstId, count, n - 1);
      assert t[..n][..n - 1] == t[..n - 1];
      assert t[..n][n - 1] == t[n - 1];
    }
  }

  /** `forEach` over the configured table visits ids firstID .. firstID+devicesNumber-1 in order. */
  lemma PopulatedIdsOfTable(firstId: nat, count: int)
    ensures PopulatedIds(ConfiguredTable(firstId, count)) == Interval(firstId, firstId + count)
  {
    var t := ConfiguredTable(firstId, count);
    PopulatedPrefix(firstId, count, |t|);
    assert t[..|t|] == t;
  }

  // ---------------------------------------------------------------------------------------------
  // Routing

  /** What `send` may be handed: a string, a Buffer, or any other value. */
  datatype Message = StringMsg(s: string) | BufferMsg(b: seq<Byte>) | OtherMsg

  datatype Target = DeviceSink(id: nat) | SerialSink

  /** One call of a device's `send(msg, type)` or of `viscaSerial.send(msg)`, which takes no type. */
  datatype Delivery = Delivery(target: Target, msg: Message, kind: Option<Visca.Kind>)

  datatype Outcome =
    | Routed        // returned normally
    | WrongType     // logged 'Wrong message type' and returned
    | HeaderFault   // readUInt8(0) threw on an empty Buffer
    | SerialFault   // viscaSerial.send called on an absent serial link
    | RangeFault    // writeUInt8 threw on an id outside 0..255
    | ConfigFault   // this.config.firstID read before applyConfig set this.config

  datatype Routing = Routing(outcome: Outcome, deliveries: seq<Delivery>)

  /** `header % 16`: a nibble, NaN (a string whose first character is not a hex digit), or no header at all. */
  datatype Receiver = Nibble(n: nat) | NotANumber | Unreadable | Unsupported

  const BROADCAST: nat := 8

  function ReceiverOf(msg: Message): (r: Receiver)
    ensures r.Nibble? ==> r.n < 16
  {
    match msg
    case StringMsg(s) =>
      if |s| > 0 && DigitValue(s[0]).Some? then Nibble(DigitValue(s[0]).value % 16) else NotANumber
    case BufferMsg(b) => if |b| == 0 then Unreadable else Nibble(b[0] as nat % 16)
    case OtherMsg => Unsupported
  }

  /** One device delivery per id, in the order given. */
  function ToDevices(ids: seq<nat>, msg: Message, kind: Option<Visca.Kind>): seq<Delivery> {
    seq(|ids|, j requires 0 <= j < |ids| => Delivery(DeviceSink(ids[j]), msg, kind))
  }

  lemma ToDevicesAppend(ids: seq<nat>, more: seq<nat>, msg: Message, kind: Option<Visca.Kind>)
    ensures ToDevices(ids + more, msg, kind) == ToDevices(ids, msg, kind) + ToDevices(more, msg, kind)
  {
  }

  /** The serial copy of a message, when there is a serial link. */
  function SerialCopy(hasSerial: bool, msg: Message): seq<Delivery> {
    if hasSerial then [Delivery(SerialSink, msg, None)] else []
  }

  /** `send(msg, type)` as written: the broadcast branch calls the serial link without checking that it exists. */
  function RouteAsWritten(slots: seq<Option<Device>>, hasSerial: bool, msg: Message, kind: Option<Visca.Kind>): Routing {
    match ReceiverOf(msg)
    case Unsupported => Routing(WrongType, [])
    case Unreadable => Routing(HeaderFault, [])
    case NotANumber => Routing(Routed, SerialCopy(hasSerial, msg))
    case Nibble(r) =>
      if r == BROADCAST then
        var fanOut := ToDevices(PopulatedIds(slots), msg, kind);
        if hasSerial then Routing(Routed, fanOut + SerialCopy(true, msg)) else Routing(SerialFault, fanOut)
      else if SlotAt(slots, r).Some? then Routing(Routed, [Delivery(DeviceSink(SlotAt(slots, r).value.id), msg, kind)])
      else Routing(Routed, SerialCopy(hasSerial, msg))
  }

  /** A broadcast with no serial link reaches the devices and then faults on the missing link. */
  lemma BroadcastWithoutSerialFaults()
    ensures RouteAsWritten(ConfiguredTable(1, 1), false, BufferMsg([0x88, 0x01, 0x00, 0x01, 0xFF]), None)
         == Routing(SerialFault, [Delivery(DeviceSink(1), BufferMsg([0x88, 0x01, 0x00, 0x01, 0xFF]), None)])
  {
    PopulatedIdsOfTable(1, 1);
  }

  /** `send(msg, type)` with the serial call of the broadcast branch guarded as the fallback branch guards it. */
  function Route(slots: seq<Option<Device>>, hasSerial: bool, msg: Message, kind: Option<Visca.Kind>): (r: Routing)
    ensures r.outcome != SerialFault
    ensures r.deliveries == RouteAsWritten(slots, hasSerial, msg, kind).deliveries
    ensures hasSerial ==> r == RouteAsWritten(slots, hasSerial, msg, kind)
  {
    var w := RouteAsWritten(slots, hasSerial, msg, kind);
    if w.outcome == SerialFault then Routing(Routed, w.deliveries) else w
  }

  /** Only a non-message or an empty Buffer is refused, and a refused message goes nowhere. */
  lemma RouteRefusals(slots: seq<Option<Device>>, hasSerial: bool, msg: Message, kind: Option<Visca.Kind>)
    ensures var r := Route(slots, hasSerial, msg, kind);
            (r.outcome == WrongType <==> msg.OtherMsg?) &&
            (r.outcome == HeaderFault <==> msg == BufferMsg([])) &&
            (r.outcome != Routed ==> r.deliveries == [])
  {
  }

  /** Receiver 8: every configured device, in ascending id order, with the given type; then the serial link. */
  lemma BroadcastRoute(firstId: nat, count: int, hasSerial: bool, msg: Message, kind: Option<Visca.Kind>)
    requires ReceiverOf(msg) == Nibble(BROADCAST)
    ensures Route(ConfiguredTable(firstId, count), hasSerial, msg, kind)
         == Routing(Routed, ToDevices(Interval(firstId, firstId + count), msg, kind) + SerialCopy(hasSerial, msg))
  {
    PopulatedIdsOfTable(firstId, count);
  }

  /** Receiver r other than 8 with device r configured: that device alone, and the serial link gets nothing. */
  lemma UnicastRoute(firstId: nat, count: int, hasSerial: bool, msg: Message, kind: Option<Visca.Kind>, r: nat)
    requires ReceiverOf(msg) == Nibble(r) && r != BROADCAST && firstId <= r < firstId + count
    ensures Route(ConfiguredTable(firstId, count), hasSerial, msg, kind) == Routing(Routed, [Delivery(DeviceSink(r), msg, kind)])
  {
  }

  /** A receiver with no configured device, or no receiver number at all: the serial link alone, if there is one. */
  lemma FallbackRoute(firstId: nat, count: int, hasSerial: bool, msg: Message, kind: Option<Visca.Kind>)
    requires ReceiverOf(msg) == NotANumber ||
             (ReceiverOf(msg).Nibble? && ReceiverOf(msg).n != BROADCAST &&
              !(firstId <= ReceiverOf(msg).n < firstId + count))
    ensures Route(ConfiguredTable(firstId, count), hasSerial, msg, kind) == Routing(Routed, SerialCopy(hasSerial, msg))
  {
  }

  /** Device i receives the message exactly when it is configured and the receiver is 8 or i. */
  lemma DeviceDeliveryIff(firstId: nat, count: int, hasSerial: bool, msg: Message, kind: Option<Visca.Kind>, i: nat)
    ensures var r := Route(ConfiguredTable(firstId, count), hasSerial, msg, kind);
            Delivery(DeviceSink(i), msg, kind) in r.deliveries <==>
              firstId <= i < firstId + count && ReceiverOf(msg).Nibble? &&
              (ReceiverOf(msg).n == BROADCAST || ReceiverOf(msg).n == i)
  {
    var t := ConfiguredTable(firstId, count);
    var r := Route(t, hasSerial, msg, kind);
    match ReceiverOf(msg)
    case Nibble(n) =>
      if n == BROADCAST {
        BroadcastRoute(firstId, count, hasSerial, msg, kind);
        var ids := Interval(firstId, firstId + count);
        if firstId <= i < firstId + count {
          assert ToDevices(ids, msg, kind)[i - firstId] == Delivery(DeviceSink(i), msg, kind);
          assert r.deliveries[i - firstId] == Delivery(DeviceSink(i), msg, kind);
        }
      }
    case _ =>
  }

  /** The serial link receives the message exactly when it exists and no single device was addressed. */
  lemma SerialDeliveryIff(firstId: nat, count: int, hasSerial: bool, msg: Message, kind: Option<Visca.Kind>)
    ensures var r := Route(ConfiguredTable(firstId, count), hasSerial, msg, kind);
            Delivery(SerialSink, msg, None) in r.deliveries <==>
              hasSerial &&
              (ReceiverOf(msg) == NotANumber ||
               (ReceiverOf(msg).Nibble? &&
                (ReceiverOf(msg).n == BROADCAST || !(firstId <= ReceiverOf(msg).n < firstId + count))))
  {
    match ReceiverOf(msg)
    case Nibble(n) =>
      if n == BROADCAST {
        BroadcastRoute(firstId, count, hasSerial, msg, kind);
        var fanOut := ToDevices(Interval(firstId, firstId + count), msg, kind);
        assert Delivery(SerialSink, msg, None) !in fanOut;
        if hasSerial {
          assert (fanOut + SerialCopy(true, msg))[|fanOut|] == Delivery(SerialSink, msg, None);
        }
      }
    case _ =>
  }

  // ---------------------------------------------------------------------------------------------
  // Address assignment

  const ADDRESS_SET: seq<Byte> := [0x88, 0x30, 0x00, 0xFF]

  /** `Buffer.from(ADDRESS_SET)` with `writeUInt8(id, 2)`: a copy that differs from ADDRESS_SET in byte 2 only. */
  function AddressSetFrame(id: nat): (f: seq<Byte>)
    requires id < 256
    ensures |f| == |ADDRESS_SET| && f[2] as nat == id
    ensures forall j :: 0 <= j < |f| && j != 2 ==> f[j] == ADDRESS_SET[j]
  {
    ADDRESS_SET[2 := id as Byte]
  }

  /** The device part of `setAddress`: the loop from `id` up to `bound`, one frame per populated slot. */
  function AssignFrom(slots: seq<Option<Device>>, id: int, bound: int): Routing
    decreases bound - id
  {
    if id >= bound then Routing(Routed, [])
    else match SlotAt(slots, id)
      case None => AssignFrom(slots, id + 1, bound)
      case Some(d) =>
        if id >= 256 then Routing(RangeFault, [])
        else
          var rest := AssignFrom(slots, id + 1, bound);
          Routing(rest.outcome, [Delivery(DeviceSink(d.id), BufferMsg(AddressSetFrame(id)), None)] + rest.deliveries)
  }

  /** The value of `id` when the loop is done. */
  function LoopExit(start: int, bound: int): int {
    if start < bound then bound else start
  }

  /** `setAddress(start)`: the device frames, then one frame to the serial link carrying the id the loop ended at. */
  function AddressPlan(slots: seq<Option<Device>>, hasSerial: bool, start: int, bound: int): Routing {
    var devices := AssignFrom(slots, start, bound);
    var k := LoopExit(start, bound);
    if devices.outcome != Routed || !hasSerial then devices
    else if 0 <= k < 256 then Routing(Routed, devices.deliveries + [Delivery(SerialSink, BufferMsg(AddressSetFrame(k)), None)])
    else Routing(RangeFault, devices.deliveries)
  }

  /** One address-set frame per id, each to the device of that id. */
  function AddressFrames(ids: seq<nat>): seq<Delivery>
    requires forall j :: 0 <= j < |ids| ==> ids[j] < 256
  {
    seq(|ids|, j requires 0 <= j < |ids| => Delivery(DeviceSink(ids[j]), BufferMsg(AddressSetFrame(ids[j])), None))
  }

  function Max(a: int, b: int): int {
    if a < b then b else a
  }

  lemma {:induction false} AssignConfigured(firstId: nat, count: int, id: int)
    requires firstId + count <= 256
    ensures AssignFrom(ConfiguredTable(firstId, count), id, firstId + count)
         == Routing(Routed, AddressFrames(Interval(Max(id, firstId), firstId + count)))
    decreases firstId + count - id
  {
    var t, bound := ConfiguredTable(firstId, count), firstId + count;
    if id < bound {
      AssignConfigured(firstId, count, id + 1);
      var rest := AddressFrames(Interval(Max(id + 1, firstId), bound));
      if firstId <= id {
        assert SlotAt(t, id) == Some(Device(id));
        var all := AddressFrames(Interval(id, bound));
        assert all == [all[0]] + rest;
      } else {
        assert SlotAt(t, id) == None;
        assert Max(id, firstId) == Max(id + 1, firstId);
      }
    }
  }

  /**
   * `setAddress(start)` on the configured table: devices max(start, firstID) .. firstID+devicesNumber-1
   * each get `88 30 id FF` in ascending order, then the serial link gets the same frame carrying
   * max(start, firstID+devicesNumber).
   */
  lemma AddressPlanConfigured(firstId: nat, count: int, hasSerial: bool, start: int)
    requires firstId + count <= 256 && 0 <= LoopExit(start, firstId + count) < 256
    ensures AddressPlan(ConfiguredTable(firstId, count), hasSerial, start, firstId + count)
         == Routing(Routed, AddressFrames(Interval(Max(start, firstId), firstId + count)) +
                            (if hasSerial then [Delivery(SerialSink, BufferMsg(AddressSetFrame(LoopExit(start, firstId + count))), None)] else []))
  {
    AssignConfigured(firstId, count, start);
  }

  /** Three devices from id 1 and a serial link: frames carrying 1, 2, 3 to the devices, then 4 to the bus. */
  lemma AssignmentOfThreeDevices()
    ensures var r := AddressPlan(ConfiguredTable(1, 3), true, 1, 4);
            r.outcome == Routed &&
            r.deliveries == [
              Delivery(DeviceSink(1), BufferMsg([0x88, 0x30, 0x01, 0xFF]), None),
              Delivery(DeviceSink(2), BufferMsg([0x88, 0x30, 0x02, 0xFF]), None),
              Delivery(DeviceSink(3), BufferMsg([0x88, 0x30, 0x03, 0xFF]), None),
              Delivery(SerialSink, BufferMsg([0x88, 0x30, 0x04, 0xFF]), None)]
  {
    AddressPlanConfigured(1, 3, true, 1);
    assert Interval(1, 4) == [1, 2, 3];
    assert AddressFrames([1, 2, 3]) == [
      Delivery(DeviceSink(1), BufferMsg(AddressSetFrame(1)), None),
      Delivery(DeviceSink(2), BufferMsg(AddressSetFrame(2)), None),
      Delivery(DeviceSink(3), BufferMsg(AddressSetFrame(3)), None)];
    assert AddressSetFrame(1) == [0x88, 0x30, 0x01, 0xFF];
    assert AddressSetFrame(2) == [0x88, 0x30, 0x02, 0xFF];
    assert AddressSetFrame(3) == [0x88, 0x30, 0x03, 0xFF];
    assert AddressSetFrame(4) == [0x88, 0x30, 0x04, 0xFF];
  }

  // ---------------------------------------------------------------------------------------------
  // The instance

  /** The parts of `Visca2IpInstance` the core uses: the configuration, the device table, the serial link. */
  class Bridge {
    /** Whether `this.config` is set: the constructor leaves it undefined and `applyConfig` assigns it. */
    var configured: bool
    /** `config.firstID` and `config.devicesNumber`; 0 and 0 (an empty table) until configured. */
    var firstId: nat
    var devicesNumber: int
    var slots: seq<Option<Device>>
    /** Whether `viscaSerial` is set; the serial link object is created by code outside this model. */
    var hasSerial: bool
    /** Every delivery made so far, in order. */
    var log: seq<Delivery>

    ghost predicate Valid()
      reads this
    {
      slots == ConfiguredTable(firstId, devicesNumber) && (!configured ==> slots == [])
    }

    constructor ()
      ensures Valid() && !configured && slots == [] && !hasSerial && log == []
    {
      configured := false;
      firstId, devicesNumber := 0, 0;
      slots := [];
      hasSerial := false;
      log := [];
    }

    /** The table part of `applyConfig`: `clearAll` drops the old instances and the serial link, then the loop fills the table. */
    method ApplyConfig(firstId: nat, devicesNumber: int)
      modifies this
      ensures Valid() && configured
      ensures this.firstId == firstId && this.devicesNumber == devicesNumber
      ensures slots == ConfiguredTable(firstId, devicesNumber) && !hasSerial && log == old(log)
    {
      configured := true;
      this.firstId, this.devicesNumber := firstId, devicesNumber;
      hasSerial := false;
      slots := [];
      var i := firstId;
      while i < firstId + devicesNumber
        invariant firstId <= i && (i <= firstId + devicesNumber || i == firstId)
        invariant slots == ConfiguredTable(firstId, i - firstId)
        invariant configured && this.firstId == firstId && this.devicesNumber == devicesNumber && !hasSerial && log == old(log)
      {
        PlacedExtendsTable(firstId, i - firstId);
        slots := Placed(slots, i, Device(i));
        i := i + 1;
      }
    }

    /** `send(msg, type)`, with the serial call of the broadcast branch guarded (see RouteAsWritten). */
    method Send(msg: Message, kind: Option<Visca.Kind>) returns (outcome: Outcome)
      requires Valid()
      modifies this`log
      ensures Valid()
      ensures var r := Route(ConfiguredTable(firstId, devicesNumber), hasSerial, msg, kind);
              outcome == r.outcome && log == old(log) + r.deliveries
    {
      outcome := Dispatch(msg, kind);
    }

    /** The body of `send` over whatever table `slots` holds. */
    method Dispatch(msg: Message, kind: Option<Visca.Kind>) returns (outcome: Outcome)
      modifies this`log
      ensures var r := Route(slots, hasSerial, msg, kind);
              outcome == r.outcome && log == old(log) + r.deliveries
    {
      match ReceiverOf(msg)
      case Unsupported =>
        outcome := WrongType;
      case Unreadable =>
        outcome := HeaderFault;
      case NotANumber =>
        if hasSerial {
          log := log + [Delivery(SerialSink, msg, None)];
        }
        outcome := Routed;
      case Nibble(r) =>
        if r == BROADCAST {
          for i := 0 to |slots|
            invariant log == old(log) + ToDevices(PopulatedIds(slots[..i]), msg, kind)
          {
            PopulatedIdsStep(slots, i);
            ToDevicesAppend(PopulatedIds(slots[..i]), match slots[i] case Some(d) => [d.id] case None => [], msg, kind);
            match slots[i]
            case Some(d) =>
              log := log + [Delivery(DeviceSink(d.id), msg, kind)];
            case None =>
          }
          assert slots[..|slots|] == slots;
          if hasSerial {
            log := log + [Delivery(SerialSink, msg, None)];
          }
        } else if SlotAt(slots, r).Some? {
          log := log + [Delivery(DeviceSink(SlotAt(slots, r).value.id), msg, kind)];
        } else if hasSerial {
          log := log + [Delivery(SerialSink, msg, None)];
        }
        outcome := Routed;
    }

    /** `setAddress(id)`; before `applyConfig` the read of `this.config.firstID` throws. */
    method SetAddress(start: int) returns (outcome: Outcome)
      requires Valid()
      modifies this`log
      ensures Valid()
      ensures !configured ==> outcome == ConfigFault && log == old(log)
      ensures configured ==>
              var r := AddressPlan(ConfiguredTable(firstId, devicesNumber), hasSerial, start, firstId + devicesNumber);
              outcome == r.outcome && log == old(log) + r.deliveries
    {
      if !configured {
        return ConfigFault;
      }
      var bound := firstId + devicesNumber;
      var id := start;
      while id < bound
        invariant start <= id && (id <= bound || id == start)
        invariant old(log) + AssignFrom(slots, start, bound).deliveries == log + AssignFrom(slots, id, bound).deliveries
        invariant AssignFrom(slots, start, bound).outcome == AssignFrom(slots, id, bound).outcome
        decreases bound - id
      {
        var device := SlotAt(slots, id);
        if device.Some? {
          if id >= 256 {
            // writeUInt8 rejects the id
            assert AssignFrom(slots, id, bound) == Routing(RangeFault, []);
            assert old(log) + AssignFrom(slots, start, bound).deliveries == log;
            return RangeFault;
          }
          log := log + [Delivery(DeviceSink(device.value.id), BufferMsg(AddressSetFrame(id)), None)];
        }
        id := id + 1;
      }
      assert AssignFrom(slots, id, bound) == Routing(Routed, []);
      assert id == LoopExit(start, bound);
      assert old(log) + AssignFrom(slots, start, bound).deliveries == log;
      outcome := Routed;
      if hasSerial {
        if 0 <= id < 256 {
          log := log + [Delivery(SerialSink, BufferMsg(AddressSetFrame(id)), None)];
        } else {
          outcome := RangeFault;
        }
      }
    }
  }
}
