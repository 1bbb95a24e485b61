/**
 * VISCA over IP framing as `ViscaOIP` in src/visca.js does it: an 8-byte header (2-byte message
 * type, 2-byte big-endian payload length, 4-byte big-endian sequence number) followed by the
 * payload, numbered by one counter that every instance shares, with a reset frame sent before the
 * counter would pass 0xFFFFFFFF; and the hex rendering `msgToString` used for diagnostics.
 */
module Visca {
  import opened Wrappers
  import opened Bytes
  import opened Text

  /** The message types the getters `command`, `control` and `inquiry` hand out. */
  datatype Kind = Command | Control | Inquiry

  const COMMAND: seq<Byte> := [0x01, 0x00]
  const CONTROL: seq<Byte> := [0x02, 0x00]
  const INQUIRY: seq<Byte> := [0x01, 0x10]

  /** The two type bytes of each message type. */
  function TagOf(k: Kind): (t: seq<Byte>)
    ensures |t| == 2
  {
    match k
    case Command => COMMAND
    case Control => CONTROL
    case Inquiry => INQUIRY
  }

  /** The type bytes `send` copies in: `type = this.command`, so an omitted or undefined type means COMMAND. */
  function SelectedTag(kind: Option<Kind>): (t: seq<Byte>)
    ensures |t| == 2
    ensures kind.None? ==> t == [0x01, 0x00]
  {
    TagOf(kind.GetOr(Command))
  }

  /** The three tags are distinct, so the type of a frame can be read back from its first two bytes. */
  lemma TagsDistinct(a: Kind, b: Kind)
    ensures TagOf(a) == TagOf(b) <==> a == b
  {
    if a != b {
      assert TagOf(a)[0] != TagOf(b)[0] || TagOf(a)[1] != TagOf(b)[1];
    }
  }

  /** The frame sent, on the datagram link, before the counter restarts: hex `020000010000000001`. */
  const RESET_FRAME: seq<Byte> := [0x02, 0x00, 0x00, 0x01, 0x00, 0x00, 0x00, 0x00, 0x01]

  /** What `send` is given: a JavaScript string or a Node Buffer. */
  datatype Payload = StringPayload(s: string) | BufferPayload(b: seq<Byte>)

  /** The UTF-16 code units of one character. */
  function CharUnits(c: char): (u: seq<nat>)
    ensures 1 <= |u| <= 2
    ensures forall j :: 0 <= j < |u| ==> u[j] < 0x1_0000
  {
    var n := c as int;
    if n < 0x1_0000 then [n]
    else [0xD800 + (n - 0x1_0000) / 0x400, 0xDC00 + (n - 0x1_0000) % 0x400]
  }

  /** The UTF-16 code units of a string: what `length` counts and what `buffer.write` encodes. */
  function Utf16Units(s: string): (u: seq<nat>)
    ensures |s| <= |u| <= 2 * |s|
  {
    if |s| == 0 then [] else CharUnits(s[0]) + Utf16Units(s[1..])
  }

  /** `buffer.write(s, 8, 'binary')`: one byte per code unit, its low eight bits. */
  function Latin1(s: string): seq<Byte> {
    var u := Utf16Units(s);
    seq(|u|, j requires 0 <= j < |u| => (u[j] % 256) as Byte)
  }

  /** Bytes read as `'latin1'` text (`Buffer.toString('latin1')`): one character per byte, U+0000 to U+00FF. */
  function Latin1Text(b: seq<Byte>): string {
    seq(|b|, i requires 0 <= i < |b| => (b[i] as int) as char)
  }

  /** Text whose characters are all below U+0100 has one UTF-16 unit per character, its code. */
  lemma {:induction false} NarrowUnits(s: string)
    requires forall i :: 0 <= i < |s| ==> s[i] as int < 256
    ensures |Utf16Units(s)| == |s|
    ensures forall i :: 0 <= i < |s| ==> Utf16Units(s)[i] == s[i] as nat
    decreases |s|
  {
    if |s| > 0 {
      var rest := s[1..];
      NarrowUnits(rest);
      var u := Utf16Units(s);
      assert u == [s[0] as nat] + Utf16Units(rest);
      forall i | 0 < i < |s|
        ensures u[i] == s[i] as nat
      {
        assert u[i] == Utf16Units(rest)[i - 1] && rest[i - 1] == s[i];
      }
    }
  }

  /** For text below U+0100, the binary write puts exactly the character codes into the frame. */
  lemma Latin1OfNarrowText(s: string)
    requires forall i :: 0 <= i < |s| ==> s[i] as int < 256
    ensures |Latin1(s)| == |s|
    ensures forall i :: 0 <= i < |s| ==> Latin1(s)[i] as int == s[i] as int
  {
    NarrowUnits(s);
  }

  /** Writing `'latin1'`-decoded bytes as a binary string reproduces the bytes. */
  lemma Latin1RoundTrip(b: seq<Byte>)
    ensures Latin1(Latin1Text(b)) == b
  {
    var t := Latin1Text(b);
    Latin1OfNarrowText(t);
    assert forall i :: 0 <= i < |b| ==> Latin1(t)[i] == b[i];
  }

  /** The bytes of a payload as they land in the frame; a Buffer is copied as it is. */
  function PayloadBytes(p: Payload): seq<Byte> {
    match p
    case StringPayload(s) => Latin1(s)
    case BufferPayload(b) => b
  }

  /**
   * The frame `send` builds. Reading the fields back gives the type, the payload length, the
   * sequence number and the payload.
   */
  function NetworkFrame(tag: seq<Byte>, sequence: nat, body: seq<Byte>): (f: seq<Byte>)
    requires |tag| == 2 && sequence <= UINT32_MAX && |body| < UINT16_LIMIT
    ensures |f| == |body| + 8
    ensures f[..2] == tag && Be16Value(f[2..4]) == |body| && Be32Value(f[4..8]) == sequence
    ensures f[8..] == body
  {
    var f := tag + Be16(|body|) + Be32(sequence) + body;
    assert f[2..4] == Be16(|body|) && f[4..8] == Be32(sequence);
    f
  }

  /** A frame sent with no type starts with the COMMAND tag `01 00`. */
  lemma UntypedFrameIsCommand(sequence: nat, body: seq<Byte>)
    requires sequence <= UINT32_MAX && |body| < UINT16_LIMIT
    ensures var f := NetworkFrame(SelectedTag(None), sequence, body); f[0] == 0x01 && f[1] == 0x00
  {
    var f := NetworkFrame(SelectedTag(None), sequence, body);
    assert f[..2] == [0x01, 0x00];
    assert f[0] == f[..2][0] && f[1] == f[..2][1];
  }

  /** The reset frame is itself a well-formed CONTROL frame: sequence 0, one payload byte 01. */
  lemma ResetFrameIsControlFrame()
    ensures RESET_FRAME == NetworkFrame(CONTROL, 0, [0x01])
  {
    assert Be16(1) == [0x00, 0x01] && Be32(0) == [0x00, 0x00, 0x00, 0x00];
  }

  // ---------------------------------------------------------------------------------------------
  // The shared sequence counter

  /** The value of the counter after one `send`: reset to 0 at 0xFFFFFFFF, then incremented. */
  function NextCounter(c: nat): nat {
    if c == UINT32_MAX then 1 else c + 1
  }

  /** The reset frame one `send` emits before its data frame, given the counter it starts from. */
  function ResetFrames(c: nat): seq<seq<Byte>> {
    if c == UINT32_MAX then [RESET_FRAME] else []
  }

  /** The counter after `k` sends starting from `c`, whichever instances made them. */
  function CounterAfter(c: nat, k: nat): nat {
    if k == 0 then c else NextCounter(CounterAfter(c, k - 1))
  }

  /** The sequence numbers written by `k` consecutive sends starting from counter `c`. */
  function WireSequence(c: nat, k: nat): (w: seq<nat>)
    ensures |w| == k
  {
    if k == 0 then [] else WireSequence(c, k - 1) + [CounterAfter(c, k)]
  }

  /** How many reset frames `k` consecutive sends starting from counter `c` emit. */
  function ResetsDuring(c: nat, k: nat): nat {
    if k == 0 then 0 else ResetsDuring(c, k - 1) + |ResetFrames(CounterAfter(c, k - 1))|
  }

  /** Below the limit the counter simply counts: `k` sends number their frames c+1 .. c+k and emit no reset. */
  lemma {:induction false} CountsUpWithoutReset(c: nat, k: nat)
    requires c + k <= UINT32_MAX
    ensures CounterAfter(c, k) == c + k && ResetsDuring(c, k) == 0
    ensures forall j :: 0 <= j < k ==> WireSequence(c, k)[j] == c + 1 + j
  {
    if k > 0 {
      CountsUpWithoutReset(c, k - 1);
    }
  }

  /**
   * From a fresh counter, 0xFFFFFFFF sends number their frames 1 .. 0xFFFFFFFF without a reset;
   * the next send emits exactly one reset frame and numbers its frame 1.
   */
  lemma RolloverAfterLimit()
    ensures CounterAfter(0, UINT32_MAX) == UINT32_MAX && ResetsDuring(0, UINT32_MAX) == 0
    ensures CounterAfter(0, UINT32_MAX + 1) == 1 && ResetsDuring(0, UINT32_MAX + 1) == 1
    ensures WireSequence(0, UINT32_MAX + 1)[UINT32_MAX] == 1
  {
    CountsUpWithoutReset(0, UINT32_MAX);
  }

  /** Every sequence number written is one more than the previous one, or 1 right after 0xFFFFFFFF. */
  lemma {:induction false} WireSequenceSteps(c: nat, k: nat)
    ensures forall j :: 0 < j < k ==>
      WireSequence(c, k)[j] == (if WireSequence(c, k)[j - 1] == UINT32_MAX then 1 else WireSequence(c, k)[j - 1] + 1)
  {
    if k > 1 {
      WireSequenceSteps(c, k - 1);
      assert WireSequence(c, k)[..k - 1] == WireSequence(c, k - 1);
      assert WireSequence(c, k)[k - 2] == CounterAfter(c, k - 1);
    }
  }

  /** No sequence number written is 0, and each fits in 32 bits. */
  lemma {:induction false} WireSequenceInRange(c: nat, k: nat)
    requires c <= UINT32_MAX
    ensures 1 <= CounterAfter(c, k) <= UINT32_MAX || (k == 0 && c == 0)
    ensures forall j :: 0 <= j < k ==> 1 <= WireSequence(c, k)[j] <= UINT32_MAX
  {
    if k > 0 {
      WireSequenceInRange(c, k - 1);
      assert WireSequence(c, k)[..k - 1] == WireSequence(c, k - 1);
    }
  }

  /**
   * The module-level state `send` works on: `packet_counter` and, through the owner `self`, the
   * datagrams handed to `self.udp.send` and the variable `lastCmdSent`.
   */
  class Shared {
    var packetCounter: nat
    var outbox: seq<seq<Byte>>
    var lastCmdSent: string

    ghost predicate Valid()
      reads this
    {
      packetCounter <= UINT32_MAX
    }

    constructor ()
      ensures Valid() && packetCounter == 0 && outbox == [] && lastCmdSent == ""
    {
      packetCounter := 0;
      outbox := [];
      lastCmdSent := "";
    }
  }

  /** One `ViscaOIP` instance: a device id bound to the module-level state. */
  class ViscaOip {
    const id: nat
    const shared: Shared

    constructor (shared: Shared, id: nat)
      ensures this.id == id && this.shared == shared
    {
      this.id := id;
      this.shared := shared;
    }

    /**
     * `send(payload, type)`. The counter always advances, and at 0xFFFFFFFF the reset frame goes
     * out first. A payload longer than 65535 bytes makes `writeUInt16BE` throw (ok == false)
     * after that, so no data frame is sent; otherwise the frame is sent and its payload part,
     * rendered without block separators, becomes `lastCmdSent`.
     */
    method Send(payload: Payload, kind: Option<Kind>) returns (ok: bool)
      requires shared.Valid()
      modifies shared
      ensures shared.Valid()
      ensures shared.packetCounter == NextCounter(old(shared.packetCounter))
      ensures ok <==> |PayloadBytes(payload)| < UINT16_LIMIT
      ensures shared.outbox == old(shared.outbox) + ResetFrames(old(shared.packetCounter)) +
        (if ok then [NetworkFrame(SelectedTag(kind), shared.packetCounter, PayloadBytes(payload))] else [])
      ensures shared.lastCmdSent == if ok then Rendered(PayloadBytes(payload), false) else old(shared.lastCmdSent)
    {
      var body := PayloadBytes(payload);
      var tag := SelectedTag(kind);
      ghost var counter, sent := shared.packetCounter, shared.outbox;
      if shared.packetCounter == UINT32_MAX {
        shared.packetCounter := 0;
        shared.outbox := shared.outbox + [RESET_FRAME];
      }
      shared.packetCounter := shared.packetCounter + 1;
      assert shared.outbox == sent + ResetFrames(counter);

      if |body| >= UINT16_LIMIT {
        // writeUInt16BE rejects the length: the exception ends the call here
        ok := false;
      } else {
        var frame := FillFrame(tag, shared.packetCounter, body);
        var text := MsgToString(frame[8..], false);
        shared.lastCmdSent := text;
        shared.outbox := shared.outbox + [frame];
        ok := true;
      }
    }
  }

  /**
   * The writes `send` makes into the zero-filled buffer of `payload.length + 8` bytes: the type
   * at 0, `writeUInt16BE` at 2, `writeUInt32BE` at 4 and the payload copied in at 8.
   */
  method FillFrame(tag: seq<Byte>, sequence: nat, body: seq<Byte>) returns (frame: seq<Byte>)
    requires |tag| == 2 && sequence <= UINT32_MAX && |body| < UINT16_LIMIT
    ensures frame == NetworkFrame(tag, sequence, body)
  {
    var n := |body|;
    var buffer := new Byte[n + 8];
    buffer[0], buffer[1] := tag[0], tag[1];
    var length, number := Be16(n), Be32(sequence);
    buffer[2], buffer[3] := length[0], length[1];
    buffer[4], buffer[5], buffer[6], buffer[7] := number[0], number[1], number[2], number[3];
    ghost var header := tag + length + number;
    assert buffer[..8] == header;
    var i := 0;
    while i < n
      invariant 0 <= i <= n
      invariant buffer[..8] == header
      invariant buffer[8..8 + i] == body[..i]
    {
      buffer[8 + i] := body[i];
      i := i + 1;
    }
    assert buffer[8..] == body by {
      assert buffer[8..] == buffer[8..8 + n] && body[..n] == body;
    }
    frame := buffer[..];
    assert frame == buffer[..8] + buffer[8..];
  }

  /**
   * Two instances built on the same state number their frames one after the other: the counter is
   * not per instance.
   */
  method InstancesShareOneCounter() returns (first: seq<Byte>, second: seq<Byte>)
    ensures |first| == 13 && |second| == 9
    ensures Be32Value(first[4..8]) == 1 && Be32Value(second[4..8]) == 2
    ensures first[..2] == COMMAND && second[..2] == CONTROL
  {
    var shared := new Shared();
    var camera1 := new ViscaOip(shared, 1);
    var camera2 := new ViscaOip(shared, 2);
    var ok1 := camera1.Send(BufferPayload([0x81, 0x01, 0x06, 0x04, 0xFF]), None);
    var ok2 := camera2.Send(BufferPayload([0x01]), Some(Control));
    first, second := shared.outbox[0], shared.outbox[1];
  }

  // ---------------------------------------------------------------------------------------------
  // msgToString

  /** After which byte indices `msgToString` inserts `| ` when it separates blocks. */
  predicate Marked(separateBlocks: bool, i: nat) {
    separateBlocks && (i == 1 || i == 3 || i == 7 || i == 15 || i == 23)
  }

  /** What one iteration of the loop appends for byte `i` (its digits are `toString(16).padStart(2, '0')`). */
  function Cell(msg: seq<Byte>, separateBlocks: bool, i: nat): string
    requires i < |msg|
  {
    HexByte(msg[i]) + Tail(separateBlocks, i)
  }

  /** What the loop appends for bytes `lo .. hi-1`. */
  function Cells(msg: seq<Byte>, separateBlocks: bool, lo: nat, hi: nat): string
    requires lo <= hi <= |msg|
    decreases hi - lo
  {
    if hi == lo then "" else Cells(msg, separateBlocks, lo, hi - 1) + Cell(msg, separateBlocks, hi - 1)
  }

  /** The value of `msgToString(msg, separateBlocks)`. */
  function Rendered(msg: seq<Byte>, separateBlocks: bool): string {
    Trim(Cells(msg, separateBlocks, 0, |msg|))
  }

  /** `msgToString`: accumulates two digits and a space per byte, and `| ` after the block ends; then trims. */
  method MsgToString(msg: seq<Byte>, separateBlocks: bool) returns (s: string)
    ensures s == Rendered(msg, separateBlocks)
  {
    var acc := "";
    for i := 0 to |msg|
      invariant acc == Cells(msg, separateBlocks, 0, i)
    {
      var cell := PadStart2(Radix16(msg[i] as nat)) + " ";
      if separateBlocks && (i == 1 || i == 3 || i == 7 || i == 15 || i == 23) {
        cell := cell + "| ";
      }
      StepIsCell(msg, separateBlocks, i);
      acc := acc + cell;
    }
    s := Trim(acc);
  }

  /** One iteration of the loop appends `Cell(msg, separateBlocks, i)`. */
  lemma StepIsCell(msg: seq<Byte>, separateBlocks: bool, i: nat)
    requires i < |msg|
    ensures var step := PadStart2(Radix16(msg[i] as nat)) + " ";
            (if Marked(separateBlocks, i) then step + "| " else step) == Cell(msg, separateBlocks, i)
  {
    PaddedRadixIsHexByte(msg[i]);
  }

  lemma {:induction false} CellsSplit(msg: seq<Byte>, separateBlocks: bool, lo: nat, mid: nat, hi: nat)
    requires lo <= mid <= hi <= |msg|
    ensures Cells(msg, separateBlocks, lo, hi) == Cells(msg, separateBlocks, lo, mid) + Cells(msg, separateBlocks, mid, hi)
    decreases hi - mid
  {
    if hi > mid {
      CellsSplit(msg, separateBlocks, lo, mid, hi - 1);
    }
  }

  /** What the loop appends after the digits of byte `i`: ` | ` at a block end, otherwise a space. */
  function Tail(separateBlocks: bool, i: nat): string {
    if Marked(separateBlocks, i) then " | " else " "
  }

  lemma Regroup(joined: string, hex: string, tail: string)
    ensures (joined + " ") + (hex + tail) == (joined + " " + hex) + tail
  {
  }

  /**
   * A range with no separator before its last byte is written as its space-joined hex followed by
   * what comes after the last byte.
   */
  lemma {:induction false} CellsRun(msg: seq<Byte>, separateBlocks: bool, lo: nat, hi: nat)
    requires lo < hi <= |msg|
    requires forall i :: lo <= i < hi - 1 ==> !Marked(separateBlocks, i)
    ensures Cells(msg, separateBlocks, lo, hi) == HexJoin(msg[lo..hi], " ") + Tail(separateBlocks, hi - 1)
    decreases hi - lo
  {
    var x := msg[hi - 1];
    assert Cell(msg, separateBlocks, hi - 1) == HexByte(x) + Tail(separateBlocks, hi - 1);
    if hi - 1 > lo {
      var a := msg[lo..hi - 1];
      CellsRun(msg, separateBlocks, lo, hi - 1);
      assert Tail(separateBlocks, hi - 2) == " ";
      HexJoinSnoc(a, x, " ");
      SliceSnoc(msg, lo, hi);
      Regroup(HexJoin(a, " "), HexByte(x), Tail(separateBlocks, hi - 1));
    } else {
      SliceSingle(msg, lo);
    }
  }

  /** Without separators in a range, the loop writes the range as space-joined hex plus one trailing space. */
  lemma CellsUnmarked(msg: seq<Byte>, separateBlocks: bool, lo: nat, hi: nat)
    requires lo < hi <= |msg|
    requires forall i :: lo <= i < hi ==> !Marked(separateBlocks, i)
    ensures Cells(msg, separateBlocks, lo, hi) == HexJoin(msg[lo..hi], " ") + " "
  {
    CellsRun(msg, separateBlocks, lo, hi);
  }

  /** A block whose last byte carries the separator renders as its hex, then ` | `. */
  lemma CellsBlock(msg: seq<Byte>, lo: nat, hi: nat)
    requires lo < hi <= |msg|
    requires forall i :: lo <= i < hi - 1 ==> !Marked(true, i)
    requires Marked(true, hi - 1)
    ensures Cells(msg, true, lo, hi) == HexJoin(msg[lo..hi], " ") + " | "
  {
    CellsRun(msg, true, lo, hi);
  }

  lemma DigitsAreNotWhitespace()
    ensures forall c :: IsHexDigit(c) ==> !IsWhitespace(c)
  {
  }

  /** Without block separators, `msgToString` is the bytes as two-digit hex joined by single spaces. */
  lemma RenderedPlain(msg: seq<Byte>)
    ensures Rendered(msg, false) == HexJoin(msg, " ")
    ensures |Rendered(msg, false)| == JoinedLength(|msg|, 1)
  {
    HexJoinLength(msg, " ");
    if |msg| > 0 {
      CellsUnmarked(msg, false, 0, |msg|);
      HexJoinEnds(msg, " ");
      DigitsAreNotWhitespace();
      assert msg[0..|msg|] == msg;
      TrimTrailingSpace(HexJoin(msg, " "));
    }
  }

  /** The unseparated rendering (the form `lastCmdSent` takes) can be read back to the exact bytes. */
  lemma RenderedPlainRoundTrip(msg: seq<Byte>)
    ensures ParseHexJoin(Rendered(msg, false), " ") == Some(msg)
  {
    RenderedPlain(msg);
    ParseHexJoinRoundTrip(msg, " ");
  }

  /** Where the blocks of a separated rendering end: the type, length, sequence and then 8-byte groups. */
  const BLOCK_ENDS: seq<nat> := [2, 4, 8, 16, 24]

  function BlockStart(k: nat): nat
    requires k <= |BLOCK_ENDS|
  {
    if k == 0 then 0 else BLOCK_ENDS[k - 1]
  }

  /**
   * A reference for the separated rendering of bytes `BlockStart(k)..`: each block as space-joined
   * hex, blocks joined by ` | `, and a final ` |` when the message ends exactly at a block end.
   */
  function Grouped(msg: seq<Byte>, k: nat): string
    requires k <= |BLOCK_ENDS| && BlockStart(k) <= |msg|
    decreases |BLOCK_ENDS| - k
  {
    var lo := BlockStart(k);
    if k == |BLOCK_ENDS| || |msg| < BLOCK_ENDS[k] then HexJoin(msg[lo..|msg|], " ")
    else if |msg| == BLOCK_ENDS[k] then HexJoin(msg[lo..|msg|], " ") + " |"
    else HexJoin(msg[lo..BLOCK_ENDS[k]], " ") + " | " + Grouped(msg, k + 1)
  }

  /** The separators sit exactly at the last byte of each block. */
  lemma MarksOfBlock(k: nat)
    requires k <= |BLOCK_ENDS|
    ensures k < |BLOCK_ENDS| ==> BlockStart(k) < BLOCK_ENDS[k] && Marked(true, BLOCK_ENDS[k] - 1)
    ensures k < |BLOCK_ENDS| ==> forall i :: BlockStart(k) <= i < BLOCK_ENDS[k] - 1 ==> !Marked(true, i)
    ensures k == |BLOCK_ENDS| ==> forall i :: BlockStart(k) <= i ==> !Marked(true, i)
    ensures k < |BLOCK_ENDS| ==> BlockStart(k + 1) == BLOCK_ENDS[k]
  {
  }

  lemma Regroup2(block: string, rest: string)
    ensures (block + " | ") + (rest + " ") == (block + " | " + rest) + " "
  {
  }

  lemma LastSeparator(block: string)
    ensures block + " | " == (block + " |") + " "
  {
  }

  lemma {:induction false} CellsGrouped(msg: seq<Byte>, k: nat)
    requires k <= |BLOCK_ENDS| && BlockStart(k) <= |msg|
    ensures Cells(msg, true, BlockStart(k), |msg|) == Grouped(msg, k) + (if BlockStart(k) < |msg| then " " else "")
    decreases |BLOCK_ENDS| - k
  {
    var lo := BlockStart(k);
    MarksOfBlock(k);
    if k == |BLOCK_ENDS| || |msg| < BLOCK_ENDS[k] {
      if lo < |msg| {
        CellsUnmarked(msg, true, lo, |msg|);
      } else {
        assert msg[lo..|msg|] == [];
      }
    } else if |msg| == BLOCK_ENDS[k] {
      CellsBlock(msg, lo, |msg|);
      LastSeparator(HexJoin(msg[lo..|msg|], " "));
    } else {
      var e := BLOCK_ENDS[k];
      CellsSplit(msg, true, lo, e, |msg|);
      CellsBlock(msg, lo, e);
      CellsGrouped(msg, k + 1);
      Regroup2(HexJoin(msg[lo..e], " "), Grouped(msg, k + 1));
    }
  }

  /** Starts with a hex digit and ends with a hex digit or `|`. */
  predicate HexBounded(g: string) {
    |g| > 0 && IsHexDigit(g[0]) && (IsHexDigit(g[|g| - 1]) || g[|g| - 1] == '|')
  }

  lemma EndsOfJoined(block: string, rest: string)
    requires |block| > 0 && IsHexDigit(block[0]) && HexBounded(rest)
    ensures HexBounded(block + " | " + rest)
  {
    var g := block + " | " + rest;
    assert g[0] == block[0] && g[|g| - 1] == rest[|rest| - 1];
  }

  lemma EndsWithSeparator(block: string)
    requires |block| > 0 && IsHexDigit(block[0])
    ensures HexBounded(block + " |")
  {
    var g := block + " |";
    assert g[0] == block[0] && g[|g| - 1] == '|';
  }

  /** A grouped rendering of a non-empty range starts with a hex digit and ends with a hex digit or `|`. */
  lemma {:induction false} GroupedEnds(msg: seq<Byte>, k: nat)
    requires k <= |BLOCK_ENDS| && BlockStart(k) < |msg|
    ensures HexBounded(Grouped(msg, k))
    decreases |BLOCK_ENDS| - k
  {
    var lo := BlockStart(k);
    MarksOfBlock(k);
    if k == |BLOCK_ENDS| || |msg| < BLOCK_ENDS[k] {
      HexJoinEnds(msg[lo..|msg|], " ");
    } else if |msg| == BLOCK_ENDS[k] {
      HexJoinEnds(msg[lo..|msg|], " ");
      EndsWithSeparator(HexJoin(msg[lo..|msg|], " "));
    } else {
      var e := BLOCK_ENDS[k];
      HexJoinEnds(msg[lo..e], " ");
      GroupedEnds(msg, k + 1);
      EndsOfJoined(HexJoin(msg[lo..e], " "), Grouped(msg, k + 1));
    }
  }

  /**
   * With block separators, `msgToString` is the blocks (bytes 0-1, 2-3, 4-7, 8-15, 16-23, 24-)
   * each as space-joined hex, joined by ` | `, plus ` |` when the message ends at a block end.
   */
  lemma RenderedBlocks(msg: seq<Byte>)
    ensures Rendered(msg, true) == Grouped(msg, 0)
  {
    CellsGrouped(msg, 0);
    if |msg| > 0 {
      GroupedEnds(msg, 0);
      DigitsAreNotWhitespace();
      TrimTrailingSpace(Grouped(msg, 0));
    }
  }

  /** `msgToString` never begins or ends with whitespace, and is empty only for an empty message. */
  lemma RenderedHasNoOuterWhitespace(msg: seq<Byte>, separateBlocks: bool)
    ensures var r := Rendered(msg, separateBlocks);
            (r == [] <==> msg == []) && (r != [] ==> !IsWhitespace(r[0]) && !IsWhitespace(r[|r| - 1]))
  {
    DigitsAreNotWhitespace();
    if separateBlocks {
      RenderedBlocks(msg);
      if |msg| > 0 {
        GroupedEnds(msg, 0);
      }
    } else {
      RenderedPlain(msg);
      if |msg| > 0 {
        HexJoinEnds(msg, " ");
      }
    }
  }
}
