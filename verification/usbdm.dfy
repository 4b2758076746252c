/** USB command-frame reassembly and the vendor control request of usbdm.c.

    A command arrives on the bulk OUT endpoint in one or two packets. The
    first packet starts with the size of the whole command (nonzero); a
    continuation packet starts with 0, which is dropped: the continuation's
    payload goes straight after the first packet's bytes. When the number
    of bytes received equals the announced size, the command is executed
    and the response is sent back. The USB stack itself (reading packets,
    writing responses, control transfers) is the boundary of the model. */
module Usbdm {
  import opened Numeric
  import opened CommandProcessor
  import UsbDescriptors

  // ---------------------------------------------------------------------------
  // Frame reassembly
  // ---------------------------------------------------------------------------

  /** The static reassembly state of usbdm.c. */
  datatype Receiver = Receiver(
    buffer: seq<Byte>,      // command_buffer[MAX_COMMAND_SIZE]
    commandSize: Byte,      // command_size: announced size of the frame
    offset: Byte,           // offset: bytes of the frame received so far
    savedByte: Byte,        // saved_byte: last byte of the first packet
    firstReceived: bool)    // first_pkt_received

  predicate ValidReceiver(s: Receiver, cfg: BuildConfig)
  {
    ValidConfig(cfg) && |s.buffer| == cfg.maxCommandSize
  }

  /** The state at power-up (static storage is zeroed). */
  function InitialReceiver(cfg: BuildConfig): (s: Receiver)
    requires ValidConfig(cfg)
    ensures ValidReceiver(s, cfg) && !s.firstReceived && s.offset == 0
  {
    Receiver(seq(cfg.maxCommandSize, _ => 0), 0, 0, 0, false)
  }

  /** The outcome of handling one packet: the new state, the status returned,
      the frame handed to command_exec and the bytes given to
      send_USB_response (both empty while the frame is incomplete). */
  datatype Reception = Reception(receiver: Receiver, status: Byte, frame: seq<Byte>, response: seq<Byte>)

  /** Where the first packet's last byte is read from when it is saved. */
  datatype SaveSource = FromPacket | FromCommandBuffer

  /** The writes of a packet stay inside command_buffer: a first packet is
      copied at `offset`, a continuation one byte earlier (over the dropped
      zero), so it needs offset >= 1. The packet is at least one byte (its
      first byte is read) and at most MAX_COMMAND_SIZE, the read limit; its
      byte count is held in 8 bits. */
  predicate Accepts(s: Receiver, packet: seq<Byte>, cfg: BuildConfig)
  {
    ValidReceiver(s, cfg)
    && 1 <= |packet| <= cfg.maxCommandSize && |packet| < 256
    && (packet[0] != 0 ==> s.offset + |packet| <= |s.buffer|)
    && (packet[0] == 0 ==> 1 <= s.offset && s.offset - 1 + |packet| <= |s.buffer|)
  }

  /** How far a packet advances `offset`: all its bytes, less the dropped
      zero of a continuation. */
  function Advance(packet: seq<Byte>): nat
    requires |packet| >= 1
  {
    if packet[0] != 0 then |packet| else |packet| - 1
  }

  /** `offset` after the packet: the 8-bit `offset += byte_count`. */
  function OffsetAfter(s: Receiver, packet: seq<Byte>): Byte
    requires |packet| >= 1
  {
    (s.offset + Advance(packet)) % 256
  }

  /** The lines after `offset += byte_count`: run the command once the
      frame is complete and reset, otherwise report BUSY. */
  function Complete(s: Receiver, cfg: BuildConfig): (r: Reception)
    requires ValidReceiver(s, cfg)
    ensures ValidReceiver(r.receiver, cfg)
    ensures r.receiver.commandSize == s.commandSize && r.receiver.savedByte == s.savedByte
    ensures s.offset == s.commandSize ==>
              r.frame == s.buffer
              && r.receiver.offset == 0 && !r.receiver.firstReceived
              && r.receiver.buffer == CommandExec(s.buffer, cfg).buffer
              && r.status == r.receiver.buffer[0]
              && r.response == r.receiver.buffer[..CommandExec(s.buffer, cfg).size]
    ensures s.offset != s.commandSize ==> r == Reception(s, BDM_RC_BUSY, [], [])
  {
    if s.offset == s.commandSize then
      var done := CommandExec(s.buffer, cfg);
      Reception(s.(buffer := done.buffer, firstReceived := false, offset := 0),
                done.buffer[0], s.buffer, done.buffer[..done.size])
    else
      Reception(s, BDM_RC_BUSY, [], [])
  }

  /** `after` is `before` with `bytes` copied in at `at`: the bytes before
      and after the copy keep their values, as memcpy leaves them. */
  predicate PacketStored(before: seq<Byte>, after: seq<Byte>, at: nat, bytes: seq<Byte>)
  {
    |after| == |before| && at + |bytes| <= |before|
    && after[..at] == before[..at]
    && after[at..at + |bytes|] == bytes
    && after[at + |bytes|..] == before[at + |bytes|..]
  }

  /** memcpy(buffer + at, bytes, |bytes|). */
  function Memcpy(buffer: seq<Byte>, at: nat, bytes: seq<Byte>): (after: seq<Byte>)
    requires at + |bytes| <= |buffer|
    ensures PacketStored(buffer, after, at, bytes)
  {
    var after := buffer[..at] + bytes + buffer[at + |bytes|..];
    assert after[..at] == buffer[..at];
    assert after[at..at + |bytes|] == bytes;
    assert after[at + |bytes|..] == buffer[at + |bytes|..];
    after
  }

  /** A first packet (nonzero first byte): record the announced size and
      save a byte if no frame is in progress, clamp the size to the buffer,
      and copy the packet at `offset`. */
  function StoreFirst(s: Receiver, packet: seq<Byte>, cfg: BuildConfig, source: SaveSource): (t: Receiver)
    requires Accepts(s, packet, cfg) && packet[0] != 0
    ensures ValidReceiver(t, cfg) && t.firstReceived
    ensures !s.firstReceived ==>
              t.commandSize == (if packet[0] > cfg.maxCommandSize then cfg.maxCommandSize else packet[0])
              && t.savedByte == (if source.FromPacket? then packet[|packet| - 1] else s.buffer[|packet| - 1])
    ensures s.firstReceived && s.commandSize <= cfg.maxCommandSize ==>
              t.commandSize == s.commandSize && t.savedByte == s.savedByte
    ensures t.commandSize <= cfg.maxCommandSize
    ensures t.offset == (s.offset + |packet|) % 256 == OffsetAfter(s, packet)
    ensures PacketStored(s.buffer, t.buffer, s.offset, packet)
  {
    var n := |packet|;
    var size := if s.firstReceived then s.commandSize else packet[0];
    var saved := if s.firstReceived then s.savedByte
                 else if source.FromPacket? then packet[n - 1] else s.buffer[n - 1];
    var clamped := if size > cfg.maxCommandSize then cfg.maxCommandSize else size;
    Receiver(Memcpy(s.buffer, s.offset, packet), clamped, (s.offset + n) % 256, saved, true)
  }

  /** A continuation (first byte 0): copy it one byte before `offset`, put
      the saved byte back over its leading zero, and count only its payload. */
  function StoreContinuation(s: Receiver, packet: seq<Byte>, cfg: BuildConfig): (t: Receiver)
    requires Accepts(s, packet, cfg) && packet[0] == 0
    ensures ValidReceiver(t, cfg)
    ensures t.commandSize == s.commandSize && t.savedByte == s.savedByte && t.firstReceived == s.firstReceived
    ensures t.offset == (s.offset + |packet| - 1) % 256 == OffsetAfter(s, packet)
    ensures PacketStored(s.buffer, t.buffer, s.offset - 1, [s.savedByte] + packet[1..])
    ensures t.buffer[s.offset - 1] == s.savedByte
    ensures t.buffer[s.offset..s.offset + |packet| - 1] == packet[1..]
  {
    var n := |packet|;
    var restored := [s.savedByte] + packet[1..];
    var buffer := Memcpy(s.buffer, s.offset - 1, restored);
    assert buffer[s.offset - 1..s.offset - 1 + n] == restored;
    assert buffer[s.offset..s.offset + n - 1] == restored[1..];
    s.(buffer := buffer, offset := (s.offset + n - 1) % 256)
  }

  /** The state after a packet has been stored, before the completion test. */
  function Deliver(s: Receiver, packet: seq<Byte>, cfg: BuildConfig, source: SaveSource): (t: Receiver)
    requires Accepts(s, packet, cfg)
    ensures ValidReceiver(t, cfg)
    ensures t.offset == OffsetAfter(s, packet)
  {
    if packet[0] != 0 then StoreFirst(s, packet, cfg, source) else StoreContinuation(s, packet, cfg)
  }

  /** receive_USB_command as intended: the byte saved for the continuation
      is the last byte of the first packet. */
  function ReceiveUsbCommand(s: Receiver, packet: seq<Byte>, cfg: BuildConfig): (r: Reception)
    requires Accepts(s, packet, cfg)
    ensures ValidReceiver(r.receiver, cfg)
    // A first packet of a new frame announces the size (clamped to the
    // buffer) and saves its last byte; later first packets change neither.
    ensures packet[0] != 0 && !s.firstReceived ==>
              r.receiver.commandSize == (if packet[0] > cfg.maxCommandSize then cfg.maxCommandSize else packet[0])
              && r.receiver.savedByte == packet[|packet| - 1]
    ensures packet[0] != 0 && s.firstReceived && s.commandSize <= cfg.maxCommandSize ==>
              r.receiver.commandSize == s.commandSize && r.receiver.savedByte == s.savedByte
    ensures packet[0] != 0 ==> r.receiver.commandSize <= cfg.maxCommandSize
    ensures packet[0] == 0 ==> r.receiver.commandSize == s.commandSize && r.receiver.savedByte == s.savedByte
    // The frame completes exactly when the received count reaches the announced size.
    ensures var offset := OffsetAfter(s, packet);
            (offset == r.receiver.commandSize ==>
               |r.frame| == |s.buffer|
               && r.response == CommandExec(r.frame, cfg).buffer[..CommandExec(r.frame, cfg).size]
               && r.status == r.response[0]
               && r.receiver.buffer == CommandExec(r.frame, cfg).buffer
               && r.receiver.offset == 0 && !r.receiver.firstReceived)
            && (offset != r.receiver.commandSize ==>
               r.status == BDM_RC_BUSY && r.response == [] && r.frame == []
               && r.receiver.offset == offset
               && (r.receiver.firstReceived <==> s.firstReceived || packet[0] != 0))
    // Where the packet's bytes land.
    ensures var frame := if OffsetAfter(s, packet) == r.receiver.commandSize
                         then r.frame else r.receiver.buffer;
            (packet[0] != 0 ==> PacketStored(s.buffer, frame, s.offset, packet))
            && (packet[0] == 0 ==> PacketStored(s.buffer, frame, s.offset - 1, [s.savedByte] + packet[1..]))
  {
    var t := if packet[0] != 0 then StoreFirst(s, packet, cfg, FromPacket)
             else StoreContinuation(s, packet, cfg);
    Complete(t, cfg)
  }

  /** receive_USB_command as written: the byte saved for the continuation is
      read from command_buffer, at the index of the packet's last byte,
      before the packet has been copied there. */
  function ReceiveUsbCommandAsWritten(s: Receiver, packet: seq<Byte>, cfg: BuildConfig): (r: Reception)
    requires Accepts(s, packet, cfg)
    ensures ValidReceiver(r.receiver, cfg)
    ensures packet[0] != 0 && !s.firstReceived ==> r.receiver.savedByte == s.buffer[|packet| - 1]
  {
    Complete(Deliver(s, packet, cfg, FromCommandBuffer), cfg)
  }

  /** The size announced by a frame never exceeds the buffer once a first
      packet has been seen. */
  lemma CommandSizeStaysInBuffer(s: Receiver, packet: seq<Byte>, cfg: BuildConfig)
    requires Accepts(s, packet, cfg) && s.commandSize <= cfg.maxCommandSize
    ensures ReceiveUsbCommand(s, packet, cfg).receiver.commandSize <= cfg.maxCommandSize
  {
  }

  /** A command that fits one packet runs as soon as it arrives, on exactly
      the packet's bytes. */
  lemma SinglePacketCommand(s: Receiver, packet: seq<Byte>, cfg: BuildConfig)
    requires ValidReceiver(s, cfg) && !s.firstReceived && s.offset == 0
    requires 1 <= |packet| <= cfg.maxCommandSize && |packet| < 256 && packet[0] == |packet|
    ensures var r := ReceiveUsbCommand(s, packet, cfg);
            packet <= r.frame
            && r.response == CommandExec(r.frame, cfg).buffer[..CommandExec(r.frame, cfg).size]
            && r.receiver.offset == 0 && !r.receiver.firstReceived
  {
  }

  /** A command sent as a first packet and a continuation is executed on the
      first packet's bytes followed by the continuation's payload. */
  lemma TwoPacketCommand(s: Receiver, first: seq<Byte>, second: seq<Byte>, cfg: BuildConfig)
    requires ValidReceiver(s, cfg) && !s.firstReceived && s.offset == 0
    requires 1 <= |first| && 2 <= |second| && second[0] == 0
    requires first[0] == |first| + |second| - 1 <= cfg.maxCommandSize
    ensures var r1 := ReceiveUsbCommand(s, first, cfg);
            r1.status == BDM_RC_BUSY
            && Accepts(r1.receiver, second, cfg)
            && var r2 := ReceiveUsbCommand(r1.receiver, second, cfg);
               first + second[1..] <= r2.frame
               && r2.response == CommandExec(r2.frame, cfg).buffer[..CommandExec(r2.frame, cfg).size]
               && r2.receiver.offset == 0 && !r2.receiver.firstReceived
  {
    var n := |first|;
    var t1 := StoreFirst(s, first, cfg, FromPacket);
    var r1 := ReceiveUsbCommand(s, first, cfg);
    assert r1.status == BDM_RC_BUSY && r1.receiver == t1
           && t1.offset == n && t1.savedByte == first[n - 1] && t1.buffer[..n] == first by {
      FirstPacketWaits(s, first, cfg);
    }
    var frame := StoreContinuation(t1, second, cfg).buffer;
    assert Accepts(t1, second, cfg)
           && var r2 := ReceiveUsbCommand(t1, second, cfg);
              r2.frame == frame
              && r2.response == CommandExec(r2.frame, cfg).buffer[..CommandExec(r2.frame, cfg).size]
              && r2.receiver.offset == 0 && !r2.receiver.firstReceived by {
      ContinuationCompletes(t1, second, cfg);
    }
    // The frame is the first packet, its last byte restored, then the payload.
    assert first + second[1..] <= frame by {
      assert frame[..n - 1] == first[..n - 1] by {
        assert frame[..n - 1] == t1.buffer[..n - 1];
        assert t1.buffer[..n - 1] == t1.buffer[..n][..n - 1];
      }
      FrameSplice(frame, first, second[1..]);
    }
  }

  /** A frame that holds a packet and then a payload starts with their concatenation. */
  lemma FrameSplice(frame: seq<Byte>, first: seq<Byte>, payload: seq<Byte>)
    requires 1 <= |first| && |first| + |payload| <= |frame|
    requires frame[..|first| - 1] == first[..|first| - 1] && frame[|first| - 1] == first[|first| - 1]
    requires frame[|first|..|first| + |payload|] == payload
    ensures first + payload <= frame
  {
    var n := |first|;
    assert frame[..n] == first by {
      assert frame[..n] == frame[..n - 1] + [frame[n - 1]];
      assert first == first[..n - 1] + [first[n - 1]];
    }
    assert frame[..n + |payload|] == frame[..n] + frame[n..n + |payload|];
  }

  /** A first packet shorter than the frame it announces is stored and
      reported BUSY. */
  lemma FirstPacketWaits(s: Receiver, first: seq<Byte>, cfg: BuildConfig)
    requires ValidReceiver(s, cfg) && !s.firstReceived && s.offset == 0
    requires 1 <= |first| < first[0] as int <= cfg.maxCommandSize
    ensures var t := StoreFirst(s, first, cfg, FromPacket);
            ReceiveUsbCommand(s, first, cfg) == Reception(t, BDM_RC_BUSY, [], [])
            && t.commandSize == first[0] && t.offset == |first| && t.savedByte == first[|first| - 1]
            && t.buffer[..|first|] == first
  {
    assert Accepts(s, first, cfg);
    var t := StoreFirst(s, first, cfg, FromPacket);
    assert t.offset == |first| by { assert |first| < 256; }
    assert t.buffer[0..|first|] == first;
  }

  /** A continuation that brings the count up to the announced size
      completes the frame. */
  lemma ContinuationCompletes(t: Receiver, second: seq<Byte>, cfg: BuildConfig)
    requires ValidReceiver(t, cfg) && 1 <= t.offset && 2 <= |second| && second[0] == 0
    requires t.offset + |second| - 1 == t.commandSize as int <= cfg.maxCommandSize
    ensures Accepts(t, second, cfg)
    ensures var r := ReceiveUsbCommand(t, second, cfg);
            r.frame == StoreContinuation(t, second, cfg).buffer
            && r.response == CommandExec(r.frame, cfg).buffer[..CommandExec(r.frame, cfg).size]
            && r.receiver.offset == 0 && !r.receiver.firstReceived
  {
  }

  /** As written, a two-packet command reaches command_exec with a zero in
      place of the first packet's last byte (here 0xAA). */
  lemma StaleSavedByteCorruptsFrame()
    ensures var cfg := BuildConfig(0, 0, 8);
            var s := InitialReceiver(cfg);
            var first: seq<Byte> := [4, 0x10, 0xAA];
            var second: seq<Byte> := [0, 0xBB];
            var r1 := ReceiveUsbCommandAsWritten(s, first, cfg);
            Accepts(r1.receiver, second, cfg)
            && var r2 := ReceiveUsbCommandAsWritten(r1.receiver, second, cfg);
               [4, 0x10, 0, 0xBB] <= r2.frame
               && !(first + second[1..] <= r2.frame)
  {
    var cfg := BuildConfig(0, 0, 8);
    var s := InitialReceiver(cfg);
    var first: seq<Byte> := [4, 0x10, 0xAA];
    var second: seq<Byte> := [0, 0xBB];
    var t1 := StoreFirst(s, first, cfg, FromCommandBuffer);
    var r1 := ReceiveUsbCommandAsWritten(s, first, cfg);
    assert r1.receiver == t1 && t1.savedByte == 0 && t1.offset == 3 && t1.commandSize == 4 by {
      assert s.buffer[2] == 0;
      assert r1 == Complete(t1, cfg);
    }
    assert t1.buffer[..2] == [4, 0x10] by {
      assert t1.buffer[..3] == first;
      assert t1.buffer[..2] == t1.buffer[..3][..2];
    }
    var t2 := StoreContinuation(t1, second, cfg);
    var r2 := ReceiveUsbCommandAsWritten(t1, second, cfg);
    assert r2.frame == t2.buffer by {
      assert t2.offset == 4;
      assert r2 == Complete(t2, cfg);
    }
    assert [4, 0x10, 0, 0xBB] <= t2.buffer by {
      assert t2.buffer[..2] == [4, 0x10];
      assert t2.buffer[2] == 0;
      assert t2.buffer[3..4] == [0xBB];
    }
    assert (first + second[1..])[2] == 0xAA;
  }

  /** send_USB_error_response: the code goes to command_buffer[0], the first
      `size` bytes are sent, and the code is returned. */
  function SendUsbErrorResponse(s: Receiver, code: Byte, size: Byte, cfg: BuildConfig): (r: (Receiver, Byte, seq<Byte>))
    requires ValidReceiver(s, cfg) && size <= cfg.maxCommandSize
    ensures ValidReceiver(r.0, cfg)
    ensures r.1 == code && r.0.buffer[0] == code
    ensures forall i :: 1 <= i < |s.buffer| ==> r.0.buffer[i] == s.buffer[i]
    ensures |r.2| == size && (size >= 1 ==> r.2 == [code] + s.buffer[1..size])
    ensures r.2 == r.0.buffer[..size]
    ensures r.0 == s.(buffer := r.0.buffer)
  {
    var buffer := s.buffer[0 := code];
    (s.(buffer := buffer), code, buffer[..size])
  }

  /** Reporting the same error twice leaves the receiver and the reply as
      reporting it once: the only byte written is the code itself. */
  lemma ErrorResponseIdempotent(s: Receiver, code: Byte, size: Byte, cfg: BuildConfig)
    requires ValidReceiver(s, cfg) && size <= cfg.maxCommandSize
    ensures var once := SendUsbErrorResponse(s, code, size, cfg);
            SendUsbErrorResponse(once.0, code, size, cfg) == once
  {
    var once := SendUsbErrorResponse(s, code, size, cfg);
    var twice := SendUsbErrorResponse(once.0, code, size, cfg);
    assert twice.0.buffer == once.0.buffer;
  }

  // ---------------------------------------------------------------------------
  // Vendor control requests
  // ---------------------------------------------------------------------------

  /** The GET_VER request on the control endpoint. */
  const CMD_USBDM_GET_VER: Byte := 12

  /** VERSION_HW: JM-series hardware, model 9S08JMxxCLD. */
  const HW_JM: Byte := 0x80
  const H_USBDM_JMxxCLD: Byte := 7
  const VERSION_HW: Byte := HW_JM + H_USBDM_JMxxCLD

  /** Stages of a control transfer. */
  datatype ControlStage = Setup | DataStage | Ack

  /** bmRequestType's type field. */
  datatype RequestType = Standard | Class | Vendor | Reserved

  datatype ControlRequest = ControlRequest(requestType: RequestType, request: Byte)

  /** The callback's decision: accept the stage, stall, or answer with data
      (the callback then returns what the control transfer returns). */
  datatype ControlDecision = Accept | Stall | Answer(data: seq<Byte>)

  /** The GET_VER answer: status, BDM software and hardware version, ICP
      software and hardware version. */
  function VersionReply(): seq<Byte>
  {
    [BDM_RC_OK, UsbDescriptors.VERSION_SW, VERSION_HW, 0, VERSION_HW]
  }

  /** tud_vendor_control_xfer_cb. */
  function VendorControl(stage: ControlStage, req: ControlRequest): (d: ControlDecision)
    ensures d.Accept? <==> stage != Setup
    ensures d.Answer? <==> stage == Setup && req.requestType == Vendor && req.request == CMD_USBDM_GET_VER
    ensures d.Answer? ==> d.data == [0, 0x4C, 0x87, 0, 0x87]
    ensures d.Stall? <==> stage == Setup && (req.requestType != Vendor || req.request != CMD_USBDM_GET_VER)
  {
    if stage != Setup then Accept
    else if req.requestType != Vendor then Stall
    else if req.request == CMD_USBDM_GET_VER then Answer(VersionReply())
    else Stall
  }

  /** The version the control request reports agrees with the capability
      vector of CMD_USBDM_GET_CAPABILITIES: its software byte is that
      vector's major and minor packed as two nibbles, and the BDM and ICP
      hardware bytes name the same hardware. */
  lemma VersionReplyMatchesCapabilities(cfg: BuildConfig)
    ensures var v := CapabilityVector(cfg);
            VersionReply()[1] == v[4] * 16 + v[5] && v[5] < 16
    ensures VersionReply()[2] == VersionReply()[4]
  {
  }
}
