/** The USBDM command dispatcher of cmd_proc.c: the command frame holds its
    size in byte 0 and the command in byte 1; the response overwrites byte 0
    with a status code and bytes 1.. with results. In this revision only
    CMD_USBDM_GET_CAPABILITIES is implemented. */
module CommandProcessor {
  import opened Numeric
  import UsbDescriptors

  /** USBDM status codes used here (USBDM_ErrorCode). */
  const BDM_RC_OK: Byte := 0
  const BDM_RC_ILLEGAL_PARAMS: Byte := 1
  const BDM_RC_FAIL: Byte := 2
  const BDM_RC_BUSY: Byte := 3

  /** The command number of GET_CAPABILITIES in the USBDM protocol. */
  const CMD_USBDM_GET_CAPABILITIES: Byte := 5

  /** Build-time constants the dispatcher uses but that no shown header
      defines: the capability mask of the target, the HCS08 and CFV1 bits
      that are reported inverted, and the command-buffer length. */
  datatype BuildConfig = BuildConfig(targetCapability: bv16, invertedCapabilities: bv16, maxCommandSize: nat)

  /** The command buffer must hold the status byte and the seven capability bytes. */
  predicate ValidConfig(cfg: BuildConfig)
  {
    cfg.maxCommandSize >= 8
  }

  /** The reported capability word: the target's mask with the backwards-compatible bits flipped. */
  function ReportedCapabilities(cfg: BuildConfig): bv16
  {
    cfg.targetCapability ^ cfg.invertedCapabilities
  }

  /** The capability vector: capability word and buffer size, each most
      significant byte first, then the firmware version. */
  function CapabilityVector(cfg: BuildConfig): (v: seq<Byte>)
    ensures |v| == 7
    ensures (v[0] as int) * 256 + v[1] == ReportedCapabilities(cfg) as int
    ensures BigEndian(v[0..2], 256) == ReportedCapabilities(cfg) as int
    ensures BigEndian(v[2..4], 256) == cfg.maxCommandSize % 0x1_0000
    ensures v[4..] == [UsbDescriptors.VERSION_MAJOR, UsbDescriptors.VERSION_MINOR, UsbDescriptors.VERSION_MICRO]
  {
    var caps := ReportedCapabilities(cfg) as int;
    var v := [caps / 256, caps % 256,
              (cfg.maxCommandSize / 256) % 256, cfg.maxCommandSize % 256,
              UsbDescriptors.VERSION_MAJOR, UsbDescriptors.VERSION_MINOR, UsbDescriptors.VERSION_MICRO];
    TwoBytes(v[0], v[1]);
    TwoBytes(v[2], v[3]);
    assert v[0..2] == [v[0], v[1]];
    assert v[2..4] == [v[2], v[3]];
    HalfSplit(cfg.maxCommandSize);
    v
  }

  lemma TwoBytes(high: Byte, low: Byte)
    ensures BigEndian([high, low], 256) == (high as int) * 256 + low
  {
    assert [high, low][..1] == [high];
    assert [high][..0] == [];
    assert BigEndian([high], 256) == high;
  }

  /** The two low bytes of n, high then low, make up n modulo 2^16. */
  lemma HalfSplit(n: nat)
    ensures ((n / 256) % 256) * 256 + n % 256 == n % 0x1_0000
  {
    var q := n / 0x1_0000;
    var rest := n % 0x1_0000;
    assert n == q * 0x1_0000 + rest;
    assert n / 256 == q * 256 + rest / 256 by {
      DivModUnique(n, 256, q * 256 + rest / 256, rest % 256);
    }
    DivModUnique(n / 256, 256, q, rest / 256);
    assert n % 256 == rest % 256 by {
      DivModUnique(n, 256, q * 256 + rest / 256, rest % 256);
    }
  }

  /** How the host reads the capability word back: the first two vector
      bytes, most significant first, with the inverted bits flipped again. */
  function DecodeCapabilities(v: seq<Byte>, invertedCapabilities: bv16): bv16
    requires |v| >= 2
  {
    (((v[0] as int) * 256 + v[1]) as bv16) ^ invertedCapabilities
  }

  /** The inversion is an involution: the host recovers the target's
      capability mask from the vector. */
  lemma CapabilityInversionIsInvolution(cfg: BuildConfig)
    ensures DecodeCapabilities(CapabilityVector(cfg), cfg.invertedCapabilities) == cfg.targetCapability
  {
    var v := CapabilityVector(cfg);
    var w := ReportedCapabilities(cfg);
    var inverted := cfg.invertedCapabilities;
    assert DecodeCapabilities(v, inverted) == w ^ inverted by {
      DecodeWord(v, inverted, w);
    }
    assert w ^ inverted == cfg.targetCapability by {
      XorTwice(cfg.targetCapability, inverted);
    }
  }

  /** Two bytes that spell a word decode to that word, inverted bits flipped. */
  lemma DecodeWord(v: seq<Byte>, inverted: bv16, w: bv16)
    requires |v| >= 2 && (v[0] as int) * 256 + v[1] == w as int
    ensures DecodeCapabilities(v, inverted) == w ^ inverted
  {
    WordBackToBits(w, (v[0] as int) * 256 + v[1]);
  }

  lemma XorTwice(a: bv16, b: bv16)
    ensures (a ^ b) ^ b == a
  {
  }

  lemma WordBackToBits(w: bv16, x: int)
    requires x == w as int
    ensures x as bv16 == w
  {
  }

  /** What command_exec hands back: the updated command buffer and the
      number of its bytes that form the response. */
  datatype Response = Response(buffer: seq<Byte>, size: Byte)

  /** command_exec: dispatch on command_buffer[1]. GET_CAPABILITIES answers
      OK followed by the capability vector (8 bytes); every other command
      fails with a 1-byte response and leaves the rest of the buffer alone.
      The size byte command_buffer[0] is read but not used. */
  function CommandExec(buffer: seq<Byte>, cfg: BuildConfig): (r: Response)
    requires |buffer| >= 2
    requires buffer[1] == CMD_USBDM_GET_CAPABILITIES ==> |buffer| >= 8
    ensures |r.buffer| == |buffer|
    ensures r.size == 1 || r.size == 8
    ensures r.buffer[0] == (if buffer[1] == CMD_USBDM_GET_CAPABILITIES then BDM_RC_OK else BDM_RC_FAIL)
    ensures r.size == 8 <==> buffer[1] == CMD_USBDM_GET_CAPABILITIES
    ensures r.size == 8 ==> r.buffer[1..8] == CapabilityVector(cfg) && r.buffer[8..] == buffer[8..]
    ensures r.size == 1 ==> r.buffer[1..] == buffer[1..]
  {
    if buffer[1] == CMD_USBDM_GET_CAPABILITIES then
      var filled := GetCapabilities(buffer, cfg);
      Response(filled.buffer[0 := BDM_RC_OK], filled.size)
    else
      Response(buffer[0 := BDM_RC_FAIL], 1)
  }

  /** _cmd_usbdm_get_capabilities: copy the vector to bytes 1..7 and report
      one more byte than the vector holds. */
  function GetCapabilities(buffer: seq<Byte>, cfg: BuildConfig): (r: Response)
    requires |buffer| >= 8
    ensures |r.buffer| == |buffer| && r.size == 1 + |CapabilityVector(cfg)|
    ensures r.buffer[0] == buffer[0]
    ensures r.buffer[1..8] == CapabilityVector(cfg) && r.buffer[8..] == buffer[8..]
  {
    var v := CapabilityVector(cfg);
    Response(buffer[..1] + v + buffer[8..], 8)
  }

  /** The response never depends on the size byte the host sent. */
  lemma SizeByteIgnored(buffer: seq<Byte>, size: Byte, cfg: BuildConfig)
    requires |buffer| >= 2
    requires buffer[1] == CMD_USBDM_GET_CAPABILITIES ==> |buffer| >= 8
    ensures CommandExec(buffer[0 := size], cfg) == CommandExec(buffer, cfg)
  {
    var b := buffer[0 := size];
    if buffer[1] == CMD_USBDM_GET_CAPABILITIES {
      assert GetCapabilities(b, cfg).buffer[0 := BDM_RC_OK] == GetCapabilities(buffer, cfg).buffer[0 := BDM_RC_OK];
    } else {
      assert b[0 := BDM_RC_FAIL] == buffer[0 := BDM_RC_FAIL];
    }
  }
}
