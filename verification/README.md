# USBDM-Pi BDM adapter: a Dafny model

This project models the core of the USBDM-Pi firmware. The firmware runs on an
RP2040 and acts as a USBDM BDM adapter for HCS08 targets. A host sends USBDM
commands over a vendor-class USB bulk endpoint. The firmware reassembles each
command frame, dispatches it, and answers. Target access goes through a
single-wire BDM link, which a PIO state machine drives.

The model is split by source file:

- `numeric.dfy` (`Numeric`): bytes, 16-bit and 32-bit words as bounded
  integers, powers, and big- and little-endian digit strings. C `uint`
  wrap-around is written out as `% 2^32`.
- `opcodes.dfy` (`Opcodes`): the HCS08 BDM command bytes of `bdm.h`.
- `codecs.dfy` (`Codecs`): the leaf helpers of `functions.c`.
- `pio.dfy` (`Pio`): word alignment for the TX FIFO, the PULL_THRESH
  rewrite of SHIFTCTRL, and the ordered PIO writes of one BDM data command
  (`pio_functions.c`).
- `bdm.dfy` (`Bdm`): the transaction engine of `bdm.c`. It covers the
  lazy-initialisation flags, the data-buffer layout, `_make_data`,
  `bdm_command_exec`, SYNC and every command wrapper. The PIO and the
  target are an oracle `Hardware(syncTicks, reply)`. The engine's effects
  are an ordered event trace: claim the state machine, run SYNC, load the
  data program, transfer a word.
- `cmdproc.dfy` (`CommandProcessor`): `command_exec`, the capability vector
  and `_cmd_usbdm_get_capabilities` (`cmd_proc.c`).
- `usbdm.dfy` (`Usbdm`): frame reassembly in `receive_USB_command`,
  `send_USB_error_response` and the vendor control callback (`usbdm.c`).
- `descriptors.dfy` (`UsbDescriptors`): `tud_descriptor_string_cb` and the
  version constants (`usb_descriptors.c`, `usb_descriptors.h`).

Inputs that the firmware reads from hardware become parameters:

- the packet bytes that `tud_vendor_read` returns;
- the SYNC tick count;
- the word received for a transfer;
- the SHIFTCTRL register contents;
- the PIO program offset.

Three build constants appear in no file of the model: `TARGET_CAPABILITY`,
`CAP_HCS08|CAP_CFV1` and `MAX_COMMAND_SIZE`. They are fields of a
`BuildConfig` record. The model only requires the command buffer to hold the
8-byte capability response.

`CMD_USBDM_GET_CAPABILITIES` takes the value 5 from the command list in
cmd_proc.c:15. Its defining header is not part of this model.

Where the code and its comments disagree, the model follows the code:

- `bdm.h` names the first two data-buffer slots `TX_BIT_COUNT` and
  `RX_BIT_COUNT`, but `bdm.c` indexes them as `TX_BYTE_COUNT` and
  `RX_BYTE_COUNT`. They hold byte counts, and `bdm_command_exec` multiplies
  them by 8 into 8-bit locals.
- `bdm.h` defines no `THIRD_PARAMETER`. The model uses slot 5, the next slot
  after `SECOND_PARAMETER` = 4.
- The prototype `uint8_t* bdm_cmd_read_status(void)` (bdm.h:57) does not
  match the definition at bdm.c:149, which takes `command_buffer` and returns
  nothing. The model follows the definition.
- The comment on `bdm_cmd_read_status` places the status at `[3]`. The code
  writes `command_buffer[4]`, and so does the model.
- `bdm_command_exec` and `bdm_cmd_sync` declare a local `uint sm` that
  shadows the static `sm` (bdm.c:67, 115), so the claimed state machine
  number is dropped. The model records only that a claim happened
  (`ClaimSm`). It does not say which state machine is used afterwards.

## Model

| member | source | states |
|---|---|---|
| Codecs.CountChar | functions.c:11-24 | the count is the multiplicity of `c` in the string; it is at most the length, and equals the length exactly when every character is `c` |
| Codecs.CountCommands | functions.c:5-8 | the number of commands on a line is the number of delimiter occurrences |
| Codecs.IsInputDataValid | functions.c:27-48 | accepted exactly when the field is 2 or 4 characters and every character is `?` |
| Codecs.IsOutputDataValid | functions.c:50-71 | accepted exactly when the field is 2 or 4 characters and no character is `?` |
| Codecs.InputOutputExclusive | functions.c:27-71 | no string is accepted by both validators |
| Codecs.Hex2Int | functions.c:80-89 | the result is -1 exactly for non-hex characters; otherwise it is the digit's value 0..15, in either case |
| Codecs.Hex2IntInvertsDigits | functions.c:80-89 | decoding the upper-case or lower-case digit for d gives back d |
| Codecs.Hex2IntCaseInsensitive | functions.c:84-87 | 'a'..'f' decode like 'A'..'F', to values of at least 10 |
| Codecs.Nibble2Byte | functions.c:92-95 | with both nibbles below 16, the result is a byte whose low nibble is the first argument and whose high nibble is the second |
| Codecs.HexPairDecodes | functions.c:80-95 | two hex digits, high first, combine to their base-16 value |
| Codecs.Array2Dec | functions.c:98-111 | the result is the bit array read least significant first, or, when reversed, most significant first, which is the reversed array read least significant first; modulo 2^32; a 0/1 array of n entries gives a value below 2^n |
| Codecs.ReversedReading | functions.c:101-108 | reading a bit array most significant entry first gives the same value as reading its reverse least significant entry first |
| Codecs.PackStep | functions.c:103-108 | one iteration adds entry i at weight 2^index, in wrapping 32-bit arithmetic |
| Codecs.IsCommandValid | functions.c:114-153 | a command byte is accepted exactly when it is one of the 29 BDM command bytes of bdm.h |
| Codecs.IsCommandSync | functions.c:180-183 | true exactly when the token is "SYNC" |
| Pio.Align | pio_functions.c:63-73 | without right shifting, the pushed word holds the low `bit` bits of the data at its top and zeros below; with right shifting, the data is pushed as is |
| Pio.AlignRoundTrip | pio_functions.c:66-70 | shifting left by 32 - bit places and truncating to 32 bits keeps the data modulo 2^bit, and dividing the shift back out recovers it |
| Pio.PutTxFifo | pio_functions.c:63-73 | the FIFO gains exactly one word after its old contents: the data itself when the state machine shifts right, otherwise the data's low `bit` bits moved to the top of the word with zeros below |
| Pio.FillTxFifo | pio_functions.c:53-60 | the first `length` data words are pushed in index order, each aligned, behind the old contents |
| Pio.SetPullThreshold | pio_functions.c:109-113 | every SHIFTCTRL bit outside PULL_THRESH is kept, and PULL_THRESH reads back as the threshold modulo 32 |
| Pio.SetPullThresholdIdempotent | pio_functions.c:109-113 | writing the same threshold twice gives the same register as writing it once |
| Pio.PullThresholdFieldValues | pio_functions.c:111-112 | a 32-bit threshold is stored as 0; thresholds below 32 are stored unchanged |
| Pio.DoBdmCommand | pio_functions.c:157-168 | three writes in this order: the pull threshold set to the transmit bit count (other SHIFTCTRL bits kept); `set x, rx_bit` at offset+1; the data word left-aligned to the transmit bit count, pushed last |
| Bdm.Store | bdm.c:27-34 | the layout fits exactly when header plus parameters fit the buffer; the counts, command byte and parameters land in their slots and later slots keep their old contents; otherwise the first write out of bounds is at the buffer's length |
| Bdm.Pack | bdm.c:42-45 | the shift-and-OR loop yields the bytes read most significant first, modulo 2^32 |
| Bdm.MakeData | bdm.c:37-48 | the word is the `buffer[0]` bytes starting at the command slot, most significant first, modulo 2^32 |
| Bdm.MakeDataExact | bdm.c:37-48 | 1..4 bytes pack without loss into a value below 2^(8n) whose top byte is the first byte |
| Bdm.StoreThenMakeData | bdm.c:37-48 | a layout of at most 4 bytes stored in the 6-slot buffer reads back through `_make_data` as the command byte then the parameters, with the stored byte counts |
| Bdm.Boot | bdm.c:10-18 | at power-up no state machine is claimed, no data program is loaded and no frequency is known |
| Bdm.Sync | bdm.c:110-136 | afterwards the state machine is claimed, the frequency is known and derived from the 16-bit truncated tick count, and the data program is unloaded; the events are exactly an optional claim (present exactly when none had happened) followed by the SYNC run, and no program load |
| Bdm.ZeroTickSyncIsAccepted | bdm.c:121-135 | a SYNC that measures 0 ticks (after the 16-bit truncation) is not rejected: the frequency is marked known, derived from the zero count, and the next transaction loads the data program at it |
| Bdm.Prepare | bdm.c:64-85 | afterwards all three flags are set; a claim, SYNC and load happen exactly when the state machine was unclaimed, the frequency unknown, and the frequency unknown or program unloaded; the load uses the new frequency |
| Bdm.Exec | bdm.c:62-105 | the initialisation is followed by exactly one transfer of `_make_data`'s word with 8 bits per sent byte and the received bit count; the result is the word received for that transfer |
| Bdm.SyncLength | bdm.c:138-142 | the length is a multiple of 4; while 60*ticks fits 16 bits it is exactly 60 times the stored tick count |
| Bdm.CommandOf | bdm.c:149-396 | every wrapper's layout sends 1 + parameters bytes (at most 4), receives at most 2 bytes, and uses a command byte that `is_command_valid` accepts |
| Bdm.CommandTable | bdm.c:149-396 | the per-wrapper send and receive byte counts and command bytes (e.g. 0xC0 with three parameters for write_byte, 0xE0 with two for read_byte) |
| Bdm.IssueCommand | bdm.c:62-105 | storing a layout and running the engine transfers the command byte and parameters as one word, 8 bits per byte each way; the result is the reply to that word; claim, SYNC and program load happen exactly when needed, a SYNC keeps the 16-bit tick count and precedes a load at the measured frequency, and a known frequency with the program unloaded reloads it at the kept frequency |
| Bdm.Issue | bdm.c:62-105 | the same, for the layout each wrapper writes |
| Bdm.ReadStatusRegister | bdm.c:149-161 | the low byte of the received word goes to `command_buffer[4]` and nothing else in the buffer changes |
| Bdm.ReadReg8 | bdm.c:189-219 | `command_buffer[3]` becomes 0 and `[4]` the received byte; the rest is unchanged |
| Bdm.ReadReg16 | bdm.c:221-267 | `command_buffer[3..4]` hold the received 16-bit value, high byte first; the rest is unchanged |
| Bdm.WriteReg8 | bdm.c:269-293 | sends the register's write command with `command_buffer[7]` as its parameter |
| Bdm.WriteReg16 | bdm.c:295-335 | sends the register's write command with `command_buffer[6]` then `[7]` |
| Bdm.GoCommand | bdm.c:163-175 | sends GO; afterwards the frequency is no longer known, while the state machine stays claimed and the data program loaded; the tick count and frequency are kept if they were known before, otherwise the tick count is the freshly measured one |
| Bdm.HaltCommand | bdm.c:177-187 | sends BACKGROUND; the engine stays fully initialised with the frequency known, keeping the tick count and frequency it had if they were known, otherwise the freshly measured tick count |
| Bdm.WriteMemoryByte | bdm.c:338-351 | sends WRITE_BYTE, address high, address low and data as one 4-byte transfer |
| Bdm.WriteNextByte | bdm.c:353-364 | sends WRITE_NEXT followed by the data byte |
| Bdm.ReadMemoryByte | bdm.c:366-381 | sends READ_BYTE, address high and address low as one 24-bit word and returns the low byte of the reply |
| Bdm.ReadNextByte | bdm.c:383-396 | sends READ_NEXT and returns the low byte of the reply |
| Bdm.FirstTransactionInitialises | bdm.c:64-92 | the first transaction after power-up claims, runs SYNC, loads the data program at the measured frequency, then transfers, in that order |
| Bdm.WarmTransactionOnlyTransfers | bdm.c:64-92 | with everything initialised, a transaction is one transfer and the measured frequency is unchanged |
| Bdm.GoForcesResync | bdm.c:163-175 | the transaction after GO re-runs SYNC, reloads the data program at the new frequency, then transfers |
| Bdm.ClaimIsPermanent | bdm.c:64-70 | once claimed, the state machine stays claimed and is never claimed again |
| Bdm.OpcodeOnWire | bdm.c:88-92 | the last event of any wrapper's transaction is a transfer, and the word do_bdm_command pushes for it carries that wrapper's BDM command byte in bits 31..24 |
| Bdm.LeadingByteOnTop | pio_functions.c:66-70 | left-aligning 1..4 packed bytes puts the first byte in bits 31..24 |
| Bdm.WriteByteOverrunsDeclaredBuffer | bdm.c:339-346 | in the 5-slot buffer bdm.h declares, write_byte's layout writes index 5, past the end |
| Bdm.EveryCommandFitsDataBuffer | bdm.c:27-48 | with 6 slots every wrapper's layout fits, and `_make_data` reads back exactly the command byte then the parameters |
| CommandProcessor.CapabilityVector | cmd_proc.c:94-109 | 7 bytes: the inverted capability word high byte first, the buffer size modulo 2^16 high byte first, then major, minor, micro version |
| CommandProcessor.CapabilityInversionIsInvolution | cmd_proc.c:97-101 | flipping the HCS08/CFV1 bits of the first two vector bytes again gives back the target's capability mask |
| CommandProcessor.CommandExec | cmd_proc.c:64-88 | GET_CAPABILITIES answers OK with an 8-byte response holding the vector in bytes 1..7; any other command answers FAIL with a 1-byte response and leaves bytes 1.. untouched |
| CommandProcessor.GetCapabilities | cmd_proc.c:117-124 | the vector is copied to bytes 1..7, the rest of the buffer is kept, and the size is one more than the vector |
| CommandProcessor.SizeByteIgnored | cmd_proc.c:66 | the response does not depend on the size byte |
| UsbDescriptors.Widen | usb_descriptors.c:91-123 | the character count is the string length taken modulo 256 (chr_count is 8 bits) and capped at 31; each counted character is zero-extended to one unit after the header; the header's low byte is the descriptor length in bytes and its high byte the STRING type |
| UsbDescriptors.StringDescriptor | usb_descriptors.c:87-126 | index 0 gives the language ID; 0xEE gives the OS string descriptor; indexes past the table give no descriptor; others give the table string, widened |
| UsbDescriptors.Serialize | usb_descriptors.c:123-125 | each unit becomes its low byte then its high byte |
| UsbDescriptors.DescriptorsAreWellFormed | usb_descriptors.c:87-126 | every returned descriptor starts with its own length in bytes and the STRING type, and fits the 32-unit buffer |
| UsbDescriptors.LanguageDescriptorBytes | usb_descriptors.c:93-97 | string 0 is the bytes 4, 3, 0x09, 0x0C |
| UsbDescriptors.TableStringsFit | usb_descriptors.c:73-81 | every table string is 8-bit text of at most 31 characters |
| Usbdm.InitialReceiver | usbdm.c:15-21 | at power-up no frame is in progress and the offset is 0 |
| Usbdm.Complete | usbdm.c:130-155 | when the offset reaches the announced size, the frame is executed, its response is returned and the state resets; otherwise the result is BUSY and nothing changes |
| Usbdm.StoreFirst | usbdm.c:96-116 | a first packet of a new frame records the announced size, clamped to the buffer, and saves a byte; the packet is copied at the offset, the bytes before and after it are kept, and the offset advances by the packet length modulo 256 |
| Usbdm.StoreContinuation | usbdm.c:118-128 | a continuation is copied one byte early, the saved byte replaces its leading 0, the bytes before and after it are kept, and only the payload advances the offset |
| Usbdm.Deliver | usbdm.c:96-130 | the offset advances by the packet's bytes less a continuation's leading 0 |
| Usbdm.Memcpy | usbdm.c:115-121 | the bytes are copied at the given index, and every byte before and after them keeps its value |
| Usbdm.ReceiveUsbCommand | usbdm.c:86-156 | the size and saved byte are set only by the first packet of a frame; the frame runs exactly when the received count reaches the announced size, and then the response is the executed buffer's prefix and the kept buffer is the one command_exec left; the packet's bytes land at the offset, or the payload after the restored saved byte, with every other byte of the buffer kept; the saved byte is the packet's own last byte, the corrected reading of usbdm.c:104 (the code as written is Usbdm.ReceiveUsbCommandAsWritten) |
| Usbdm.ReceiveUsbCommandAsWritten | usbdm.c:104 | the byte saved by a frame's first packet is read from the command buffer before the copy |
| Usbdm.CommandSizeStaysInBuffer | usbdm.c:109-112 | the announced size never exceeds the buffer |
| Usbdm.SinglePacketCommand | usbdm.c:86-156 | a frame sent in one packet runs at once on that packet's bytes, and the receiver resets |
| Usbdm.TwoPacketCommand | usbdm.c:61-84 | a first packet and a continuation give BUSY, then run the command on the first packet followed by the continuation's payload |
| Usbdm.FirstPacketWaits | usbdm.c:96-116 | a first packet shorter than its announced frame is stored, its last byte saved, and BUSY returned |
| Usbdm.ContinuationCompletes | usbdm.c:118-151 | a continuation that brings the count to the announced size executes the reassembled frame and resets |
| Usbdm.StaleSavedByteCorruptsFrame | usbdm.c:104 | as written, the frame [4, 0x10, 0xAA] + [0, 0xBB] reaches the dispatcher as [4, 0x10, 0, 0xBB] |
| Usbdm.SendUsbErrorResponse | usbdm.c:191-200 | the code is written to byte 0 and returned; the bytes sent are the first `size` bytes of the updated buffer, that is the code followed by the old bytes 1..size-1; every other byte and every other field of the receiver, the saved byte included, is unchanged |
| Usbdm.ErrorResponseIdempotent | usbdm.c:191-200 | reporting the same error twice leaves the receiver and the sent bytes as reporting it once |
| Usbdm.VendorControl | usbdm.c:160-188 | non-SETUP stages are accepted; a vendor GET_VER request is answered with 0, 0x4C, 0x87, 0, 0x87; every other SETUP request is stalled |
| Usbdm.VersionReplyMatchesCapabilities | usbdm.c:173-178 | the software version byte of the control reply is the capability vector's major and minor version (cmd_proc.c:106-107) packed as high and low nibble, and the BDM and ICP hardware bytes are the same |

## Left out

- Floating point: the PIO frequency from SYNC (bdm.c:127-131) and the clock divider in `bdm_init` are not computed. The model records which tick count the frequency came from.
- Bdm.Sync: a SYNC measuring 0 ticks makes the firmware divide by zero (`1/T_measured_us`, bdm.c:127-129) without a check; it still marks the frequency known and later loads the data program at that frequency. The model does not compute the floating-point result and does not treat the case as a failure: it keeps `MeasuredBySync(0)` like any other measurement, as Bdm.ZeroTickSyncIsAccepted states.
- The RP2040 SDK and PIO hardware are not modelled: claiming, clearing and loading programs, `sync()`, `wait_end_operation`, FIFO status, and the `.pio` programs themselves. They appear as ordered events and as the oracle's answers. The state machine number and the program offset are not tracked, and neither is the encoding of `set x`.
- Pio.Align: a transmit count of 0 would make C shift by 32, which is undefined. The model requires 1..32 bits, and every wrapper sends 8..32 bits.
- Codecs.Array2Dec: requires at most 32 entries, because a shift by 32 or more is undefined in C.
- Bdm.SyncLength: `bdm_cmd_get_sync_length` (bdm.c:139-142) computes `60*ticks` but has no `return`, so its C result is indeterminate. The model returns `(60*ticks) mod 2^16`, the value the code evidently means to return.
- GPIO setup in `bdm_connect` and the console `printf` calls in the validators are not modelled; they are I/O.
- `convert_to_hex` (functions.c:74-77) is not modelled. It only forwards to the C library's `strtol`.
- `get_string` (functions.c:156-177) is not modelled. It reads characters from the console.
- Only the TinyUSB callbacks' decisions are modelled; the USB stack itself is not. `send_USB_response` sends only when the endpoint has room, and the model reports as the response the bytes it would send.
- `set_command_status` is not modelled. It is declared at cmd_proc.h:19 and called at usbdm.c:195, but its definition is not part of this model.
- `receive_USB_command` takes packets of 1 to MAX_COMMAND_SIZE bytes whose copies stay inside the buffer. An empty read would make the firmware read an unset byte, and an out-of-range copy is a buffer overflow; neither case is modelled.
- A frame spread over three or more packets is not modelled. The protocol comment at usbdm.c:61-84 limits a command to two packets.
- The `langid` argument of `tud_descriptor_string_cb` is ignored, as in the firmware. The descriptor model returns only the units that are filled; later entries of the static buffer hold stale data and are not modelled.
- Codecs.IsCommandValid: the contract states membership in the set of BDM command bytes. That the set has exactly 29 distinct elements is not stated.
- Codecs.Strcmp: only the sign of `strcmp` is fixed by the C standard; the model uses the usual byte difference.
- Usbdm.ReceiveUsbCommandAsWritten: its contract states only where the saved byte comes from. Its effect on a two-packet frame is stated by Usbdm.StaleSavedByteCorruptsFrame.

## Findings

| source | as written | input that shows it | evidently intended | confidence | as-written member | corrected member |
|---|---|---|---|---|---|---|
| bdm.c:346, bdm.h:40 | `data_buffer` has MAX_BDM_COMMAND_SIZE = 5 slots, but `bdm_cmd_write_byte` stores its data byte at slot 5 | any `bdm_cmd_write_byte(h, l, d)` | a 6-slot buffer (header, command byte and three parameters), so that the 4-byte write_byte transfer fits | not executed | Bdm.WriteByteOverrunsDeclaredBuffer | Bdm.EveryCommandFitsDataBuffer |
| usbdm.c:104 | the first packet's last byte is saved from `command_buffer[byte_count-1]` before the packet is copied there, so it is whatever an earlier frame left | first packet [4, 0x10, 0xAA] into a zeroed buffer, then continuation [0, 0xBB]: the dispatcher receives [4, 0x10, 0, 0xBB] | save `temp_buffer[byte_count-1]`, the packet's own last byte, so the frame is [4, 0x10, 0xAA, 0xBB] | not executed | Usbdm.StaleSavedByteCorruptsFrame | Usbdm.TwoPacketCommand |
