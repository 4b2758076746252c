/** The string descriptors of usb_descriptors.c and the version constants of
    usb_descriptors.h.

    A string descriptor is a sequence of 16-bit units: unit 0 is the header
    (bDescriptorType in the high byte, bLength in the low byte, as section
    9.6.7 of the USB 2.0 specification lays them out in little-endian byte
    order), followed by the UTF-16 code units of the string. */
module UsbDescriptors {
  import opened Numeric

  /** Firmware version nn.nn.nn. */
  const VERSION_MAJOR: Byte := 4
  const VERSION_MINOR: Byte := 12
  const VERSION_MICRO: Byte := 1

  /** VERSION_SW: major in the high nibble, minor added below it. */
  const VERSION_SW: Byte := VERSION_MAJOR * 16 + VERSION_MINOR

  /** bDescriptorType of a string descriptor. */
  const TUSB_DESC_STRING: Byte := 3

  /** Units in the static _desc_str buffer; one is the header. */
  const DESC_STR_UNITS: nat := 32

  /** The most characters a descriptor carries. */
  const MAX_CHARS: nat := DESC_STR_UNITS - 1

  /** The Microsoft OS 1.0 string descriptor returned for index 0xEE:
      length 18, type 3, "MSFT100" in UTF-16LE, vendor code 0x30, pad 0. */
  const OS_STRING_INDEX: Byte := 0xEE
  const VENDOR_CODE: Byte := 0x30
  const OsStringDescriptor: seq<Byte> :=
    [18, 3, 'M' as Byte, 0, 'S' as Byte, 0, 'F' as Byte, 0, 'T' as Byte, 0,
     '1' as Byte, 0, '0' as Byte, 0, '0' as Byte, 0, VENDOR_CODE, 0]

  /** The language-ID bytes of string 0 (LANGID 0x0C09, English (Australia)). */
  const LanguageBytes: seq<Byte> := [0x09, 0x0C]

  /** string_desc_arr entries 1..5; entry 0 is LanguageBytes. */
  const Manufacturer: string := "pgo"
  const ProductDescription: string := "USBDM ARM-SWD for OpenSDAv2.1"
  const SerialNumber: string := "USBDM-OPENSDA-0001"
  const ConfigurationDescription: string := "Default configuration"
  const BulkInterfaceDescription: string := "Bulk Interface"

  /** Number of entries of string_desc_arr. */
  const STRING_COUNT: nat := 6

  /** The text of entries 1..5. */
  function TableString(index: nat): string
    requires 1 <= index < STRING_COUNT
  {
    if index == 1 then Manufacturer
    else if index == 2 then ProductDescription
    else if index == 3 then SerialNumber
    else if index == 4 then ConfigurationDescription
    else BulkInterfaceDescription
  }

  /** What tud_descriptor_string_cb returns. */
  datatype StringDescriptorResult =
    | NoDescriptor                        // NULL: the request is stalled
    | OsDescriptor(bytes: seq<Byte>)      // the static OS string descriptor
    | Units(units: seq<Half>)             // _desc_str[0 .. 1 + chr_count)

  /** The header unit: type in the high byte, length in bytes in the low byte. */
  function Header(charCount: nat): Half
    requires charCount <= MAX_CHARS
  {
    TUSB_DESC_STRING * 256 + (2 * charCount + 2)
  }

  /** The ASCII-to-UTF-16 loop: chr_count = min(strlen, 31), then each
      character zero-extended into the unit after the header. chr_count is
      a uint8_t, so strlen is taken modulo 256 before the cap. */
  function Widen(s: string): (units: seq<Half>)
    requires IsCString(s)
    ensures 1 <= |units| <= DESC_STR_UNITS
    ensures |units| - 1 == if |s| % 256 > MAX_CHARS then MAX_CHARS else |s| % 256
    ensures |s| < 256 ==> |units| - 1 == if |s| > MAX_CHARS then MAX_CHARS else |s|
    ensures forall i :: 0 <= i < |units| - 1 ==> units[1 + i] == s[i] as int
    ensures units[0] % 256 == 2 * |units| && units[0] / 256 == TUSB_DESC_STRING
  {
    var length := |s| % 256;
    var count := if length > MAX_CHARS then MAX_CHARS else length;
    [Header(count)] + seq(count, i requires 0 <= i < count => s[i] as int)
  }

  /** tud_descriptor_string_cb (the language ID argument is ignored). */
  function StringDescriptor(index: Byte): (r: StringDescriptorResult)
    ensures index == 0 ==> r == Units([Header(1), LittleEndian(LanguageBytes, 256)])
    ensures index == OS_STRING_INDEX ==> r == OsDescriptor(OsStringDescriptor)
    ensures index != 0 && index != OS_STRING_INDEX && index >= STRING_COUNT ==> r == NoDescriptor
    ensures 1 <= index < STRING_COUNT ==> r.Units? && |r.units| == 1 + |TableString(index)|
    ensures 1 <= index < STRING_COUNT ==> forall i :: 0 <= i < |TableString(index)| ==> r.units[1 + i] == TableString(index)[i] as int
  {
    if index == 0 then
      Units([Header(1), (LanguageBytes[0] as int) + 256 * (LanguageBytes[1] as int)])
    else if index == OS_STRING_INDEX then
      OsDescriptor(OsStringDescriptor)
    else if index >= STRING_COUNT then
      NoDescriptor
    else
      TableStringsFit(index);
      Units(Widen(TableString(index)))
  }

  /** The bytes of a descriptor held in 16-bit units, little-endian as on the RP2040. */
  function Serialize(units: seq<Half>): (bytes: seq<Byte>)
    ensures |bytes| == 2 * |units|
    ensures forall i :: 0 <= i < |units| ==> bytes[2 * i] == units[i] % 256 && bytes[2 * i + 1] == units[i] / 256
  {
    if |units| == 0 then []
    else [units[0] % 256, units[0] / 256] + Serialize(units[1..])
  }

  /** Every descriptor the callback returns is well formed per section 9.6.7
      of the USB 2.0 specification: its first byte is its own length in
      bytes and its second byte is the STRING type. */
  lemma DescriptorsAreWellFormed(index: Byte)
    ensures var r := StringDescriptor(index);
            (r.OsDescriptor? ==> r.bytes[0] as int == |r.bytes| && r.bytes[1] == TUSB_DESC_STRING)
            && (r.Units? ==> var bytes := Serialize(r.units);
                             bytes[0] as int == |bytes| && bytes[1] == TUSB_DESC_STRING && |bytes| <= 2 * DESC_STR_UNITS)
  {
    var r := StringDescriptor(index);
    if index == 0 {
      LanguageDescriptorBytes();
    } else if 1 <= index < STRING_COUNT {
      TableStringsFit(index);
      SerializedHeader(r.units);
    }
  }

  /** A header whose low byte counts the bytes of its descriptor serializes
      to a descriptor whose first byte is its length. */
  lemma SerializedHeader(units: seq<Half>)
    requires 1 <= |units| <= DESC_STR_UNITS
    requires units[0] % 256 == 2 * |units| && units[0] / 256 == TUSB_DESC_STRING
    ensures Serialize(units)[0] as int == |Serialize(units)| <= 2 * DESC_STR_UNITS
    ensures Serialize(units)[1] == TUSB_DESC_STRING
  {
  }

  /** String 0 is the four bytes 4, 3, 0x09, 0x0C on the wire. */
  lemma LanguageDescriptorBytes()
    ensures StringDescriptor(0).Units?
    ensures Serialize(StringDescriptor(0).units) == [4, 3, 0x09, 0x0C]
  {
  }

  /** Every string in the table fits without being capped. */
  lemma TableStringsFit(index: nat)
    requires 1 <= index < STRING_COUNT
    ensures IsCString(TableString(index)) && |TableString(index)| <= MAX_CHARS
  {
    if index == 1 {
      assert IsCString(Manufacturer);
    } else if index == 2 {
      assert IsCString(ProductDescription);
    } else if index == 3 {
      assert IsCString(SerialNumber);
    } else if index == 4 {
      assert IsCString(ConfigurationDescription);
    } else {
      assert IsCString(BulkInterfaceDescription);
    }
  }
}
