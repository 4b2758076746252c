/** The stateless helpers of functions.c: character counting, the two data
    string validators of the command-line syntax, hex digit and nibble
    conversion, bit-array packing, command-byte membership and the SYNC
    keyword test. A C string is modelled by its contents before the NUL. */
module Codecs {
  import opened Numeric
  import Opcodes

  // ---------------------------------------------------------------------------
  // Counting
  // ---------------------------------------------------------------------------

  /** count_char: the number of positions of `str` holding `c`. */
  method CountChar(str: string, c: char) returns (count: nat)
    requires IsCString(str)
    ensures count == multiset(str)[c]
    ensures count <= |str|
    ensures count == |str| <==> forall i :: 0 <= i < |str| ==> str[i] == c
  {
    count := 0;
    var i := 0;
    while i < |str|
      invariant 0 <= i <= |str|
      invariant count == multiset(str[..i])[c]
      invariant count <= i
      invariant count == i <==> forall k :: 0 <= k < i ==> str[k] == c
    {
      assert str[..i + 1] == str[..i] + [str[i]];
      if str[i] == c {
        count := count + 1;
      }
      i := i + 1;
    }
    assert str[..|str|] == str;
  }

  /** count_commands: the number of delimiters in a command line. */
  method CountCommands(commandStr: string, delimiter: char) returns (count: nat)
    requires IsCString(commandStr)
    ensures count == multiset(commandStr)[delimiter]
  {
    count := CountChar(commandStr, delimiter);
  }

  // ---------------------------------------------------------------------------
  // Data-string validators
  // ---------------------------------------------------------------------------

  /** An 8- or 16-bit field written as two or four hex digits. */
  predicate IsFieldWidth(s: string)
  {
    |s| == 2 || |s| == 4
  }

  /** A data field to be read back from the target: every digit is a '?' placeholder. */
  predicate InputData(s: string)
  {
    IsFieldWidth(s) && forall j :: 0 <= j < |s| ==> s[j] == '?'
  }

  /** A data field to be sent to the target: no digit is a '?' placeholder. */
  predicate OutputData(s: string)
  {
    IsFieldWidth(s) && forall j :: 0 <= j < |s| ==> s[j] != '?'
  }

  /** is_input_data_valid (the console message on rejection is not modelled). */
  method IsInputDataValid(str: string) returns (valid: bool)
    requires IsCString(str)
    ensures valid <==> InputData(str)
  {
    if !IsFieldWidth(str) {
      return false;
    }
    var j := 0;
    while j < |str|
      invariant 0 <= j <= |str|
      invariant forall k :: 0 <= k < j ==> str[k] == '?'
    {
      if str[j] != '?' {
        return false;
      }
      j := j + 1;
    }
    return true;
  }

  /** is_output_data_valid (the console message on rejection is not modelled). */
  method IsOutputDataValid(str: string) returns (valid: bool)
    requires IsCString(str)
    ensures valid <==> OutputData(str)
  {
    if !IsFieldWidth(str) {
      return false;
    }
    var j := 0;
    while j < |str|
      invariant 0 <= j <= |str|
      invariant forall k :: 0 <= k < j ==> str[k] != '?'
    {
      if str[j] == '?' {
        return false;
      }
      j := j + 1;
    }
    return true;
  }

  /** No data field is both a read placeholder and a value to write. */
  lemma InputOutputExclusive(s: string)
    ensures !(InputData(s) && OutputData(s))
  {
    if InputData(s) {
      assert s[0] == '?';
    }
  }

  // ---------------------------------------------------------------------------
  // Hex digits and nibbles
  // ---------------------------------------------------------------------------

  const UpperDigits: string := "0123456789ABCDEF"
  const LowerDigits: string := "0123456789abcdef"

  /** A hexadecimal digit in either case. */
  predicate IsHexDigit(ch: char)
  {
    ch in UpperDigits || ch in LowerDigits
  }

  /** hex2int: the value of a hex digit, or -1 for any other character. */
  function Hex2Int(ch: char): (r: int)
    ensures -1 <= r < 16
    ensures r >= 0 <==> IsHexDigit(ch)
    ensures r >= 0 ==> UpperDigits[r] == ch || LowerDigits[r] == ch
  {
    if '0' <= ch <= '9' then ch as int - '0' as int
    else if 'A' <= ch <= 'F' then ch as int - 'A' as int + 10
    else if 'a' <= ch <= 'f' then ch as int - 'a' as int + 10
    else -1
  }

  /** Reading a digit back gives its value, whichever case it is written in. */
  lemma Hex2IntInvertsDigits(d: int)
    requires 0 <= d < 16
    ensures Hex2Int(UpperDigits[d]) == d
    ensures Hex2Int(LowerDigits[d]) == d
  {
  }

  /** 'a'..'f' and 'A'..'F' decode alike. */
  lemma Hex2IntCaseInsensitive(ch: char)
    requires 'a' <= ch <= 'f'
    ensures Hex2Int(ch) == Hex2Int((ch as int - 32) as char) >= 10
  {
  }

  /** nibble2byte: the first argument is the LOW nibble, the second the high one;
      the C `uint` arithmetic wraps modulo 2^32. */
  function Nibble2Byte(nibble1: Word, nibble2: Word): (r: Word)
    ensures nibble1 < 16 && nibble2 < 16 ==> r < 256 && r % 16 == nibble1 && r / 16 == nibble2
  {
    (nibble1 + nibble2 * 16) % WordModulus
  }

  /** Two hex digits written high digit first decode to the byte they spell. */
  lemma HexPairDecodes(high: char, low: char)
    requires IsHexDigit(high) && IsHexDigit(low)
    ensures Nibble2Byte(Hex2Int(low), Hex2Int(high)) == BigEndian([Hex2Int(high), Hex2Int(low)], 16)
  {
    var h, l := Hex2Int(high), Hex2Int(low);
    assert [h, l][..1] == [h];
    assert [h][..0] == [];
    assert BigEndian([h], 16) == h;
    assert BigEndian([h, l], 16) == h * 16 + l;
  }

  // ---------------------------------------------------------------------------
  // Bit-array packing
  // ---------------------------------------------------------------------------

  /** array2dec: entry i is shifted left by i (or by length-1-i when `reversed`)
      and accumulated, all in wrapping 32-bit arithmetic. Unreversed, entry 0 is
      the least significant digit; reversed, entry 0 is the most significant.
      A shift by 32 or more is undefined in C, hence the length bound. */
  method Array2Dec(entries: seq<Word>, reversed: bool) returns (result: Word)
    requires |entries| <= 32
    ensures !reversed ==> result == LittleEndian(entries, 2) % WordModulus
    ensures reversed ==> result == BigEndian(entries, 2) % WordModulus
    ensures reversed ==> result == LittleEndian(Reverse(entries), 2) % WordModulus
    ensures DigitsBelow(entries, 2) ==> result < Pow(2, |entries|)
  {
    var n := |entries|;
    result := 0;
    var i := 0;
    while i < n
      invariant 0 <= i <= n
      invariant result == PackedSoFar(entries, reversed, i) % WordModulus
    {
      var index := if reversed then n - (i + 1) else i;
      var term := (entries[i] * Pow(2, index)) % WordModulus;
      PackStep(entries, reversed, i);
      result := (result + term) % WordModulus;
      i := i + 1;
    }
    PackedAll(entries, reversed);
    if reversed {
      ReversedReading(entries);
    }
    if DigitsBelow(entries, 2) {
      PackedBound(entries, reversed);
    }
  }

  /** The unreduced value of the first i entries as array2dec weighs them. */
  ghost function PackedSoFar(entries: seq<Word>, reversed: bool, i: nat): int
    requires i <= |entries|
  {
    if reversed then BigEndian(entries[..i], 2) * Pow(2, |entries| - i)
    else LittleEndian(entries[..i], 2)
  }

  /** Reading an array most significant entry first is reading its reverse
      least significant entry first. */
  lemma ReversedReading(entries: seq<Word>)
    ensures BigEndian(entries, 2) == LittleEndian(Reverse(entries), 2)
  {
    BigEndianIsReversedLittleEndian(entries, 2);
  }

  /** After the last entry the packed value is the whole array's value, in
      either reading order. */
  lemma PackedAll(entries: seq<Word>, reversed: bool)
    ensures !reversed ==> PackedSoFar(entries, reversed, |entries|) == LittleEndian(entries, 2)
    ensures reversed ==> PackedSoFar(entries, reversed, |entries|) == BigEndian(entries, 2)
  {
    var n := |entries|;
    assert entries[..n] == entries;
    if reversed {
      assert PackedSoFar(entries, reversed, n) == BigEndian(entries, 2) * Pow(2, 0);
      assert Pow(2, 0) == 1;
    }
  }

  /** A 0/1 array of at most 32 entries packs to a value below 2^n, which
      the reduction modulo 2^32 leaves alone. */
  lemma PackedBound(entries: seq<Word>, reversed: bool)
    requires |entries| <= 32 && DigitsBelow(entries, 2)
    ensures PackedSoFar(entries, reversed, |entries|) % WordModulus < Pow(2, |entries|)
  {
    var packed := PackedSoFar(entries, reversed, |entries|);
    var limit := Pow(2, |entries|);
    assert 0 <= packed < limit by {
      PackedAll(entries, reversed);
      if reversed {
        BigEndianBound(entries, 2);
      } else {
        LittleEndianBound(entries, 2);
      }
    }
    assert limit <= WordModulus by {
      PowMonotone(2, |entries|, 32);
      PowWord();
    }
    assert packed % WordModulus == packed;
  }

  /** One loop iteration of array2dec adds entry i with its weight, modulo 2^32. */
  lemma PackStep(entries: seq<Word>, reversed: bool, i: nat)
    requires i < |entries|
    ensures PackedSoFar(entries, reversed, i + 1) % WordModulus
         == (PackedSoFar(entries, reversed, i) % WordModulus
             + (entries[i] * Pow(2, if reversed then |entries| - (i + 1) else i)) % WordModulus)
            % WordModulus
  {
    var index := if reversed then |entries| - (i + 1) else i;
    var term := entries[i] * Pow(2, index);
    if reversed {
      ReversedStep(entries, i);
    } else {
      LittleEndianAppend(entries[..i], entries[i], 2);
      assert entries[..i + 1] == entries[..i] + [entries[i]];
    }
    assert PackedSoFar(entries, reversed, i + 1) == PackedSoFar(entries, reversed, i) + term;
    ModAdd(PackedSoFar(entries, reversed, i), term);
  }

  lemma ModAdd(x: int, y: int)
    ensures (x % WordModulus + y % WordModulus) % WordModulus == (x + y) % WordModulus
  {
    var m := WordModulus;
    DivModUnique(x + y, m, x / m + y / m + (x % m + y % m) / m, (x % m + y % m) % m);
  }

  lemma {:induction false} LittleEndianAppend(digits: seq<int>, d: int, base: nat)
    ensures LittleEndian(digits + [d], base) == LittleEndian(digits, base) + d * Pow(base, |digits|)
  {
    if |digits| > 0 {
      LittleEndianAppend(digits[1..], d, base);
      assert (digits + [d])[1..] == digits[1..] + [d];
      var rest := LittleEndian(digits[1..], base);
      var w := Pow(base, |digits| - 1);
      assert Pow(base, |digits|) == base * w;
      ScaleSum(base, rest, d, w);
    }
  }

  /** One more most-significant-first entry: the prefix value doubles and the
      entry takes the weight 2^(n-1-i). */
  lemma ReversedStep(entries: seq<Word>, i: nat)
    requires i < |entries|
    ensures BigEndian(entries[..i + 1], 2) * Pow(2, |entries| - (i + 1))
         == BigEndian(entries[..i], 2) * Pow(2, |entries| - i) + entries[i] * Pow(2, |entries| - (i + 1))
  {
    var n := |entries|;
    BigEndianAppend(entries[..i], entries[i], 2);
    assert entries[..i + 1] == entries[..i] + [entries[i]];
    var v := BigEndian(entries[..i], 2);
    var w := Pow(2, n - (i + 1));
    assert Pow(2, n - i) == 2 * w;
    assert (v * 2 + entries[i]) * w == v * (2 * w) + entries[i] * w;
  }

  // ---------------------------------------------------------------------------
  // Command bytes
  // ---------------------------------------------------------------------------

  /** is_command_valid: the switch over the 29 accepted command bytes. */
  function IsCommandValid(command: Word): (valid: bool)
    ensures valid <==> command in Opcodes.Defined
  {
    match command
    case 0xD5 => true
    case 0xD6 => true
    case 0x90 => true
    case 0x08 => true
    case 0x10 => true
    case 0x18 => true
    case 0x68 => true
    case 0x69 => true
    case 0x6B => true
    case 0x6C => true
    case 0x6F => true
    case 0x70 => true
    case 0x71 => true
    case 0x48 => true
    case 0x49 => true
    case 0x4B => true
    case 0x4C => true
    case 0x4F => true
    case 0x50 => true
    case 0x51 => true
    case 0xE4 => true
    case 0xC4 => true
    case 0xE0 => true
    case 0xE1 => true
    case 0xE8 => true
    case 0xC0 => true
    case 0xC1 => true
    case 0xE2 => true
    case 0xC2 => true
    case _ => false
  }

  // ---------------------------------------------------------------------------
  // The SYNC keyword
  // ---------------------------------------------------------------------------

  /** The unsigned byte at the head of a C string, 0 standing for the terminator. */
  function Head(s: string): int
  {
    if |s| == 0 then 0 else s[0] as int
  }

  /** C strcmp on strings of unsigned bytes: the difference of the first pair of
      bytes that differ, counting the terminator. (The C standard fixes only the
      sign; the byte difference is the usual implementation.) */
  function Strcmp(a: string, b: string): (r: int)
    requires IsCString(a) && IsCString(b)
    ensures r == 0 <==> a == b
    decreases |a|
  {
    if |a| == 0 || |b| == 0 || a[0] != b[0] then Head(a) - Head(b)
    else Strcmp(a[1..], b[1..])
  }

  /** is_command_sync: the token is exactly "SYNC". */
  function IsCommandSync(token: string): (r: bool)
    requires IsCString(token)
    ensures r <==> token == "SYNC"
  {
    Strcmp(token, "SYNC") == 0
  }
}
