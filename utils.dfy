/** The hex helpers of lib/MyUtils: the two nibble lookup tables of Utils.h and
    the byte <-> hex-digit conversions of Utils.cpp. */
module Utils {
  import opened Common

  /** hexToDecDigitMap: one-character lowercase hex digit strings to their values. */
  const HexToDecDigitMap: map<string, nat> := map[
    "0" := 0, "1" := 1, "2" := 2, "3" := 3, "4" := 4, "5" := 5, "6" := 6, "7" := 7,
    "8" := 8, "9" := 9, "a" := 10, "b" := 11, "c" := 12, "d" := 13, "e" := 14, "f" := 15]

  /** decToHexDigitMap: nibble values to one-character lowercase hex digit strings. */
  const DecToHexDigitMap: map<nat, string> := map[
    0 := "0", 1 := "1", 2 := "2", 3 := "3", 4 := "4", 5 := "5", 6 := "6", 7 := "7",
    8 := "8", 9 := "9", 10 := "a", 11 := "b", 12 := "c", 13 := "d", 14 := "e", 15 := "f"]

  // ---------------------------------------------------------------------------
  // Reference definitions of hex digits, independent of the two tables.

  /** The value of a hex digit of either case; any other character counts as 0. */
  function HexDigitValue(c: char): (v: nat)
    ensures v < 16
  {
    if '0' <= c <= '9' then c as int - '0' as int
    else if 'a' <= c <= 'f' then c as int - 'a' as int + 10
    else if 'A' <= c <= 'F' then c as int - 'A' as int + 10
    else 0
  }

  /** The lowercase hex digit of a nibble. */
  function HexDigitChar(n: nat): (c: char)
    requires n < 16
    ensures HexDigitValue(c) == n
    ensures '0' <= c <= '9' || 'a' <= c <= 'f'
  {
    if n < 10 then ('0' as int + n) as char else ('a' as int + n - 10) as char
  }

  /** The value of the hex digit at position i of s, 0 when s is shorter. */
  function DigitAt(s: string, i: nat): (v: nat)
    ensures v < 16
  {
    if i < |s| then HexDigitValue(s[i]) else 0
  }

  // ---------------------------------------------------------------------------
  // The String operations the conversions rely on (Arduino WString).

  /** tolower on one character: only 'A'..'Z' change. */
  function LowerChar(c: char): char
  {
    if 'A' <= c <= 'Z' then (c as int + 32) as char else c
  }

  /** toupper on one character: only 'a'..'z' change. */
  function UpperChar(c: char): char
  {
    if 'a' <= c <= 'z' then (c as int - 32) as char else c
  }

  /** String::toLowerCase. */
  function LowerString(s: string): string
  {
    seq(|s|, i requires 0 <= i < |s| => LowerChar(s[i]))
  }

  /** String::toUpperCase. */
  function UpperString(s: string): string
  {
    seq(|s|, i requires 0 <= i < |s| => UpperChar(s[i]))
  }

  /** String::substring(left, right) for left <= right: empty when left is at or
      past the end, and right is clamped to the length. */
  function Substring(s: string, left: nat, right: nat): (r: string)
    requires left <= right
    ensures |r| <= right - left
    ensures |r| == if left >= |s| then 0 else (if right <= |s| then right else |s|) - left
    ensures forall k :: 0 <= k < |r| ==> r[k] == s[left + k]
  {
    if left >= |s| then "" else s[left .. if right <= |s| then right else |s|]
  }

  // ---------------------------------------------------------------------------
  // Table lookups.

  /** hexToDecDigitMap[key] through std::map::operator[]: a missing key reads as 0. */
  function NibbleLookup(key: string): (v: nat)
    ensures v < 16
  {
    if key in HexToDecDigitMap then HexToDecDigitMap[key] else 0
  }

  /** Every nibble has a digit in decToHexDigitMap, and it is the lowercase hex digit. */
  lemma DecToHexTableComplete(n: nat)
    requires n < 16
    ensures n in DecToHexDigitMap && DecToHexDigitMap[n] == [HexDigitChar(n)]
  {
    if n < 8 {
      if n < 4 {
        if n == 0 {} else if n == 1 {} else if n == 2 {} else {}
      } else {
        if n == 4 {} else if n == 5 {} else if n == 6 {} else {}
      }
    } else {
      if n < 12 {
        if n == 8 {} else if n == 9 {} else if n == 10 {} else {}
      } else {
        if n == 12 {} else if n == 13 {} else if n == 14 {} else {}
      }
    }
  }

  /** Looking up a lowercased one-character string in hexToDecDigitMap gives the
      value of the hex digit, whatever its case; non-digits read as 0. */
  lemma HexToDecTableAgrees(c: char)
    ensures NibbleLookup([LowerChar(c)]) == HexDigitValue(c)
  {
    var l := LowerChar(c);
    if '0' <= l <= '9' || 'a' <= l <= 'f' {
      assert [l] in HexToDecDigitMap by {
        if l < '5' {
          if l == '0' {} else if l == '1' {} else if l == '2' {} else if l == '3' {} else {}
        } else if l <= '9' {
          if l == '5' {} else if l == '6' {} else if l == '7' {} else if l == '8' {} else {}
        } else {
          if l == 'a' {} else if l == 'b' {} else if l == 'c' {} else if l == 'd' {} else if l == 'e' {} else {}
        }
      }
    } else {
      assert [l] !in HexToDecDigitMap;
    }
  }

  /** The two tables are inverse to each other on the nibbles 0..15. */
  lemma {:induction false} DigitTablesInverse(n: nat)
    requires n < 16
    ensures n in DecToHexDigitMap && DecToHexDigitMap[n] in HexToDecDigitMap
    ensures HexToDecDigitMap[DecToHexDigitMap[n]] == n
  {
    if n < 8 {
      if n < 4 {
        if n == 0 {} else if n == 1 {} else if n == 2 {} else {}
      } else {
        if n == 4 {} else if n == 5 {} else if n == 6 {} else {}
      }
    } else {
      if n < 12 {
        if n == 8 {} else if n == 9 {} else if n == 10 {} else {}
      } else {
        if n == 12 {} else if n == 13 {} else if n == 14 {} else {}
      }
    }
  }

  /** hexToDecDigitMap has no uppercase keys: an uppercase digit must be
      lowercased before lookup. */
  lemma HexToDecTableHasNoUppercase(key: string)
    requires key in HexToDecDigitMap
    ensures forall i :: 0 <= i < |key| ==> !('A' <= key[i] <= 'Z')
  {
  }

  // ---------------------------------------------------------------------------
  // Utils.cpp

  /** Utils::hexTo8BitDecimal: lowercases, then reads the first two characters
      through the table; a missing or non-hex character contributes 0. The
      source's (hi << 4) | lo is written hi * 16 + lo: lo < 16 keeps the low
      nibble of hi << 4 clear. */
  function HexTo8BitDecimal(hex: string): (d: byte)
    ensures d == 16 * DigitAt(hex, 0) + DigitAt(hex, 1)
  {
    var lower := LowerString(hex);
    var first := Substring(lower, 0, 1);
    var second := Substring(lower, 1, 2);
    HexLookupAt(hex, 0);
    HexLookupAt(hex, 1);
    var hi := NibbleLookup(first);
    var lo := NibbleLookup(second);
    hi * 16 + lo
  }

  /** Looking up the one-character substring at i of the lowercased string reads
      the hex digit at i of the original. */
  lemma HexLookupAt(hex: string, i: nat)
    ensures NibbleLookup(Substring(LowerString(hex), i, i + 1)) == DigitAt(hex, i)
  {
    var lower := LowerString(hex);
    if i < |hex| {
      assert Substring(lower, i, i + 1) == [LowerChar(hex[i])];
      HexToDecTableAgrees(hex[i]);
    } else {
      assert Substring(lower, i, i + 1) == "";
      assert "" !in HexToDecDigitMap;
    }
  }

  /** Utils::decimalTo8BitHex: two lowercase digits, high nibble first, then the
      low nibble. The source's d >> 4 and d & 0x0F on a uint8 are d / 16 and d % 16. */
  function DecimalTo8BitHex(d: byte): (s: string)
    ensures s == [HexDigitChar(d / 16), HexDigitChar(d % 16)]
  {
    var d1 := d / 16;
    var d2 := d % 16;
    DecToHexTableComplete(d1);
    DecToHexTableComplete(d2);
    DecToHexDigitMap[d1] + DecToHexDigitMap[d2]
  }

  /** hexTo8BitDecimal undoes decimalTo8BitHex on every byte. */
  lemma HexByteRoundTrip(d: byte)
    ensures HexTo8BitDecimal(DecimalTo8BitHex(d)) == d
  {
    var s := DecimalTo8BitHex(d);
    assert DigitAt(s, 0) == d / 16;
    assert DigitAt(s, 1) == d % 16;
  }

  /** hexTo8BitDecimal ignores the case of its input. */
  lemma HexParseIgnoresCase(hex: string)
    ensures HexTo8BitDecimal(UpperString(hex)) == HexTo8BitDecimal(hex)
    ensures HexTo8BitDecimal(LowerString(hex)) == HexTo8BitDecimal(hex)
  {
    var u, l := UpperString(hex), LowerString(hex);
    forall i | 0 <= i < 2
      ensures DigitAt(u, i) == DigitAt(hex, i) && DigitAt(l, i) == DigitAt(hex, i)
    {
      if i < |hex| {
        assert u[i] == UpperChar(hex[i]) && l[i] == LowerChar(hex[i]);
      }
    }
  }

  /** Utils::rgbDecimalsToHex: six lowercase hex digits, two per channel in the
      order red, green, blue. */
  function RgbDecimalsToHex(red: byte, green: byte, blue: byte): (s: string)
    ensures |s| == 6
    ensures forall i :: 0 <= i < 6 ==> '0' <= s[i] <= '9' || 'a' <= s[i] <= 'f'
    ensures 16 * DigitAt(s, 0) + DigitAt(s, 1) == red
    ensures 16 * DigitAt(s, 2) + DigitAt(s, 3) == green
    ensures 16 * DigitAt(s, 4) + DigitAt(s, 5) == blue
  {
    DecimalTo8BitHex(red) + DecimalTo8BitHex(green) + DecimalTo8BitHex(blue)
  }

  /** Utils::genDeviceIdFromMacAddr after hashing: the last six characters of the
      hash (all of it when it is not longer than six), uppercased. */
  function GenDeviceIdFromHash(hash: string): (id: string)
    ensures |id| == if |hash| > 6 then 6 else |hash|
    ensures forall i :: 0 <= i < |id| ==> id[i] == UpperChar(hash[|hash| - |id| + i])
    ensures forall i :: 0 <= i < |id| ==> !('a' <= id[i] <= 'z')
  {
    var len := |hash|;
    var result := if len > 6 then Substring(hash, len - 6, len) else hash;
    UpperString(result)
  }
}
