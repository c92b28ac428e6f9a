/** The MAC address checks: the `%02X:` formatting of six hardware-address
    bytes, the format recogniser for `^([0-9A-Fa-f]{2}[:-]){5}([0-9A-Fa-f]{2})$`
    and the blacklist of eight vendor prefixes (OUIs of virtual-machine
    network adapters). */
module MacAddress {
  import opened FixedWidth
  import Text

  predicate IsHexDigit(c: char) {
    '0' <= c <= '9' || 'A' <= c <= 'F' || 'a' <= c <= 'f'
  }

  predicate IsSeparator(c: char) {
    c == ':' || c == '-'
  }

  /** `s` is `n` groups of "two hex digits and a separator" followed by a
      final two hex digits, and nothing else. */
  predicate MatchGroups(s: string, n: nat)
    decreases n
  {
    if n == 0 then |s| == 2 && IsHexDigit(s[0]) && IsHexDigit(s[1])
    else |s| >= 3 && IsHexDigit(s[0]) && IsHexDigit(s[1]) && IsSeparator(s[2]) && MatchGroups(s[3..], n - 1)
  }

  /** `isValidMacAddress`: `regex_match` of the whole string against the pattern. */
  predicate IsValidMacAddress(macAddress: string): (r: bool)
    ensures r <==> Positional(macAddress, 5)
  {
    MatchGroupsPositional(macAddress, 5);
    MatchGroups(macAddress, 5)
  }

  /** The positional reading of the pattern: every third character is a
      separator, every other one a hex digit. */
  predicate Positional(s: string, n: nat) {
    |s| == 3 * n + 2 &&
    forall i :: 0 <= i < |s| ==> if i % 3 == 2 then IsSeparator(s[i]) else IsHexDigit(s[i])
  }

  lemma {:induction false} MatchGroupsPositional(s: string, n: nat)
    ensures MatchGroups(s, n) <==> Positional(s, n)
    decreases n
  {
    if n > 0 && |s| >= 3 {
      MatchGroupsPositional(s[3..], n - 1);
      if Positional(s, n) {
        assert forall i :: 0 <= i < |s| - 3 ==> s[3..][i] == s[i + 3] && (i + 3) % 3 == i % 3;
        assert IsHexDigit(s[0]) && IsHexDigit(s[1]) && IsSeparator(s[2]);
      }
      if MatchGroups(s, n) {
        forall i | 0 <= i < |s|
          ensures if i % 3 == 2 then IsSeparator(s[i]) else IsHexDigit(s[i])
        {
          if i >= 3 {
            assert s[i] == s[3..][i - 3] && (i - 3) % 3 == i % 3;
          }
        }
      }
    }
  }

  /** A valid address is 17 characters: six hex pairs and five separators,
      the separators chosen freely per position, the digits in either case. */
  lemma ValidIffPositional(s: string)
    ensures IsValidMacAddress(s) <==>
      |s| == 17 && forall i :: 0 <= i < 17 ==> if i % 3 == 2 then IsSeparator(s[i]) else IsHexDigit(s[i])
  {
    MatchGroupsPositional(s, 5);
  }

  lemma ValidHasLength17(s: string)
    requires IsValidMacAddress(s)
    ensures |s| == 17
  {
    ValidIffPositional(s);
  }

  /** The eight prefixes, in the order of the source array. */
  const CommonPrefixes: seq<string> :=
    ["00:50:56", "00:0C:29", "00:05:69", "00:1C:14",
     "00:15:5D", "00:03:FF", "00:1C:42", "00:0F:4B"]

  /** The loop over the prefixes: `true` at the first equal one. */
  function AnyEqual(prefixes: seq<string>, head: string): (r: bool)
    ensures r <==> head in prefixes
  {
    if |prefixes| == 0 then false
    else if head == prefixes[0] then true
    else AnyEqual(prefixes[1..], head)
  }

  /** `isMacAddressTampered`: `macAddress.substr(0, 8)` against each prefix. */
  function IsMacAddressTampered(macAddress: string): (r: bool)
    ensures r <==> Text.Substr(macAddress, 0, 8) in CommonPrefixes
  {
    AnyEqual(CommonPrefixes, Text.Substr(macAddress, 0, 8))
  }

  /** Every prefix has 8 characters, so a shorter string never matches and
      a longer one is decided by its first 8 characters. */
  lemma TamperedIffPrefix(s: string)
    ensures IsMacAddressTampered(s) <==> |s| >= 8 && s[..8] in CommonPrefixes
  {
    var head := Text.Substr(s, 0, 8);
    assert forall p :: p in CommonPrefixes ==> |p| == 8;
    if |s| >= 8 {
      assert head == s[..8];
    }
  }

  lemma ShortNeverTampered(s: string)
    requires |s| < 8
    ensures !IsMacAddressTampered(s)
  {
    TamperedIffPrefix(s);
  }

  /** The comparison is separator-sensitive: `-` never matches. */
  lemma DashSeparatedNeverTampered(s: string)
    requires |s| >= 8 && (s[2] == '-' || s[5] == '-')
    ensures !IsMacAddressTampered(s)
  {
    TamperedIffPrefix(s);
    assert s[..8][2] == s[2] && s[..8][5] == s[5];
  }

  /** And case-sensitive: a lowercase hex letter in the first 8 characters
      never matches. Prefixes made only of digits, such as "00:50:56",
      still match an address written in lower case. */
  lemma LowercaseNeverTampered(s: string, i: nat)
    requires i < 8 <= |s| && 'a' <= s[i] <= 'f'
    ensures !IsMacAddressTampered(s)
  {
    TamperedIffPrefix(s);
    PrefixesHaveNoLowercase();
    assert s[..8][i] == s[i];
  }

  lemma PrefixesHaveNoLowercase()
    ensures forall p, j :: p in CommonPrefixes && 0 <= j < |p| ==> !('a' <= p[j] <= 'f')
  {
  }

  /** `%02X` of one byte: two uppercase hex digits. */
  function HexDigit(d: nat): (c: char)
    requires d < 16
    ensures IsHexDigit(c) && !('a' <= c <= 'f')
  {
    if d < 10 then (('0' as int) + d) as char else (('A' as int) + d - 10) as char
  }

  function HexValue(c: char): (d: nat)
    requires IsHexDigit(c)
    ensures d < 16
  {
    if '0' <= c <= '9' then (c as int) - ('0' as int)
    else if 'A' <= c <= 'F' then (c as int) - ('A' as int) + 10
    else (c as int) - ('a' as int) + 10
  }

  lemma HexDigitValue(d: nat)
    requires d < 16
    ensures HexValue(HexDigit(d)) == d
  {
  }

  function Hex2(b: uint8): (r: string)
    ensures |r| == 2 && IsHexDigit(r[0]) && IsHexDigit(r[1])
  {
    [HexDigit(b / 16), HexDigit(b % 16)]
  }

  /** Reading a formatted byte back. */
  lemma Hex2RoundTrip(b: uint8)
    ensures 16 * HexValue(Hex2(b)[0]) + HexValue(Hex2(b)[1]) == b
  {
    HexDigitValue(b / 16);
    HexDigitValue(b % 16);
  }

  /** `snprintf(macStr, 18, "%02X:%02X:%02X:%02X:%02X:%02X", mac[0..5])`;
      the 17 characters fit the 18-byte buffer with its terminator. */
  function FormatMac(mac: seq<uint8>): (s: string)
    requires |mac| == 6
    ensures |s| == 17
  {
    Hex2(mac[0]) + ":" + Hex2(mac[1]) + ":" + Hex2(mac[2]) + ":" +
    Hex2(mac[3]) + ":" + Hex2(mac[4]) + ":" + Hex2(mac[5])
  }

  /** Where each byte's digits land in the formatted string. */
  lemma FormatMacLayout(mac: seq<uint8>)
    requires |mac| == 6
    ensures |FormatMac(mac)| == 17
    ensures forall k :: 0 <= k < 6 ==> FormatMac(mac)[3 * k] == Hex2(mac[k])[0] && FormatMac(mac)[3 * k + 1] == Hex2(mac[k])[1]
    ensures forall k :: 0 <= k < 5 ==> FormatMac(mac)[3 * k + 2] == ':'
  {
  }

  /** The formatter always produces an address the recogniser accepts. */
  lemma FormatMacIsValid(mac: seq<uint8>)
    requires |mac| == 6
    ensures IsValidMacAddress(FormatMac(mac))
  {
    var s := FormatMac(mac);
    FormatMacLayout(mac);
    forall i | 0 <= i < 17
      ensures if i % 3 == 2 then IsSeparator(s[i]) else IsHexDigit(s[i])
    {
      var k := i / 3;
      assert i == 3 * k + i % 3;
    }
    ValidIffPositional(s);
  }

  /** Different addresses are formatted differently. */
  lemma FormatMacInjective(a: seq<uint8>, b: seq<uint8>)
    requires |a| == 6 && |b| == 6
    requires FormatMac(a) == FormatMac(b)
    ensures a == b
  {
    FormatMacLayout(a);
    FormatMacLayout(b);
    forall k | 0 <= k < 6
      ensures a[k] == b[k]
    {
      assert Hex2(a[k]) == Hex2(b[k]) by {
        assert FormatMac(a)[3 * k] == FormatMac(b)[3 * k];
        assert FormatMac(a)[3 * k + 1] == FormatMac(b)[3 * k + 1];
      }
      Hex2RoundTrip(a[k]);
      Hex2RoundTrip(b[k]);
    }
  }

  /** The blacklist as vendor bytes. */
  const CommonOuis: seq<seq<uint8>> :=
    [[0x00, 0x50, 0x56], [0x00, 0x0C, 0x29], [0x00, 0x05, 0x69], [0x00, 0x1C, 0x14],
     [0x00, 0x15, 0x5D], [0x00, 0x03, 0xFF], [0x00, 0x1C, 0x42], [0x00, 0x0F, 0x4B]]

  /** The first 8 characters of a formatted address are its first three bytes. */
  lemma FormatMacHead(mac: seq<uint8>)
    requires |mac| == 6
    ensures FormatMac(mac)[..8] == Hex2(mac[0]) + ":" + Hex2(mac[1]) + ":" + Hex2(mac[2])
  {
  }

  /** Formatting three bytes is injective. */
  lemma HeadInjective(a: seq<uint8>, b: seq<uint8>)
    requires |a| == 3 && |b| == 3
    requires Hex2(a[0]) + ":" + Hex2(a[1]) + ":" + Hex2(a[2]) == Hex2(b[0]) + ":" + Hex2(b[1]) + ":" + Hex2(b[2])
    ensures a == b
  {
    var sa := Hex2(a[0]) + ":" + Hex2(a[1]) + ":" + Hex2(a[2]);
    var sb := Hex2(b[0]) + ":" + Hex2(b[1]) + ":" + Hex2(b[2]);
    forall k | 0 <= k < 3
      ensures a[k] == b[k]
    {
      assert sa[3 * k] == Hex2(a[k])[0] && sa[3 * k + 1] == Hex2(a[k])[1];
      assert sb[3 * k] == Hex2(b[k])[0] && sb[3 * k + 1] == Hex2(b[k])[1];
      Hex2RoundTrip(a[k]);
      Hex2RoundTrip(b[k]);
    }
  }

  function FormatHead(oui: seq<uint8>): string
    requires |oui| == 3
  {
    Hex2(oui[0]) + ":" + Hex2(oui[1]) + ":" + Hex2(oui[2])
  }

  /** The listed prefixes are the formatted vendor bytes. */
  lemma PrefixesAreOuis()
    ensures |CommonPrefixes| == |CommonOuis|
    ensures forall j :: 0 <= j < |CommonOuis| ==> |CommonOuis[j]| == 3 && CommonPrefixes[j] == FormatHead(CommonOuis[j])
  {
    forall j | 0 <= j < |CommonOuis|
      ensures |CommonOuis[j]| == 3 && CommonPrefixes[j] == FormatHead(CommonOuis[j])
    {
      PrefixIsOui(j);
    }
  }

  lemma PrefixIsOui(j: nat)
    requires j < 8
    ensures |CommonOuis[j]| == 3 && CommonPrefixes[j] == FormatHead(CommonOuis[j])
  {
    if j < 4 {
      LowPrefixesAreOuis(j);
    } else {
      HighPrefixesAreOuis(j);
    }
  }

  /** The first four listed prefixes. */
  lemma LowPrefixesAreOuis(j: nat)
    requires 0 <= j < 4
    ensures |CommonOuis[j]| == 3 && CommonPrefixes[j] == FormatHead(CommonOuis[j])
  {
    var bytes := CommonOuis[j];
    HexOfZero();
    if j == 0 {
      assert CommonPrefixes[j] == "00:50:56" && bytes == [0x00, 0x50, 0x56];
      assert Hex2(0x50) == "50" && Hex2(0x56) == "56";
      assert FormatHead(bytes) == "00" + ":" + "50" + ":" + "56";
    } else if j == 1 {
      assert CommonPrefixes[j] == "00:0C:29" && bytes == [0x00, 0x0C, 0x29];
      assert Hex2(0x0C) == "0C" && Hex2(0x29) == "29";
      assert FormatHead(bytes) == "00" + ":" + "0C" + ":" + "29";
    } else if j == 2 {
      assert CommonPrefixes[j] == "00:05:69" && bytes == [0x00, 0x05, 0x69];
      assert Hex2(0x05) == "05" && Hex2(0x69) == "69";
      assert FormatHead(bytes) == "00" + ":" + "05" + ":" + "69";
    } else {
      assert CommonPrefixes[j] == "00:1C:14" && bytes == [0x00, 0x1C, 0x14];
      assert Hex2(0x1C) == "1C" && Hex2(0x14) == "14";
      assert FormatHead(bytes) == "00" + ":" + "1C" + ":" + "14";
    }
  }

  /** The last four listed prefixes. */
  lemma HighPrefixesAreOuis(j: nat)
    requires 4 <= j < 8
    ensures |CommonOuis[j]| == 3 && CommonPrefixes[j] == FormatHead(CommonOuis[j])
  {
    var bytes := CommonOuis[j];
    HexOfZero();
    if j == 4 {
      assert CommonPrefixes[j] == "00:15:5D" && bytes == [0x00, 0x15, 0x5D];
      assert Hex2(0x15) == "15" && Hex2(0x5D) == "5D";
      assert FormatHead(bytes) == "00" + ":" + "15" + ":" + "5D";
    } else if j == 5 {
      assert CommonPrefixes[j] == "00:03:FF" && bytes == [0x00, 0x03, 0xFF];
      assert Hex2(0x03) == "03" && Hex2(0xFF) == "FF";
      assert FormatHead(bytes) == "00" + ":" + "03" + ":" + "FF";
    } else if j == 6 {
      assert CommonPrefixes[j] == "00:1C:42" && bytes == [0x00, 0x1C, 0x42];
      assert Hex2(0x1C) == "1C" && Hex2(0x42) == "42";
      assert FormatHead(bytes) == "00" + ":" + "1C" + ":" + "42";
    } else {
      assert CommonPrefixes[j] == "00:0F:4B" && bytes == [0x00, 0x0F, 0x4B];
      assert Hex2(0x0F) == "0F" && Hex2(0x4B) == "4B";
      assert FormatHead(bytes) == "00" + ":" + "0F" + ":" + "4B";
    }
  }

  lemma HexOfZero()
    ensures Hex2(0) == "00"
  {
  }

  /** An address read from a device is flagged exactly when its vendor
      bytes are one of the eight listed OUIs. */
  lemma FormattedTamperedIffOui(mac: seq<uint8>)
    requires |mac| == 6
    ensures IsMacAddressTampered(FormatMac(mac)) <==> mac[..3] in CommonOuis
  {
    TamperedIffPrefix(FormatMac(mac));
    FormatMacHead(mac);
    PrefixesAreOuis();
    var head := FormatMac(mac)[..8];
    assert head == FormatHead(mac[..3]);
    if head in CommonPrefixes {
      var j :| 0 <= j < |CommonPrefixes| && CommonPrefixes[j] == head;
      HeadInjective(mac[..3], CommonOuis[j]);
    }
    if mac[..3] in CommonOuis {
      var j :| 0 <= j < |CommonOuis| && CommonOuis[j] == mac[..3];
      assert CommonPrefixes[j] == head;
    }
  }

  lemma ExampleValid()
    ensures IsValidMacAddress("00:1A:2b-3C:4d:5E")
    ensures !IsValidMacAddress("00:1A:2B:3C:4D")
  {
    var s := "00:1A:2b-3C:4d:5E";
    assert MatchGroups(s[15..], 0);
    assert s[12..][3..] == s[15..];
    assert MatchGroups(s[12..], 1);
    assert s[9..][3..] == s[12..];
    assert MatchGroups(s[9..], 2);
    assert s[6..][3..] == s[9..];
    assert MatchGroups(s[6..], 3);
    assert s[3..][3..] == s[6..];
    assert MatchGroups(s[3..], 4);
    assert s[0..] == s;
    var short := "00:1A:2B:3C:4D";
    if IsValidMacAddress(short) {
      ValidHasLength17(short);
    }
  }

  lemma ExampleTampered()
    ensures IsMacAddressTampered("00:0C:29:AA:BB:CC")
    ensures !IsMacAddressTampered("00:0c:29:AA:BB:CC")
  {
    assert "00:0C:29:AA:BB:CC"[..8] == "00:0C:29";
    TamperedIffPrefix("00:0C:29:AA:BB:CC");
    LowercaseNeverTampered("00:0c:29:AA:BB:CC", 4);
  }
}
