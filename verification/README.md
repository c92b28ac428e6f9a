# Reusable snippets: a verified model

This project models the stateable parts of a collection of small C++ utility
programs and proves properties about them:

- The UDP fan-out forwarder (`Udp_forwarder.cpp`). This covers:
  - the per-source fixed-window rate limiter;
  - the `host:port` destination parser;
  - command-line validation after `getopt_long`;
  - the receive/forward loop together with the SIGINT/SIGTERM handler, as a state machine over a trace of events.
- Byte-order reversal of 16-, 32- and 64-bit integers (`LittleToBigEndian.cpp`).
- The XOR swap, the power-of-two test and the set-bit count (`BitHacks.cpp`).
- NTP-to-Unix time conversion (`ntpToUtc.cpp`, `ntpToGmtTime.cpp`).
- The NTP client request and the big-endian decode of the reply's Transmit Timestamp (`ntpdate-sync.cpp`).
- Classful IPv4 classification (`WhichIPV4AddrClass.cpp`).
- The MAC-address format check, the virtual-machine vendor blacklist and the `%02X:` formatter (`isMacAddrTampered.cpp`).
- The RTSP URL pattern, as a hand-written recogniser (`ValidRTSPAddrCheck.cpp`).
- The XML tokeniser (`XmlConfigRead.cpp`).
- The `getline`-based string splitter (`AppCPULoad.cpp`).

One Dafny module per component:

- Shared modules:
  - `Wrappers`: `Option`, `Result`.
  - `FixedWidth`: integer widths, unsigned wrap-around, the signed cast.
  - `Text`: `find` and `substr`.
  - `StringToInt`: `std::stoi`.
- `ByteOrder`, `BitHacks`, `NtpTime`, `NtpPacket`, `IpClass`, `MacAddress`, `RtspAddress`, `XmlConfig` and `Tokenize`.
- `RateLimiter`, `AddressParser`, `Arguments`, `Shutdown` and `Forwarder`, for the forwarder.

Points where the forwarder's behaviour is easy to misread, as the code has it:

- **Which colon splits a destination.** `parse_address` splits at the first `:`, found with `find` (`Udp_forwarder.cpp:134`).
- **Exit status after a receive error.** A receive error other than `EINTR` only `break`s the loop (`Udp_forwarder.cpp:426-427`), and `main` then returns 0 (`Udp_forwarder.cpp:509-517`).
- **When `-h` or `--help` is seen.** Options are handled in order (`Udp_forwarder.cpp:254-277`), so an earlier bad `-r` value or an unknown option rejects the command line before the help option is reached.
- **The rate-limit algorithm.** The comment at `Udp_forwarder.cpp:179` calls the limiter a token bucket. The code is a fixed one-second window per source (`Udp_forwarder.cpp:197-209`), and the map is never pruned.
- **Disabling the limit.** The limiter is off for any limit `<= 0` (`Udp_forwarder.cpp:186`); negative limits are already rejected at `Udp_forwarder.cpp:262`.

How external things are handled:

- `inet_pton` and `gethostbyname` are function parameters, `string -> Option<uint32>`.
- The environment of the forwarder loop is a trace of events:
  - a signal;
  - a received datagram, which carries its source, length, clock reading and the result of each `sendto`;
  - a receive interrupted by `EINTR`;
  - another receive failure.
- `steady_clock` readings are nanosecond tick counts carried by the events.

## Model

| member | source | states |
|---|---|---|
| FixedWidth.SubU64 | ntpToUtc.cpp:12 | unsigned 64-bit subtraction is the exact difference when it is non-negative and wraps by 2^64 otherwise |
| FixedWidth.AsSigned64 | ntpToUtc.cpp:12 | `static_cast` to the signed `time_t` keeps the bit pattern: the value is unchanged below 2^63 and is 2^64 less from there on, so it is negative exactly when the top bit is set |
| Text.IndexOf | Udp_forwarder.cpp:134 | `find` gives npos exactly when the character is absent; otherwise it gives an in-range index holding the character with no earlier occurrence |
| Text.Substr | isMacAddrTampered.cpp:105 | `substr(pos, count)` has length `count`, or what is left of the string, and copies the characters from `pos` in order |
| Text.Before | WhichIPV4AddrClass.cpp:9 | `substr(0, find(c))` is a prefix with no `c`; when `c` occurs, the prefix stops right at the first `c`, otherwise it is the whole string |
| StringToInt.Stoi | Udp_forwarder.cpp:145 | `stoi` throws `invalid_argument` exactly when no digits follow the white space and sign. It throws `out_of_range` exactly when the value read is outside `int`. Otherwise it returns that value |
| StringToInt.SpaceRun | Udp_forwarder.cpp:145 | the leading white-space run is a maximal prefix of C-locale space characters |
| StringToInt.DigitRun | Udp_forwarder.cpp:145 | the digit run is a maximal prefix of decimal digits |
| StringToInt.Decimal | Udp_forwarder.cpp:145 | the decimal rendering of a number is a non-empty digit string without a leading zero |
| StringToInt.DecimalRoundTrip | Udp_forwarder.cpp:145 | the value of a number's decimal rendering is that number |
| StringToInt.DigitRunStopsAt | Udp_forwarder.cpp:145 | a digit run ends at the first non-digit that follows it |
| StringToInt.StoiDecimal | Udp_forwarder.cpp:145 | `stoi` of a number's decimal text reads the number back, whatever non-digit text follows |
| StringToInt.StoiOfDigits | Udp_forwarder.cpp:145 | `stoi` of a non-empty all-digit string in range is its decimal value |
| StringToInt.StoiNegativeDecimal | Udp_forwarder.cpp:261 | a leading minus sign makes `stoi` read the negated number, down to `INT_MIN` |
| StringToInt.ScanNegative | Udp_forwarder.cpp:261 | a minus sign in front of a digit run negates the value read |
| StringToInt.ScanDigitsStopsAt | Udp_forwarder.cpp:145 | a digit run ended by a non-digit reads as the run's value |
| StringToInt.SpaceRunSkips | Udp_forwarder.cpp:145 | a white-space prefix adds exactly its own length to the skipped run |
| StringToInt.StoiSkipsSpaces | Udp_forwarder.cpp:289 | leading white space never changes what `stoi` returns or throws |
| StringToInt.StoiRejectsNonNumeric | WhichIPV4AddrClass.cpp:9 | text whose first character after the white space is neither a sign nor a digit makes `stoi` throw `invalid_argument` |
| ByteOrder.SwapBytesShort | LittleToBigEndian.cpp:15-19 | the result's low byte is the input's high byte and the result's high byte is the input's low byte |
| ByteOrder.SwapBytesInt | LittleToBigEndian.cpp:6-12 | byte k of the result is byte 3-k of the input |
| ByteOrder.SwapBytesInt64 | LittleToBigEndian.cpp:42-54 | byte k of the result is byte 7-k of the input |
| ByteOrder.SwapBytesShortInvolution | LittleToBigEndian.cpp:15-19 | swapping a short twice gives it back |
| ByteOrder.SwapBytesIntInvolution | LittleToBigEndian.cpp:6-12 | swapping a 32-bit value twice gives it back |
| ByteOrder.SwapBytesInt64Involution | LittleToBigEndian.cpp:42-54 | swapping a 64-bit value twice gives it back |
| ByteOrder.SwapBytesInt64Halves | LittleToBigEndian.cpp:42-54 | the high word of the 64-bit swap is the 32-bit swap of the low word, and vice versa |
| ByteOrder.SwapBytesDoubleIsInt64 | LittleToBigEndian.cpp:35-36 | the word-wise swap `swapBytesDouble` applies to a double's bit pattern is the 64-bit byte reversal |
| ByteOrder.Examples | LittleToBigEndian.cpp:58-75 | the demo values: 0x01020304 becomes 0x04030201, 0x0102 becomes 0x0201, 0x0123456789ABCDEF becomes 0xEFCDAB8967452301 |
| BitHacks.XorSwap | BitHacks.cpp:6-11 | for two distinct cells the values are exchanged; when both pointers alias one cell, that cell becomes 0; every other cell is unchanged |
| BitHacks.Swap | BitHacks.cpp:6-11 | the three `^=` statements on an array leave it as `XorSwap` leaves the sequence of its old contents: the two cells exchanged, or the cell zeroed when `a == b`, and every other cell unchanged |
| BitHacks.XorCancels | BitHacks.cpp:8-10 | XOR with the same value twice cancels, and a value XOR itself is 0 |
| BitHacks.IsPowerOfTwo | BitHacks.cpp:14-17 | the test returns 0 or 1, and it returns 1 exactly when n is 2^k for some k < 32, so 0 is excluded |
| BitHacks.Log2OfPower | BitHacks.cpp:16 | a non-zero n with `n & (n-1) == 0` is 2 to the number of times it can be halved |
| BitHacks.PowerOfTwoWitness | BitHacks.cpp:16 | `n != 0 && (n & (n-1)) == 0` holds exactly for the powers of two below 2^32 |
| BitHacks.OnesShift | BitHacks.cpp:24-25 | shifting off the low bit lowers the count of 1 bits by exactly that bit |
| BitHacks.OnesPositive | BitHacks.cpp:23 | a non-zero value has at least one 1 bit |
| BitHacks.CountSetBits | BitHacks.cpp:20-28 | the loop ends, its count is the number of 1 bits of n, lies in 0..32, and is 1 exactly when n is a power of two |
| BitHacks.OnesBound | BitHacks.cpp:20-28 | at most k+1 of bits 0..k are set |
| BitHacks.PowerOfTwoOnes | BitHacks.cpp:16 | `isPowerOfTwo(n)` holds exactly when n has a single 1 bit |
| BitHacks.Examples | BitHacks.cpp:14-17 | 0 and 6 are not powers of two; 64 and 2^31 are |
| NtpTime.NtpToUtc | ntpToUtc.cpp:4-14 | the result is the seconds field minus 2208988800, as a signed value: a seconds field before 1970 comes out negative, not wrapped. It lies between -2208988800 and 2^32-1-2208988800 |
| NtpTime.OneShl32 | ntpToGmtTime.cpp:7 | `1LL << 32` is 2^32 |
| NtpTime.NtpToGmtTime | ntpToGmtTime.cpp:5-15 | the result is the seconds field minus 2208988800, as a signed value |
| NtpTime.SameEpochOffset | ntpToUtc.cpp:7 | the hexadecimal constant 0x83AA7E80 is 2208988800, the decimal offset of the other file |
| NtpTime.GmtTimeIsUtc | ntpToGmtTime.cpp:5-15 | the two conversions agree on every 64-bit timestamp |
| NtpTime.FractionIgnored | ntpToUtc.cpp:9-13 | replacing the 32 fraction bits by any other fraction leaves the result unchanged |
| NtpTime.Pre1970IsNegative | ntpToUtc.cpp:12 | a seconds field below the 1970 offset gives a negative time |
| NtpTime.Examples | ntpToUtc.cpp:18-19 | 0x83AA7F7F0145C000 converts to 255, and the `ntpToGmtTime` demo value 3785936769 (ntpToGmtTime.cpp:19) to -2208988800 |
| NtpPacket.Request | ntpdate-sync.cpp:12-14 | the request has LI 0, version 3 and mode 3 (client) in its first octet, and every other octet is zero |
| NtpPacket.BigEndian32 | ntpdate-sync.cpp:49 | the shifted OR of four octets is their big-endian value b0*2^24 + b1*2^16 + b2*2^8 + b3 |
| NtpPacket.Seconds | ntpdate-sync.cpp:49 | `seconds` is the big-endian value of octets 40-43 |
| NtpPacket.Fraction | ntpdate-sync.cpp:50 | `fraction` is the big-endian value of octets 44-47 |
| NtpPacket.DecodeOctets | ntpdate-sync.cpp:49 | decoding the four octets of a 32-bit value gives the value back |
| NtpPacket.OctetsDecode | ntpdate-sync.cpp:49 | the octets of a decoded word are the octets it was decoded from |
| NtpPacket.BigEndian32Injective | ntpdate-sync.cpp:49-50 | two octet quadruples that decode to the same word are equal |
| NtpPacket.WordAtLocal | ntpdate-sync.cpp:49-50 | two buffers give the same word at an offset exactly when their four octets there are equal |
| NtpPacket.SecondsAreLocal | ntpdate-sync.cpp:49 | two replies have equal `seconds` exactly when their octets 40-43 are equal |
| NtpPacket.FractionIsLocal | ntpdate-sync.cpp:50 | two replies have equal `fraction` exactly when their octets 44-47 are equal |
| NtpPacket.TransmitTimestamp | ntpdate-sync.cpp:49-50 | the 64-bit timestamp has `seconds` as its high 32 bits and `fraction` as its low 32 bits |
| NtpPacket.TransmitTimestampToUtc | ntpdate-sync.cpp:49 | converting the reply's timestamp with `ntpToUtc` (ntpToUtc.cpp:4-14) gives `seconds` minus the 1970 offset |
| NtpPacket.Examples | ntpdate-sync.cpp:12-14 | the request is 48 octets starting with 0x1B, and the octets 83 AA 7E 80 decode to the 1970 offset |
| IpClass.GetIPClass | WhichIPV4AddrClass.cpp:8-22 | the class is decided by `stoi` of the text before the first `.`. When `stoi` throws, the outcome is that failure |
| IpClass.ClassOf | WhichIPV4AddrClass.cpp:11-21 | the range tests give class E exactly outside 0..239; each range is stated by ClassOfRanges and the leading-bit rule by ClassOfIsClassful |
| IpClass.ClassOfIsClassful | WhichIPV4AddrClass.cpp:11-18 | for a real octet, the ranges are the classful leading-bit rule: 0 gives A, 10 gives B, 110 gives C, 1110 gives D, and 1111 gives E |
| IpClass.OutOfOctetRangeIsClassE | WhichIPV4AddrClass.cpp:19-21 | negative integers and integers above 255 are reported as class E |
| IpClass.ClassOfRanges | WhichIPV4AddrClass.cpp:11-21 | each of the five answers is given exactly for its range: A for 0-127, B for 128-191, C for 192-223, D for 224-239, and E for everything else |
| IpClass.OnlyFirstFieldMatters | WhichIPV4AddrClass.cpp:9 | nothing after the first `.` affects the outcome |
| IpClass.NonNumericFieldFails | WhichIPV4AddrClass.cpp:9 | a first field whose first character is neither white space, a sign nor a digit is an `invalid_argument` failure |
| IpClass.DottedQuad | WhichIPV4AddrClass.cpp:8-22 | a dotted address whose first field is the decimal text of an octet gets that octet's classful class |
| IpClass.Example | WhichIPV4AddrClass.cpp:8-22 | "192.168.1.1" is class C |
| IpClass.ExampleFirstField | WhichIPV4AddrClass.cpp:9-10 | the first field "192" alone gives class C |
| MacAddress.MatchGroupsPositional | isMacAddrTampered.cpp:91 | the group-by-group match is equivalent to a positional reading: length 3n+2, a separator at every third position, and hex digits elsewhere |
| MacAddress.IsValidMacAddress | isMacAddrTampered.cpp:89-93 | the whole-string regex match holds exactly when every third character is `:` or `-` and the others are hex digits, 17 characters in all |
| MacAddress.ValidIffPositional | isMacAddrTampered.cpp:91 | an address is valid exactly when it has 17 characters, `:` or `-` at positions 2, 5, 8, 11 and 14 (chosen freely), and hex digits of either case elsewhere |
| MacAddress.ValidHasLength17 | isMacAddrTampered.cpp:91 | every valid address has 17 characters |
| MacAddress.AnyEqual | isMacAddrTampered.cpp:103-111 | the loop returns true exactly when the head equals one of the prefixes |
| MacAddress.IsMacAddressTampered | isMacAddrTampered.cpp:95-112 | an address is flagged exactly when `substr(0, 8)` is one of the eight listed prefixes |
| MacAddress.TamperedIffPrefix | isMacAddrTampered.cpp:97-109 | an address is flagged exactly when it has at least 8 characters and its first 8 are a listed prefix |
| MacAddress.ShortNeverTampered | isMacAddrTampered.cpp:105 | a string shorter than 8 characters is never flagged |
| MacAddress.DashSeparatedNeverTampered | isMacAddrTampered.cpp:99-105 | a `-` in either separator position of the prefix means the address is not flagged: the comparison is separator-sensitive |
| MacAddress.LowercaseNeverTampered | isMacAddrTampered.cpp:99-105 | a lowercase hex letter in the first 8 characters means the address is not flagged: the comparison is case-sensitive |
| MacAddress.PrefixesHaveNoLowercase | isMacAddrTampered.cpp:99-100 | none of the listed prefixes holds a lowercase letter |
| MacAddress.HexDigit | isMacAddrTampered.cpp:73 | `%X` of a nibble is a hex digit and never a lowercase letter |
| MacAddress.HexDigitValue | isMacAddrTampered.cpp:73 | reading a formatted nibble gives the nibble back |
| MacAddress.Hex2 | isMacAddrTampered.cpp:73 | `%02X` of a byte is exactly two hex digits |
| MacAddress.Hex2RoundTrip | isMacAddrTampered.cpp:73 | reading `%02X` of a byte back as two hex digits gives the byte |
| MacAddress.FormatMac | isMacAddrTampered.cpp:73-74 | the `%02X:` rendering of six bytes is 17 characters; where each byte lands is stated by FormatMacLayout, validity by FormatMacIsValid and injectivity by FormatMacInjective |
| MacAddress.FormatMacLayout | isMacAddrTampered.cpp:73-74 | the formatted address has 17 characters: byte k's two digits sit at positions 3k and 3k+1, with `:` between the groups |
| MacAddress.FormatMacIsValid | isMacAddrTampered.cpp:73-74 | every formatted address passes `isValidMacAddress` (isMacAddrTampered.cpp:91) |
| MacAddress.FormatMacInjective | isMacAddrTampered.cpp:73-74 | different hardware addresses are formatted differently |
| MacAddress.FormatMacHead | isMacAddrTampered.cpp:73-74 | the first 8 characters of a formatted address are the formatted first three bytes |
| MacAddress.HeadInjective | isMacAddrTampered.cpp:73 | different three-byte vendor prefixes are formatted differently |
| MacAddress.PrefixesAreOuis | isMacAddrTampered.cpp:97-101 | the eight listed prefixes are the formatted forms of eight vendor byte triples |
| MacAddress.PrefixIsOui | isMacAddrTampered.cpp:99-100 | each listed prefix is the formatted form of its vendor bytes |
| MacAddress.LowPrefixesAreOuis | isMacAddrTampered.cpp:99 | the first four listed prefixes are the formatted forms of their vendor bytes |
| MacAddress.HighPrefixesAreOuis | isMacAddrTampered.cpp:100 | the last four listed prefixes are the formatted forms of their vendor bytes |
| MacAddress.HexOfZero | isMacAddrTampered.cpp:73 | `%02X` of the byte 0 is "00" |
| MacAddress.FormattedTamperedIffOui | isMacAddrTampered.cpp:95-112 | an address formatted from device bytes is flagged exactly when its first three bytes are one of the eight vendor prefixes |
| MacAddress.ExampleValid | isMacAddrTampered.cpp:91 | "00:1A:2b-3C:4d:5E", with mixed separators and mixed case, is valid; a five-group address is not |
| MacAddress.ExampleTampered | isMacAddrTampered.cpp:95-112 | "00:0C:29:AA:BB:CC" is flagged, and the same address with a lowercase `c` is not |
| RtspAddress.Span | ValidRTSPAddrCheck.cpp:7 | a greedy character-class run is the longest prefix of that class |
| RtspAddress.IsValidRtspAddress | ValidRTSPAddrCheck.cpp:5-9 | an accepted address is `rtsp://` followed by a host character; the full language is stated both ways by ValidIffInLanguage |
| RtspAddress.SpanStopsAt | ValidRTSPAddrCheck.cpp:7 | a greedy run over a string of the class ends exactly where a non-member follows |
| RtspAddress.AfterPortComplete | ValidRTSPAddrCheck.cpp:7 | any optional path followed by any optional query is accepted after the port |
| RtspAddress.AfterHostComplete | ValidRTSPAddrCheck.cpp:7 | any optional port, path and query are accepted after the host |
| RtspAddress.PathQueryStart | ValidRTSPAddrCheck.cpp:7 | a path and query, when present, start with `/` or `?` |
| RtspAddress.AfterPortNumber | ValidRTSPAddrCheck.cpp:7 | a colon with port digits, then a path and query, are accepted after the host |
| RtspAddress.Complete | ValidRTSPAddrCheck.cpp:7 | every string of the pattern's language is accepted |
| RtspAddress.AfterPortSound | ValidRTSPAddrCheck.cpp:7 | what is accepted after the port splits into a path part and a query part of the pattern |
| RtspAddress.AfterHostSound | ValidRTSPAddrCheck.cpp:7 | what is accepted after the host splits into port, path and query parts of the pattern |
| RtspAddress.Sound | ValidRTSPAddrCheck.cpp:7 | every accepted string is in the pattern's language, with explicit host, port, path and query parts |
| RtspAddress.ValidIffInLanguage | ValidRTSPAddrCheck.cpp:5-9 | `isValidRTSPAddress` accepts exactly the strings of the pattern's language |
| RtspAddress.AcceptedHasHost | ValidRTSPAddrCheck.cpp:7 | an accepted string starts with `rtsp://`, followed by a host character |
| RtspAddress.EmptyPortRejected | ValidRTSPAddrCheck.cpp:7 | a `:` after the host with no digits is rejected |
| RtspAddress.AllConcat | ValidRTSPAddrCheck.cpp:7 | joining two strings of one character class stays in the class |
| RtspAddress.AcceptedCharacters | ValidRTSPAddrCheck.cpp:7 | every character of an accepted string is in the query character set, so an accepted string holds no white space |
| RtspAddress.ExampleAccepted | ValidRTSPAddrCheck.cpp:13 | "rtsp://example.com:8554/stream1" is accepted |
| RtspAddress.ExampleParts | ValidRTSPAddrCheck.cpp:13 | "example.com", ":8554", "/stream1" and "" are a host, a port, a path and a query of the pattern |
| RtspAddress.ExampleRejected | ValidRTSPAddrCheck.cpp:14 | "invalid_address" is rejected |
| XmlConfig.ParseXml | XmlConfigRead.cpp:8-68 | the loop computes the scanner's tokens. No token holds `<` or `>`, and the tokens joined give the input with its brackets removed |
| XmlConfig.Step | XmlConfigRead.cpp:18-59 | one character never loses text: the emitted tokens and the pending token grow by the character, or stay as they were for `<` and `>` |
| XmlConfig.Parse | XmlConfigRead.cpp:16-65 | no output token holds `<` or `>`; the tokens joined are the input without its brackets, by FlattenIsStrip |
| XmlConfig.FlattenAppend | XmlConfigRead.cpp:22 | appending a token appends its text to the joined tokens |
| XmlConfig.StepKeepsInvariant | XmlConfigRead.cpp:18-59 | one character keeps every invariant: only `<` is on the tag stack, `isClosingTag` is false, no brackets are in the tokens. A `<` always takes the push branch |
| XmlConfig.ScanAllInvariant | XmlConfigRead.cpp:16-59 | the invariant holds after every prefix of every input |
| XmlConfig.NoBracketsInTokens | XmlConfigRead.cpp:16-65 | no output token contains `<` or `>` |
| XmlConfig.NeverClosingTag | XmlConfigRead.cpp:30-34 | `isClosingTag` is never set, since `/` is never pushed |
| XmlConfig.ScanAllFlatten | XmlConfigRead.cpp:16-59 | the emitted tokens and the pending token together hold the characters read so far, brackets removed, in order |
| XmlConfig.FlattenIsStrip | XmlConfigRead.cpp:16-65 | joining the output tokens gives the input with every `<` and `>` removed |
| XmlConfig.TagStackIrrelevant | XmlConfigRead.cpp:26-34 | a scanner without the tag stack and `isClosingTag` computes the same tokens, pending text and tag flag |
| XmlConfig.TokensNonEmptyWithoutClose | XmlConfigRead.cpp:20-24 | while no `>` has been read, every emitted token is non-empty |
| XmlConfig.NoCloseNoEmptyToken | XmlConfigRead.cpp:20-24 | for input without `>`, every output token is non-empty |
| XmlConfig.PlainTextPending | XmlConfigRead.cpp:51-59 | text without brackets accumulates, whole, as the pending token |
| XmlConfig.PlainText | XmlConfigRead.cpp:16-65 | input without brackets yields itself as the single token, or nothing when empty |
| XmlConfig.ExampleEmptyTag | XmlConfigRead.cpp:37-43 | "<>" yields one empty token |
| XmlConfig.ExampleStrayClose | XmlConfigRead.cpp:37-45 | a `>` outside a tag neither emits nor splits: "a>b" yields "ab" |
| XmlConfig.ExampleElement | XmlConfigRead.cpp:16-65 | "<a>b</a>" yields "a", "b", "/a" |
| Tokenize.Split | AppCPULoad.cpp:8-18 | no token holds the delimiter, and there are no tokens exactly when the input is empty |
| Tokenize.CountAppend | AppCPULoad.cpp:13-16 | delimiter counts add over concatenation |
| Tokenize.CountAbsent | AppCPULoad.cpp:13-16 | a string without the delimiter has none to count |
| Tokenize.SplitAt | AppCPULoad.cpp:13-16 | at the first delimiter, the input is the token, the delimiter and the rest |
| Tokenize.SplitHead | AppCPULoad.cpp:13-16 | a token without the delimiter, then the delimiter, then any text: the token comes out first and the text after it is split on its own |
| Tokenize.SplitCount | AppCPULoad.cpp:13-16 | there is one token per delimiter, plus one when the input is non-empty and does not end in the delimiter |
| Tokenize.JoinSplit | AppCPULoad.cpp:13-16 | joining the tokens with the delimiter gives back the input, minus one trailing delimiter |
| Tokenize.JoinSplitAt | AppCPULoad.cpp:13-16 | at the first delimiter, joining gives back the input when it does so for the rest |
| Tokenize.SplitJoin | AppCPULoad.cpp:13-16 | splitting joined tokens gives them back, when no token holds the delimiter and the last is non-empty |
| Tokenize.Examples | AppCPULoad.cpp:13-16 | "" gives no tokens; "a,b" gives two tokens; "a," gives one; ",a" gives an empty token and then "a"; "," gives one empty token |
| RateLimiter.ElapsedSeconds | Udp_forwarder.cpp:194-195 | truncated whole seconds are at least 1 exactly when a full second of ticks has passed, and they bracket the elapsed ticks |
| RateLimiter.Lookup | Udp_forwarder.cpp:191 | `g_rate_map[src_ip]` for an unseen source is a value-initialised entry: count 0, window start at the clock's epoch |
| RateLimiter.CheckRateLimit | Udp_forwarder.cpp:185-210 | a limit of 0 or less admits everything and leaves the map untouched. Otherwise the source's entry is created or updated, even on a rejection, and no other entry changes |
| RateLimiter.WindowRule | Udp_forwarder.cpp:190-209 | the window resets to now exactly when a full second has passed. After that, the packet is admitted exactly when the count is below the limit; admission adds one to the count and rejection adds nothing |
| RateLimiter.CheckKeepsBounded | Udp_forwarder.cpp:197-209 | with a positive limit, every stored count stays within 0..limit |
| RateLimiter.NewWindowAdmits | Udp_forwarder.cpp:197-201 | a packet a full second or more after its source's window start is always admitted |
| RateLimiter.CheckAll | Udp_forwarder.cpp:185-210 | checking a sequence of packets gives one verdict per packet |
| RateLimiter.WithinWindow | Udp_forwarder.cpp:197-209 | inside one window, successive packets are admitted exactly while the window's count stays below the limit |
| RateLimiter.Burst | Udp_forwarder.cpp:185-210 | for a burst within one second from a new source, the first `limit` packets are admitted and the rest are rejected |
| AddressParser.Htons | Udp_forwarder.cpp:150 | `htons` on a little-endian host exchanges the two bytes of the port |
| AddressParser.HtonsInvolution | Udp_forwarder.cpp:150 | `ntohs` undoes `htons` |
| AddressParser.SplitHostPort | Udp_forwarder.cpp:134-141 | there is no split exactly when there is no `:`. Otherwise the text is the host, `:` and the port text, and the host holds no `:`, so the split is at the first colon |
| AddressParser.ParsePort | Udp_forwarder.cpp:144-154 | the port parses exactly when `stoi` succeeds with a value in 0..65535, and it is that value |
| AddressParser.Resolve | Udp_forwarder.cpp:160-173 | the literal parser's answer wins. Otherwise the name lookup's answer is used, and when both fail the host is unresolved |
| AddressParser.ParseAddress | Udp_forwarder.cpp:133-174 | a parsed endpoint is of the AF_INET family |
| AddressParser.ParseAddressIntended | Udp_forwarder.cpp:133-174 | a parsed endpoint is of the AF_INET family |
| AddressParser.SplitAtFirstColon | Udp_forwarder.cpp:134-141 | a host without `:` followed by `:` and any text splits into exactly those two parts |
| AddressParser.ParseAddressOutcome | Udp_forwarder.cpp:133-174 | a destination parses exactly when its port text parses and a resolver knows its host; the address is then the resolved one |
| AddressParser.NoColonFails | Udp_forwarder.cpp:135-138 | text without `:` fails |
| AddressParser.ParsedPortIsZero | Udp_forwarder.cpp:150-158 | every successfully parsed endpoint has port 0, whatever port the text named |
| AddressParser.PriorContentIgnored | Udp_forwarder.cpp:157 | the prior content of the out-parameter never affects the result |
| AddressParser.PortErasedExample | Udp_forwarder.cpp:150-158 | "10.0.0.1:8888" parses to port 0 as written, but to `htons(8888)`, which is non-zero, with the `memset` first |
| AddressParser.IntendedKeepsPort | Udp_forwarder.cpp:145-150 | with the `memset` first, `ntohs` of the stored port is the port the text named, and the address is the resolved one |
| AddressParser.IntendedAgrees | Udp_forwarder.cpp:133-174 | the parser as written and the corrected one succeed on the same inputs and fail with the same error; they differ only in the port |
| Arguments.ApplyOptions | Udp_forwarder.cpp:254-277 | options pass exactly when every option is `-v` or a `-r` with a non-negative integer. Verbose is then set exactly when a `-v` was seen, and the rate stays non-negative. A stop never counts as a parse |
| Arguments.ParseArguments | Udp_forwarder.cpp:245-311 | an accepted command line has a listen port and at least one destination, one endpoint per destination argument in order, and a non-negative rate; the iff is stated by ArgumentsAccepted |
| Arguments.NoRateKeepsRate | Udp_forwarder.cpp:259-270 | without a `-r`, the default rate stays |
| Arguments.LastRateWins | Udp_forwarder.cpp:259-270 | the last `-r` sets the rate |
| Arguments.FirstBadOptionStops | Udp_forwarder.cpp:254-277 | option processing stops at the first bad option. A bad rate or an unknown option rejects, and `-h` exits with the help text |
| Arguments.ParseListenPort | Udp_forwarder.cpp:288-298 | the listen port parses exactly when `stoi` succeeds with a value in 0..65535, and it is that value |
| Arguments.ParseDestinations | Udp_forwarder.cpp:301-308 | the destinations parse exactly when each one does, and the endpoints are kept in argument order. A failure reports the first failing destination with its cause |
| Arguments.ArgumentsAccepted | Udp_forwarder.cpp:245-311 | the command line is accepted exactly when: all options are good, there are at least two positionals, the listen port is in range, and every destination parses. The configuration then holds that port, the verbose flag, a non-negative rate and at least one endpoint, in argument order |
| Arguments.FirstBadOptionDecides | Udp_forwarder.cpp:254-277 | the first bad option decides the outcome, whatever positionals follow |
| Arguments.TooFewPositionals | Udp_forwarder.cpp:280-285 | with good options, fewer than two positionals are rejected as insufficient |
| Arguments.FirstBadDestinationReported | Udp_forwarder.cpp:301-306 | the first destination that fails is the one reported, with its position and its cause |
| Arguments.ClearPorts | Udp_forwarder.cpp:157 | each endpoint is kept with its port set to 0 |
| Arguments.DestinationsAgree | Udp_forwarder.cpp:301-308 | the destination lists parsed as written and corrected succeed together and fail with the same error; they differ only in ports, which are 0 as written |
| Arguments.WrittenAndIntendedAgree | Udp_forwarder.cpp:245-311 | the program as written and the corrected one accept the same command lines. Their configurations differ only in destination ports, and their rejections are identical |
| Arguments.Example | Udp_forwarder.cpp:23 | `-v -r 500 9999 10.0.0.1:7777` gives a verbose configuration with rate 500, listen port 9999 and one endpoint |
| Arguments.ExampleOptions | Udp_forwarder.cpp:23 | `-v -r 500` sets verbose and rate 500 |
| Arguments.ExampleListenPort | Udp_forwarder.cpp:23 | "9999" is listen port 9999 |
| Arguments.ExampleDestination | Udp_forwarder.cpp:23 | the destination list "10.0.0.1:7777" parses to its one endpoint |
| Arguments.ExampleAddress | Udp_forwarder.cpp:23 | "10.0.0.1:7777" parses, in the corrected parser, to the literal address with port `htons(7777)` |
| Shutdown.HandlerClearsFlag | Udp_forwarder.cpp:106-118 | a handler call that returns has counted itself and cleared `keep_running` |
| Shutdown.SignalHandler | Udp_forwarder.cpp:106-118 | a returning call counts itself and clears `keep_running`; the call that finds two earlier calls exits with status 1 |
| Shutdown.HandlerForcesOnThird | Udp_forwarder.cpp:110-113 | the handler forces `exit(1)` exactly on the call that brings the count to three |
| Shutdown.AfterSignals | Udp_forwarder.cpp:107-108 | after n signals that did not force an exit, the handler's counter is n |
| Shutdown.SignalSequence | Udp_forwarder.cpp:86 | no signal leaves `keep_running` set, the first and second signals leave it cleared, and the third forces exit status 1 |
| Shutdown.HandlerKeepsReachable | Udp_forwarder.cpp:106-118 | handler calls keep the counter at most 2, with the flag set exactly when no signal has come |
| Shutdown.AfterSignalsReachable | Udp_forwarder.cpp:86 | every state left by signals from program start is such a reachable state |
| Forwarder.Received | Udp_forwarder.cpp:402-419 | the bytes received are the datagram's length, cut to the 65507-byte buffer |
| Forwarder.Fanout | Udp_forwarder.cpp:442-454 | the loop makes one send per destination, in order, of the received length. All sends succeed exactly when each returned the received length, which is exactly when no warning is issued. Every warning is a failed or a short send |
| Forwarder.Deliver | Udp_forwarder.cpp:430-463 | handling a datagram changes neither the configuration, nor the phase, nor the handler state |
| Forwarder.Step | Udp_forwarder.cpp:416-428 | the configuration never changes, and a stopped loop ignores every event |
| Forwarder.Run | Udp_forwarder.cpp:416-464 | the configuration never changes over a trace |
| Forwarder.AdmittedGoesToAll | Udp_forwarder.cpp:441-454 | an admitted datagram is sent to every destination in order, with the received length. Earlier sends are unchanged and the loop keeps running |
| Forwarder.SendsOnlyWhenAdmitted | Udp_forwarder.cpp:416-439 | nothing is sent on a signal, an interrupted or failed receive, a rate-limited datagram, a cleared flag, or after the loop has stopped |
| Forwarder.RateLimitedNoted | Udp_forwarder.cpp:431-439 | a rate-limited datagram is noted exactly in verbose mode |
| Forwarder.SummaryRule | Udp_forwarder.cpp:457-463 | the summary is printed exactly when verbose is on, the datagram was admitted, and every send returned the received length |
| Forwarder.ReceiveFailureStops | Udp_forwarder.cpp:421-428 | a receive failure other than `EINTR` ends the loop with nothing sent, and `main` then returns 0 (Udp_forwarder.cpp:517) |
| Forwarder.ClearedFlagDrains | Udp_forwarder.cpp:416 | once the flag is cleared, the next receive does not happen: the loop ends, unchanged otherwise, with status 0 |
| Forwarder.StoppedAbsorbs | Udp_forwarder.cpp:416-464 | a stopped loop stays stopped and unchanged over any trace |
| Forwarder.WellFormedSplit | Udp_forwarder.cpp:442-445 | both halves of a well-formed trace are well-formed |
| Forwarder.RunAppend | Udp_forwarder.cpp:416-464 | running two traces one after the other is running their concatenation |
| Forwarder.OutputOnlyGrows | Udp_forwarder.cpp:416-464 | sends and notes are only ever appended, never changed |
| Forwarder.StartInvariant | Udp_forwarder.cpp:86 | the initial state satisfies the invariant: a reachable handler state, and limiter counts within the limit |
| Forwarder.StepKeepsInvariant | Udp_forwarder.cpp:416-464 | every event keeps the invariant |
| Forwarder.RunKeepsInvariant | Udp_forwarder.cpp:416-464 | every trace keeps the invariant |
| Forwarder.FlagStaysCleared | Udp_forwarder.cpp:86 | once cleared, `keep_running` is never set again |
| Forwarder.Signals | Udp_forwarder.cpp:106 | n signals make a trace of n signal events |
| Forwarder.SignalsOnly | Udp_forwarder.cpp:106-118 | with signals alone, the loop tracks the handler: it keeps running with the handler's state until the third signal forces exit status 1 |
| Forwarder.SignalThenReceive | Udp_forwarder.cpp:416 | a signal before the next receive ends the loop without reading or sending |
| Forwarder.Example | Udp_forwarder.cpp:416-464 | a datagram, then a signal, then a datagram: the first is forwarded, the second is never read, and the exit status is 0 |
| Forwarder.ExampleRateLimited | Udp_forwarder.cpp:431-463 | with limit 2 and two destinations, three datagrams within 200 ms: the first two go to both destinations in order with a summary each, and the third is dropped and noted |
| Forwarder.LimiterExample | Udp_forwarder.cpp:190-209 | with limit 2, the first two packets of a window are admitted and the third is refused |
| Forwarder.PairAdmitted | Udp_forwarder.cpp:441-463 | an admitted 10-byte datagram in verbose mode goes to both destinations and adds one summary |
| Forwarder.RunThree | Udp_forwarder.cpp:416-464 | a three-event trace is its three steps in order |
| Forwarder.FanoutPair | Udp_forwarder.cpp:442-454 | two successful sends of 10 bytes to two destinations, in order, with no warnings |

## Left out

- Socket and OS calls (`socket`, `setsockopt`, `bind`, `close`, `sigaction`, `recvfrom`, `sendto`) are I/O. Their outcomes arrive as events and as send results, and `initialize_socket` and `setup_signal_handlers` are not modelled.
- `getopt_long` is library code. The command line arrives already split into recognised options and positionals, so option permutation and the `--rate=` spelling are not modelled.
- `inet_pton` and `gethostbyname` are library and network code. They are parameters.
- `inet_ntop`, `addr_to_string`, `print_usage` and every console or log text are output only. The model keeps the decisions: which note, warning or summary is issued.
- Real asynchronous signal delivery and the `volatile` flag are concurrency. Signals are discrete events between loop steps. The race between the flag test and a blocking `recvfrom` is not modelled beyond the `EINTR` event.
- The `try`/`catch` in `main` (`Udp_forwarder.cpp:500-507`) is not modelled, because no modelled step throws.
- The `config_file` field of `ForwarderConfig` is not modelled, because no code reads it.
- `swapBytesFloat`, and `swapBytesDouble` as a `double`, are floating point. Only the bit pattern `swapBytesDouble` produces is modelled.
- `ntpdate-sync.cpp:51-57` is floating point plus `ctime_r`, and line 54 does not compile as written. The socket exchange of that file is I/O.
- `getCPULoad` is floating point and `/proc` I/O. Only `split` from that file is modelled.
- `getMacAddress` is device I/O. Only its `%02X:` format string (`isMacAddrTampered.cpp:73-74`) is modelled.
- `std::regex` itself is not modelled. Both patterns are hand-written recognisers for their languages.
- The other files of the repository are not part of this model. They are device, process and timer plumbing, geometry in floating point, and an IPv6 classifier that throws on ordinary input.

## Findings

| source | as written | input that shows it | evidently intended | confidence | as-written member | corrected member |
|---|---|---|---|---|---|---|
| Udp_forwarder.cpp:150-158 | the port is stored with `htons` and then erased by the `memset` that precedes setting the family and the address, so every parsed destination has port 0 | "10.0.0.1:8888" with `inet_pton` accepting "10.0.0.1": the endpoint gets port 0 | clear the structure first, then store the port, so the endpoint carries `htons(8888)` | not executed | AddressParser.PortErasedExample | AddressParser.IntendedKeepsPort |

The argument validation takes the destination parser as a parameter. `Arguments.AsWrittenParser` is `parse_address` as written, and `Arguments.IntendedParser` is the corrected parser. `Arguments.WrittenAndIntendedAgree` proves the two differ only in destination ports. The forwarder's examples use endpoints that carry their ports, as the corrected parser produces.
