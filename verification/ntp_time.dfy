/** Conversion of a 64-bit NTP timestamp (32 bits of seconds since 1900,
    32 bits of fraction; section 6 of RFC 5905) to Unix `time_t` seconds:
    the seconds field minus the 1900-to-1970 offset, subtracted in
    `uint64_t` and then cast to the signed 64-bit `time_t`. */
module NtpTime {
  import opened FixedWidth

  /** Seconds from 1900-01-01 to 1970-01-01. */
  const UnixEpochInNtp: int := 2208988800

  /** `ntpToUtc`, with its constants `0x100000000` and `0x83AA7E80`. */
  function NtpToUtc(ntpTime: uint64): (utc: int64)
    ensures utc == ntpTime / Two32 - UnixEpochInNtp
    ensures -UnixEpochInNtp <= utc <= Two32 - 1 - UnixEpochInNtp
  {
    var ntpFracPerSec: uint64 := 0x1_0000_0000;
    var ntpEpochOffset: uint64 := 0x83AA7E80;
    var ntpSecs: uint64 := ntpTime / ntpFracPerSec;
    var ntpFrac: uint64 := ntpTime % ntpFracPerSec;
    AsSigned64(SubU64(ntpSecs, ntpEpochOffset))
  }

  /** `1LL << 32`, evaluated in 64 bits. */
  function OneShl32(): (r: uint64)
    ensures r == Two32
  {
    ((1 as bv64) << 32) as int
  }

  /** `ntpToGmtTime`, with its constants `1LL << 32` and `2208988800ULL`. */
  function NtpToGmtTime(ntpTime: uint64): (gmt: int64)
    ensures gmt == ntpTime / Two32 - UnixEpochInNtp
  {
    var ntpFracPerSec: uint64 := OneShl32();
    var ntpEpochOffset: uint64 := 2208988800;
    var ntpSec: uint64 := ntpTime / ntpFracPerSec;
    var ntpFrac: uint64 := ntpTime % ntpFracPerSec;
    AsSigned64(SubU64(ntpSec, ntpEpochOffset))
  }

  /** The hexadecimal offset of one file is the decimal offset of the other. */
  lemma SameEpochOffset()
    ensures 0x83AA7E80 == UnixEpochInNtp
  {
  }

  /** The two functions agree on every timestamp. */
  lemma GmtTimeIsUtc(t: uint64)
    ensures NtpToGmtTime(t) == NtpToUtc(t)
  {
  }

  /** The 32 fraction bits never reach the result. */
  lemma FractionIgnored(t: uint64, fraction: nat)
    requires fraction < Two32
    requires (t / Two32) * Two32 + fraction < Two64
    ensures NtpToUtc((t / Two32) * Two32 + fraction) == NtpToUtc(t)
  {
    var u := (t / Two32) * Two32 + fraction;
    assert u / Two32 == t / Two32;
  }

  /** Seconds fields before 1970 come out negative rather than wrapped. */
  lemma Pre1970IsNegative(t: uint64)
    requires t / Two32 < UnixEpochInNtp
    ensures NtpToUtc(t) < 0
  {
  }

  lemma Examples()
    ensures NtpToUtc(0x83AA7F7F0145C000) == 255
    ensures NtpToGmtTime(3785936769) == -2208988800
  {
  }
}
