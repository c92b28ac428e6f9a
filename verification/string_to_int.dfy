/** `std::stoi(s)` as the sources use it (base 10): `strtol` skips C-locale
    white space, accepts one optional sign and reads the longest run of
    decimal digits; no digits throws `std::invalid_argument`, a value outside
    `int` throws `std::out_of_range`. Characters after the digit run are
    ignored. */
module StringToInt {
  import opened Wrappers
  import opened FixedWidth

  datatype StoiError = InvalidArgument | OutOfRange

  /** `isspace` in the "C" locale. */
  predicate IsSpace(c: char) {
    c == ' ' || c == '\t' || c == '\n' || c == '\U{000B}' || c == '\U{000C}' || c == '\r'
  }

  predicate IsDigit(c: char) {
    '0' <= c <= '9'
  }

  function DigitValue(c: char): (d: nat)
    requires IsDigit(c)
    ensures d < 10
  {
    (c as int) - ('0' as int)
  }

  function DigitChar(d: nat): (c: char)
    requires d < 10
    ensures IsDigit(c) && DigitValue(c) == d
  {
    (('0' as int) + d) as char
  }

  /** Number of leading white-space characters. */
  function SpaceRun(s: string): (n: nat)
    ensures n <= |s|
    ensures forall i :: 0 <= i < n ==> IsSpace(s[i])
    ensures n < |s| ==> !IsSpace(s[n])
  {
    if |s| > 0 && IsSpace(s[0]) then 1 + SpaceRun(s[1..]) else 0
  }

  /** Length of the longest prefix made of decimal digits. */
  function DigitRun(s: string): (n: nat)
    ensures n <= |s|
    ensures forall i :: 0 <= i < n ==> IsDigit(s[i])
    ensures n < |s| ==> !IsDigit(s[n])
  {
    if |s| > 0 && IsDigit(s[0]) then 1 + DigitRun(s[1..]) else 0
  }

  predicate AllDigits(d: string) {
    forall i :: 0 <= i < |d| ==> IsDigit(d[i])
  }

  /** The value of a string of decimal digits, most significant first. */
  function DecimalValue(d: string): nat
    requires AllDigits(d)
  {
    if |d| == 0 then 0 else DecimalValue(d[..|d| - 1]) * 10 + DigitValue(d[|d| - 1])
  }

  /** The decimal rendering of a natural number, without leading zeros. */
  function Decimal(n: nat): (d: string)
    ensures |d| >= 1 && AllDigits(d)
    ensures |d| > 1 ==> d[0] != '0'
  {
    if n < 10 then [DigitChar(n)] else Decimal(n / 10) + [DigitChar(n % 10)]
  }

  /** The integer `strtol` reads from `s`, at full precision; `None` when
      no digit follows the white space and the optional sign. */
  function ScanInteger(s: string): Option<int> {
    ScanSigned(s[SpaceRun(s)..])
  }

  /** The optional sign and the digit run, once the white space is skipped. */
  function ScanSigned(t: string): Option<int> {
    if |t| > 0 && t[0] == '-' then
      match ScanDigits(t[1..])
      case None => None
      case Some(v) => Some(-(v as int))
    else if |t| > 0 && t[0] == '+' then ScanDigits(t[1..])
    else ScanDigits(t)
  }

  /** The value of the longest digit run at the start of `u`; `None` when it is empty. */
  function ScanDigits(u: string): Option<nat> {
    var n := DigitRun(u);
    if n == 0 then None else Some(DecimalValue(u[..n]))
  }

  function Stoi(s: string): (r: Result<int, StoiError>)
    ensures r.Success? ==> Int32Min <= r.value <= Int32Max
    ensures r == Failure(InvalidArgument) <==> ScanInteger(s).None?
    ensures r.Success? <==> ScanInteger(s).Some? && Int32Min <= ScanInteger(s).value <= Int32Max
    ensures r.Success? ==> r.value == ScanInteger(s).value
  {
    match ScanInteger(s)
    case None => Failure(InvalidArgument)
    case Some(v) => if Int32Min <= v <= Int32Max then Success(v) else Failure(OutOfRange)
  }

  lemma {:induction false} DecimalRoundTrip(n: nat)
    ensures DecimalValue(Decimal(n)) == n
    decreases n
  {
    var d := Decimal(n);
    if n >= 10 {
      DecimalRoundTrip(n / 10);
      assert d[..|d| - 1] == Decimal(n / 10);
    }
  }

  lemma {:induction false} DigitRunStopsAt(d: string, t: string)
    requires AllDigits(d)
    requires |t| == 0 || !IsDigit(t[0])
    ensures DigitRun(d + t) == |d|
    decreases |d|
  {
    var s := d + t;
    if |d| > 0 {
      assert s[0] == d[0] && IsDigit(s[0]);
      assert s[1..] == d[1..] + t;
      assert AllDigits(d[1..]) by {
        forall i | 0 <= i < |d| - 1
          ensures IsDigit(d[1..][i])
        {
          assert d[1..][i] == d[i + 1];
        }
      }
      DigitRunStopsAt(d[1..], t);
      assert DigitRun(s) == 1 + DigitRun(s[1..]);
    } else {
      assert s == t;
    }
  }

  lemma SpaceRunNone(s: string)
    requires |s| == 0 || !IsSpace(s[0])
    ensures SpaceRun(s) == 0
  {
  }

  /** `stoi` reads back what `to_string` writes, whatever follows the digits. */
  lemma StoiDecimal(n: nat, t: string)
    requires n <= Int32Max
    requires |t| == 0 || !IsDigit(t[0])
    ensures Stoi(Decimal(n) + t) == Success(n)
  {
    var s := Decimal(n) + t;
    SpaceRunNone(s);
    assert s[0..] == s;
    DigitRunStopsAt(Decimal(n), t);
    assert s[..|Decimal(n)|] == Decimal(n);
    DecimalRoundTrip(n);
  }

  /** A leading minus sign negates the value read. */
  lemma StoiNegativeDecimal(n: nat, t: string)
    requires n <= -Int32Min
    requires |t| == 0 || !IsDigit(t[0])
    ensures Stoi("-" + Decimal(n) + t) == Success(-(n as int))
  {
    var u := Decimal(n) + t;
    var s := "-" + Decimal(n) + t;
    assert s == "-" + u;
    SpaceRunNone(s);
    assert s[0..] == s;
    ScanDigitsStopsAt(Decimal(n), t);
    DecimalRoundTrip(n);
    ScanNegative(u, n);
    assert ScanInteger(s) == Some(-(n as int));
  }

  /** A minus sign in front of a digit run negates the value read. */
  lemma ScanNegative(u: string, v: nat)
    requires ScanDigits(u) == Some(v)
    ensures ScanSigned("-" + u) == Some(-(v as int))
  {
    var s := "-" + u;
    assert s[1..] == u;
  }

  /** A digit run followed by a non-digit reads as the run's value. */
  lemma ScanDigitsStopsAt(d: string, t: string)
    requires |d| >= 1 && AllDigits(d)
    requires |t| == 0 || !IsDigit(t[0])
    ensures ScanDigits(d + t) == Some(DecimalValue(d))
  {
    DigitRunStopsAt(d, t);
    assert (d + t)[..|d|] == d;
  }

  /** `stoi` of a string made only of digits is its decimal value, when in range. */
  lemma StoiOfDigits(s: string)
    requires |s| > 0 && AllDigits(s) && DecimalValue(s) <= Int32Max
    ensures Stoi(s) == Success(DecimalValue(s) as int)
  {
    SpaceRunNone(s);
    assert s[0..] == s;
    DigitRunStopsAt(s, "");
    assert s + "" == s;
    assert s[..|s|] == s;
  }

  /** The numbers the examples of the other modules read. */
  lemma StoiOf192()
    ensures Stoi("192") == Success(192)
  {
    assert DecimalValue("192") == 192 by {
      assert "192"[..2] == "19" && "19"[..1] == "1" && "1"[..0] == "";
    }
    StoiOfDigits("192");
  }

  lemma StoiOf500()
    ensures Stoi("500") == Success(500)
  {
    assert DecimalValue("500") == 500 by {
      assert "500"[..2] == "50" && "50"[..1] == "5" && "5"[..0] == "";
    }
    StoiOfDigits("500");
  }

  lemma StoiOf7777()
    ensures Stoi("7777") == Success(7777)
  {
    assert DecimalValue("7777") == 7777 by {
      assert "7777"[..3] == "777" && "777"[..2] == "77" && "77"[..1] == "7" && "7"[..0] == "";
    }
    StoiOfDigits("7777");
  }

  lemma StoiOf8888()
    ensures Stoi("8888") == Success(8888)
  {
    assert DecimalValue("8888") == 8888 by {
      assert "8888"[..3] == "888" && "888"[..2] == "88" && "88"[..1] == "8" && "8"[..0] == "";
    }
    StoiOfDigits("8888");
  }

  lemma StoiOf9999()
    ensures Stoi("9999") == Success(9999)
  {
    assert DecimalValue("9999") == 9999 by {
      assert "9999"[..3] == "999" && "999"[..2] == "99" && "99"[..1] == "9" && "9"[..0] == "";
    }
    StoiOfDigits("9999");
  }

  lemma {:induction false} SpaceRunSkips(w: string, s: string)
    requires forall i :: 0 <= i < |w| ==> IsSpace(w[i])
    ensures SpaceRun(w + s) == |w| + SpaceRun(s)
    decreases |w|
  {
    if |w| > 0 {
      assert IsSpace(w[0]);
      assert (w + s)[0] == w[0];
      assert (w + s)[1..] == w[1..] + s;
      SpaceRunSkips(w[1..], s);
      assert SpaceRun(w + s) == 1 + SpaceRun(w[1..] + s);
    } else {
      assert w + s == s;
    }
  }

  /** Leading white space never changes the outcome. */
  lemma StoiSkipsSpaces(w: string, s: string)
    requires forall i :: 0 <= i < |w| ==> IsSpace(w[i])
    ensures Stoi(w + s) == Stoi(s)
  {
    SpaceRunSkips(w, s);
    var t := (w + s)[SpaceRun(w + s)..];
    assert t == s[SpaceRun(s)..];
    assert ScanInteger(w + s) == ScanSigned(t);
  }

  /** A string that, after white space, starts with neither a sign nor a
      digit makes `stoi` throw `std::invalid_argument`. */
  lemma StoiRejectsNonNumeric(s: string)
    requires SpaceRun(s) == |s| || (var c := s[SpaceRun(s)]; c != '-' && c != '+' && !IsDigit(c))
    ensures Stoi(s) == Failure(InvalidArgument)
  {
  }
}
