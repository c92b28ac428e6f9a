/** Classful IPv4 addressing by first octet: classes A, B and C of section
    3.2 of RFC 791 and the class D multicast range of section 4 of RFC 1112;
    everything else is reported as class E. */
module IpClass {
  import opened Wrappers
  import opened StringToInt
  import Text

  const ClassA: string := "Class A"
  const ClassB: string := "Class B"
  const ClassC: string := "Class C"
  const ClassD: string := "Class D (Multicast)"
  const ClassE: string := "Class E (Reserved)"

  /** The range tests of `getIPClass`, applied to the parsed octet. */
  function ClassOf(firstOctet: int): (r: string)
    ensures r == ClassE <==> firstOctet < 0 || firstOctet > 239
  {
    if 0 <= firstOctet <= 127 then ClassA
    else if 128 <= firstOctet <= 191 then ClassB
    else if 192 <= firstOctet <= 223 then ClassC
    else if 224 <= firstOctet <= 239 then ClassD
    else ClassE
  }

  /** `getIPClass`: `stoi` of the text before the first `.`; a text with no
      leading integer, or one outside `int`, makes `stoi` throw. */
  function GetIPClass(ipAddress: string): (r: Result<string, StoiError>)
    ensures r.Failure? <==> Stoi(Text.Before(ipAddress, '.')).Failure?
    ensures r.Failure? ==> r.error == Stoi(Text.Before(ipAddress, '.')).error
    ensures r.Success? ==> r.value == ClassOf(Stoi(Text.Before(ipAddress, '.')).value)
  {
    match Stoi(Text.Before(ipAddress, '.'))
    case Failure(e) => Failure(e)
    case Success(firstOctet) => Success(ClassOf(firstOctet))
  }

  /** The classful definition for a real octet: the class is fixed by the
      leading bits 0, 10, 110, 1110 and 1111, read off as the octet divided
      by a power of two. */
  function ClassByLeadingBits(o: int): string
    requires 0 <= o < 256
  {
    if o / 128 == 0 then ClassA
    else if o / 64 == 0x2 then ClassB
    else if o / 32 == 0x6 then ClassC
    else if o / 16 == 0xE then ClassD
    else ClassE
  }

  /** The ranges of `getIPClass` are exactly the leading-bit classes. */
  lemma ClassOfIsClassful(o: int)
    requires 0 <= o < 256
    ensures ClassOf(o) == ClassByLeadingBits(o)
  {
    assert (o / 128 == 0) <==> o < 128;
    assert (o / 64 == 0x2) <==> 128 <= o < 192;
    assert (o / 32 == 0x6) <==> 192 <= o < 224;
    assert (o / 16 == 0xE) <==> 224 <= o < 240;
  }

  /** Anything outside 0-255, negatives included, is reported as class E. */
  lemma OutOfOctetRangeIsClassE(o: int)
    requires o < 0 || o > 255
    ensures ClassOf(o) == ClassE
  {
  }

  /** The five answers are distinct, so the class determines the range. */
  lemma ClassOfRanges(o: int)
    ensures ClassOf(o) == ClassA <==> 0 <= o <= 127
    ensures ClassOf(o) == ClassB <==> 128 <= o <= 191
    ensures ClassOf(o) == ClassC <==> 192 <= o <= 223
    ensures ClassOf(o) == ClassD <==> 224 <= o <= 239
    ensures ClassOf(o) == ClassE <==> o < 0 || o > 239
  {
  }

  /** Nothing after the first `.` matters. */
  lemma OnlyFirstFieldMatters(field: string, rest: string)
    requires '.' !in field
    ensures GetIPClass(field + "." + rest) == GetIPClass(field)
  {
    var s := field + "." + rest;
    assert s[|field|] == '.';
    assert s[..|field|] == field;
    assert Text.Before(s, '.') == field;
    assert Text.Before(field, '.') == field;
  }

  /** A first field whose first character is neither white space, a sign
      nor a digit is an `invalid_argument` failure. */
  lemma NonNumericFieldFails(ipAddress: string)
    requires |ipAddress| > 0
    requires var c := ipAddress[0]; !IsSpace(c) && c != '+' && c != '-' && !IsDigit(c)
    ensures GetIPClass(ipAddress) == Failure(InvalidArgument)
  {
    var f := Text.Before(ipAddress, '.');
    if |f| > 0 {
      assert f[0] == ipAddress[0];
      assert SpaceRun(f) == 0;
    }
    StoiRejectsNonNumeric(f);
  }

  /** A dotted quad is classified by the decimal value of its first field. */
  lemma DottedQuad(a: nat, rest: string)
    requires a <= 255
    ensures GetIPClass(Decimal(a) + "." + rest) == Success(ClassByLeadingBits(a))
  {
    var f := Decimal(a);
    OnlyFirstFieldMatters(f, rest);
    assert Text.Before(f, '.') == f;
    StoiDecimal(a, "");
    assert f + "" == f;
    ClassOfIsClassful(a);
  }

  lemma Example()
    ensures GetIPClass("192.168.1.1") == Success(ClassC)
  {
    assert "192" + "." + "168.1.1" == "192.168.1.1";
    OnlyFirstFieldMatters("192", "168.1.1");
    ExampleFirstField();
  }

  lemma ExampleFirstField()
    ensures GetIPClass("192") == Success(ClassC)
  {
    assert '.' !in "192";
    assert Text.IndexOf("192", '.').None?;
    StoiOf192();
  }
}
