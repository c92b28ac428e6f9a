/** `parse_address`: "host:port" into a `sockaddr_in`. The text is split at
    the first `:`; the port is read with `std::stoi` and range-checked; the
    host is tried as a dotted literal (`inet_pton`) and then looked up by
    name (`gethostbyname`). Both resolvers are parameters: `pton` is a
    partial literal parser, `lookup` a name service that may fail. Ports and
    addresses are stored in network byte order on a little-endian host. */
module AddressParser {
  import opened Wrappers
  import opened FixedWidth
  import opened StringToInt
  import Text

  const AF_INET: uint16 := 2
  const MaxPort: int := 65535

  /** The three fields of `sockaddr_in` the code touches. */
  datatype SockAddrIn = SockAddrIn(family: uint16, port: uint16, addr: uint32)

  /** `memset(&sockaddr, 0, sizeof(sockaddr))`. */
  const ZeroSockAddr: SockAddrIn := SockAddrIn(0, 0, 0)

  datatype AddressError =
    | MissingColon
    | InvalidPort(reason: StoiError)
    | PortOutOfRange(port: int)
    | UnresolvedHost(host: string)

  /** `htons` on a little-endian host: the two bytes exchanged. */
  function Htons(p: uint16): (r: uint16)
    ensures r % 256 == p / 256 && r / 256 == p % 256
  {
    var lo, hi := p % 256, p / 256;
    assert (lo * 256 + hi) % 256 == hi && (lo * 256 + hi) / 256 == lo by {
      assert lo * 256 + hi == hi + 256 * lo;
    }
    lo * 256 + hi
  }

  /** `ntohs` is the same exchange, so it undoes `htons`. */
  lemma HtonsInvolution(p: uint16)
    ensures Htons(Htons(p)) == p
  {
    var r := Htons(p);
    var q := Htons(r);
    assert q % 256 == p % 256 && q / 256 == p / 256;
    assert q == (q / 256) * 256 + q % 256;
    assert p == (p / 256) * 256 + p % 256;
  }

  /** The host text and port text either side of the first `:`. */
  function SplitHostPort(addrStr: string): (r: Option<(string, string)>)
    ensures r.None? <==> ':' !in addrStr
    ensures r.Some? ==> addrStr == r.value.0 + ":" + r.value.1 && ':' !in r.value.0
  {
    match Text.IndexOf(addrStr, ':')
    case None => None
    case Some(i) =>
      assert addrStr == addrStr[..i] + ":" + addrStr[i + 1..];
      Some((addrStr[..i], addrStr[i + 1..]))
  }

  /** The port text as `stoi` reads it, within `0..65535`. */
  function ParsePort(portStr: string): (r: Result<uint16, AddressError>)
    ensures r.Success? <==> Stoi(portStr).Success? && 0 <= Stoi(portStr).value <= MaxPort
    ensures r.Success? ==> r.value == Stoi(portStr).value
  {
    match Stoi(portStr)
    case Failure(e) => Failure(InvalidPort(e))
    case Success(port) => if port < 0 || port > MaxPort then Failure(PortOutOfRange(port)) else Success(port)
  }

  /** `inet_pton` first, `gethostbyname` if that fails. */
  function Resolve(host: string, pton: string -> Option<uint32>, lookup: string -> Option<uint32>): (r: Result<uint32, AddressError>)
    ensures r.Success? <==> pton(host).Some? || lookup(host).Some?
    ensures pton(host).Some? ==> r == Success(pton(host).value)
    ensures pton(host).None? && lookup(host).Some? ==> r == Success(lookup(host).value)
  {
    match pton(host)
    case Some(a) => Success(a)
    case None =>
      match lookup(host)
      case Some(a) => Success(a)
      case None => Failure(UnresolvedHost(host))
  }

  /** `parse_address` as written: the port is stored into `sockaddr` and
      then erased by the `memset` that precedes the family and address. */
  function ParseAddress(addrStr: string, sockaddr: SockAddrIn, pton: string -> Option<uint32>, lookup: string -> Option<uint32>): (r: Result<SockAddrIn, AddressError>)
    ensures r.Success? ==> r.value.family == AF_INET
  {
    match SplitHostPort(addrStr)
    case None => Failure(MissingColon)
    case Some((host, portStr)) =>
      match ParsePort(portStr)
      case Failure(e) => Failure(e)
      case Success(port) =>
        var withPort := sockaddr.(port := Htons(port));
        var cleared := ZeroSockAddr;
        var inet := cleared.(family := AF_INET);
        match Resolve(host, pton, lookup)
        case Failure(e) => Failure(e)
        case Success(a) => Success(inet.(addr := a))
  }

  /** `parse_address` with the `memset` moved ahead of the port store. */
  function ParseAddressIntended(addrStr: string, pton: string -> Option<uint32>, lookup: string -> Option<uint32>): (r: Result<SockAddrIn, AddressError>)
    ensures r.Success? ==> r.value.family == AF_INET
  {
    match SplitHostPort(addrStr)
    case None => Failure(MissingColon)
    case Some((host, portStr)) =>
      match ParsePort(portStr)
      case Failure(e) => Failure(e)
      case Success(port) =>
        match Resolve(host, pton, lookup)
        case Failure(e) => Failure(e)
        case Success(a) => Success(SockAddrIn(AF_INET, Htons(port), a))
  }

  /** Text with no `:` before the added one splits there. */
  lemma SplitAtFirstColon(host: string, portStr: string)
    requires ':' !in host
    ensures SplitHostPort(host + ":" + portStr) == Some((host, portStr))
  {
    var s := host + ":" + portStr;
    assert s[|host|] == ':' && s[..|host|] == host;
    assert Text.IndexOf(s, ':') == Some(|host|);
    assert s[|host| + 1..] == portStr;
  }

  /** Success exactly when there is a `:`, the text after it reads as a port
      and one of the resolvers knows the host; on success the address is
      the resolver's answer for the text before the first `:`. */
  lemma ParseAddressOutcome(host: string, portStr: string, sockaddr: SockAddrIn, pton: string -> Option<uint32>, lookup: string -> Option<uint32>)
    requires ':' !in host
    ensures var r := ParseAddress(host + ":" + portStr, sockaddr, pton, lookup);
            && (r.Success? <==> ParsePort(portStr).Success? && Resolve(host, pton, lookup).Success?)
            && (r.Success? ==> r.value.addr == Resolve(host, pton, lookup).value)
  {
    SplitAtFirstColon(host, portStr);
  }

  /** Without a `:` the parse fails. */
  lemma NoColonFails(addrStr: string, sockaddr: SockAddrIn, pton: string -> Option<uint32>, lookup: string -> Option<uint32>)
    requires ':' !in addrStr
    ensures ParseAddress(addrStr, sockaddr, pton, lookup) == Failure(MissingColon)
  {
  }

  /** The port is erased: every successfully parsed endpoint has port 0,
      whatever port the text named. */
  lemma ParsedPortIsZero(addrStr: string, sockaddr: SockAddrIn, pton: string -> Option<uint32>, lookup: string -> Option<uint32>)
    requires ParseAddress(addrStr, sockaddr, pton, lookup).Success?
    ensures ParseAddress(addrStr, sockaddr, pton, lookup).value.port == 0
  {
  }

  /** Nor does the prior content of the out-parameter matter. */
  lemma PriorContentIgnored(addrStr: string, a: SockAddrIn, b: SockAddrIn, pton: string -> Option<uint32>, lookup: string -> Option<uint32>)
    ensures ParseAddress(addrStr, a, pton, lookup) == ParseAddress(addrStr, b, pton, lookup)
  {
  }

  /** A concrete input that shows the erasure: "10.0.0.1:8888" parses, yet
      the endpoint's port is 0 instead of `htons(8888)`. */
  lemma PortErasedExample(pton: string -> Option<uint32>, lookup: string -> Option<uint32>)
    requires pton("10.0.0.1") == Some(0x0100000A)
    ensures ParseAddress("10.0.0.1:8888", ZeroSockAddr, pton, lookup) == Success(SockAddrIn(AF_INET, 0, 0x0100000A))
    ensures ParseAddressIntended("10.0.0.1:8888", pton, lookup) == Success(SockAddrIn(AF_INET, Htons(8888), 0x0100000A))
    ensures Htons(8888) != 0
  {
    assert "10.0.0.1:8888" == "10.0.0.1" + ":" + "8888";
    SplitAtFirstColon("10.0.0.1", "8888");
    StoiOf8888();
  }

  /** The corrected parser keeps the port: `ntohs` of the stored port is
      the port the text named. */
  lemma IntendedKeepsPort(host: string, portStr: string, pton: string -> Option<uint32>, lookup: string -> Option<uint32>)
    requires ':' !in host
    requires ParseAddressIntended(host + ":" + portStr, pton, lookup).Success?
    ensures ParsePort(portStr).Success? && Resolve(host, pton, lookup).Success?
    ensures var r := ParseAddressIntended(host + ":" + portStr, pton, lookup).value;
            && Htons(r.port) == ParsePort(portStr).value
            && r.addr == Resolve(host, pton, lookup).value
  {
    SplitAtFirstColon(host, portStr);
    var port := ParsePort(portStr);
    HtonsInvolution(port.value);
  }

  /** The two parsers succeed and fail on the same inputs, with the same
      error, and differ only in the port. */
  lemma IntendedAgrees(addrStr: string, sockaddr: SockAddrIn, pton: string -> Option<uint32>, lookup: string -> Option<uint32>)
    ensures var w := ParseAddress(addrStr, sockaddr, pton, lookup);
            var i := ParseAddressIntended(addrStr, pton, lookup);
            && (w.Success? <==> i.Success?)
            && (w.Failure? ==> w.error == i.error)
            && (w.Success? ==> w.value == i.value.(port := 0))
  {
  }
}
