/** `parse_arguments`, after `getopt_long` has split the command line into
    the options it recognised, in order, and the positional arguments.
    Options are applied one at a time: `-v` sets verbose, `-r` reads the
    rate with `std::stoi` and rejects a negative one, `-h` ends the program
    with status 0 and anything unrecognised is rejected. The positionals
    are a listen port and at least one destination; each destination goes
    through a destination parser, and the parsed endpoints are kept in
    argument order. */
module Arguments {
  import opened Wrappers
  import opened FixedWidth
  import opened StringToInt
  import opened AddressParser

  /** `DEFAULT_RATE_LIMIT`, in packets per second per source. */
  const DefaultRateLimit: int := 1000

  /** The options as `getopt_long` reports them; `-r` carries `optarg`. */
  datatype Opt = Verbose | Rate(arg: string) | Help | Unrecognized

  /** The part of `ForwarderConfig` the forwarder uses. */
  datatype Config = Config(listenPort: uint16, destinations: seq<SockAddrIn>, verbose: bool, rateLimit: int)

  datatype ArgError =
    | InvalidRate(arg: string)
    | NegativeRate(rate: int)
    | UnknownOption
    | InsufficientArguments
    | InvalidListenPort(reason: StoiError)
    | ListenPortOutOfRange(port: int)
    | BadDestination(index: nat, cause: AddressError)

  /** `true` from `parse_arguments`, `false` from it, or `exit(0)` after the usage text. */
  datatype ArgOutcome = Parsed(config: Config) | Rejected(error: ArgError) | HelpRequested

  /** A destination text to an endpoint; `parse_address` is one of these. */
  type DestinationParser = string -> Result<SockAddrIn, AddressError>

  /** The destination parser the program uses: `parse_address` as written. */
  function AsWrittenParser(pton: string -> Option<uint32>, lookup: string -> Option<uint32>): DestinationParser {
    s => ParseAddress(s, ZeroSockAddr, pton, lookup)
  }

  /** The destination parser with the port kept. */
  function IntendedParser(pton: string -> Option<uint32>, lookup: string -> Option<uint32>): DestinationParser {
    s => ParseAddressIntended(s, pton, lookup)
  }

  /** An option after which option processing goes on. */
  predicate GoodOpt(o: Opt) {
    o.Verbose? || (o.Rate? && Stoi(o.arg).Success? && Stoi(o.arg).value >= 0)
  }

  /** What an option that is not good does to the program. */
  function StopFor(o: Opt): ArgOutcome {
    match o
    case Help => HelpRequested
    case Rate(arg) =>
      if Stoi(arg).Failure? then Rejected(InvalidRate(arg)) else Rejected(NegativeRate(Stoi(arg).value))
    case _ => Rejected(UnknownOption)
  }

  datatype OptionsResult = OptionsOk(verbose: bool, rate: int) | OptionsStop(outcome: ArgOutcome)

  /** The `while (getopt_long(...) != -1)` loop, starting from `verbose` and `rate`. */
  function ApplyOptions(opts: seq<Opt>, verbose: bool, rate: int): (r: OptionsResult)
    ensures r.OptionsOk? <==> forall i :: 0 <= i < |opts| ==> GoodOpt(opts[i])
    ensures r.OptionsOk? ==> r.verbose == (verbose || Verbose in opts)
    ensures r.OptionsOk? && rate >= 0 ==> r.rate >= 0
    ensures r.OptionsStop? ==> !r.outcome.Parsed?
    decreases |opts|
  {
    if |opts| == 0 then OptionsOk(verbose, rate)
    else
      var rest := opts[1..];
      assert forall i :: 0 < i < |opts| ==> opts[i] == rest[i - 1];
      assert opts == [opts[0]] + rest;
      match opts[0]
      case Verbose => ApplyOptions(rest, true, rate)
      case Rate(arg) =>
        (match Stoi(arg)
         case Failure(_) => OptionsStop(Rejected(InvalidRate(arg)))
         case Success(n) => if n < 0 then OptionsStop(Rejected(NegativeRate(n))) else ApplyOptions(rest, verbose, n))
      case Help => OptionsStop(HelpRequested)
      case Unrecognized => OptionsStop(Rejected(UnknownOption))
  }

  /** The rate the next option starts from. */
  function RateAfter(o: Opt, rate: int): int {
    if o.Rate? && Stoi(o.arg).Success? then Stoi(o.arg).value else rate
  }

  /** Without a `-r` the starting rate stays. */
  lemma {:induction false} NoRateKeepsRate(opts: seq<Opt>, verbose: bool, rate: int)
    requires ApplyOptions(opts, verbose, rate).OptionsOk?
    requires forall i :: 0 <= i < |opts| ==> !opts[i].Rate?
    ensures ApplyOptions(opts, verbose, rate).rate == rate
    decreases |opts|
  {
    if |opts| > 0 {
      var rest := opts[1..];
      assert forall i :: 0 < i < |opts| ==> opts[i] == rest[i - 1];
      NoRateKeepsRate(rest, verbose || opts[0].Verbose?, rate);
    }
  }

  /** The last `-r` sets the rate. */
  lemma {:induction false} LastRateWins(opts: seq<Opt>, verbose: bool, rate: int, i: nat)
    requires ApplyOptions(opts, verbose, rate).OptionsOk?
    requires i < |opts| && opts[i].Rate?
    requires forall j :: i < j < |opts| ==> !opts[j].Rate?
    ensures ApplyOptions(opts, verbose, rate).rate == Stoi(opts[i].arg).value
    decreases |opts|
  {
    var rest := opts[1..];
    assert forall j :: 0 < j < |opts| ==> opts[j] == rest[j - 1];
    assert GoodOpt(opts[0]);
    var r := ApplyOptions(rest, verbose || opts[0].Verbose?, RateAfter(opts[0], rate));
    assert ApplyOptions(opts, verbose, rate) == r;
    if i == 0 {
      NoRateKeepsRate(rest, verbose || opts[0].Verbose?, RateAfter(opts[0], rate));
    } else {
      LastRateWins(rest, verbose || opts[0].Verbose?, RateAfter(opts[0], rate), i - 1);
    }
  }

  /** Processing stops at the first option that is not good, with what that
      option does. */
  lemma {:induction false} FirstBadOptionStops(opts: seq<Opt>, verbose: bool, rate: int, i: nat)
    requires i < |opts| && !GoodOpt(opts[i])
    requires forall j :: 0 <= j < i ==> GoodOpt(opts[j])
    ensures ApplyOptions(opts, verbose, rate) == OptionsStop(StopFor(opts[i]))
    decreases i
  {
    if i > 0 {
      var rest := opts[1..];
      assert forall j :: 0 < j < |opts| ==> opts[j] == rest[j - 1];
      assert GoodOpt(opts[0]);
      FirstBadOptionStops(rest, verbose || opts[0].Verbose?, RateAfter(opts[0], rate), i - 1);
    }
  }

  /** The listen port read by `std::stoi` and range-checked. */
  function ParseListenPort(text: string): (r: Result<uint16, ArgError>)
    ensures r.Success? <==> Stoi(text).Success? && 0 <= Stoi(text).value <= MaxPort
    ensures r.Success? ==> r.value == Stoi(text).value
  {
    match Stoi(text)
    case Failure(e) => Failure(InvalidListenPort(e))
    case Success(port) => if port < 0 || port > MaxPort then Failure(ListenPortOutOfRange(port)) else Success(port)
  }

  /** The `for` loop over the destinations: each one parsed, in order,
      stopping at the first that fails. */
  function ParseDestinations(args: seq<string>, parse: DestinationParser): (r: Result<seq<SockAddrIn>, ArgError>)
    ensures r.Success? <==> forall i :: 0 <= i < |args| ==> parse(args[i]).Success?
    ensures r.Success? ==> |r.value| == |args| && forall i :: 0 <= i < |args| ==> parse(args[i]) == Success(r.value[i])
    ensures r.Failure? ==>
              && r.error.BadDestination? && r.error.index < |args|
              && parse(args[r.error.index]) == Failure(r.error.cause)
              && forall j :: 0 <= j < r.error.index ==> parse(args[j]).Success?
    decreases |args|
  {
    if |args| == 0 then Success([])
    else
      assert forall i :: 0 < i < |args| ==> args[i] == args[1..][i - 1];
      match parse(args[0])
      case Failure(e) => Failure(BadDestination(0, e))
      case Success(d) =>
        match ParseDestinations(args[1..], parse)
        case Failure(e) => Failure(e.(index := e.index + 1))
        case Success(ds) => Success([d] + ds)
  }

  /** `parse_arguments`: the options, then the positional checks. */
  function ParseArguments(opts: seq<Opt>, positionals: seq<string>, parse: DestinationParser): (r: ArgOutcome)
    ensures r.Parsed? ==> |positionals| >= 2 && |r.config.destinations| == |positionals| - 1
    ensures r.Parsed? ==> r.config.rateLimit >= 0
    ensures r.Parsed? ==> forall i :: 1 <= i < |positionals| ==> parse(positionals[i]) == Success(r.config.destinations[i - 1])
  {
    match ApplyOptions(opts, false, DefaultRateLimit)
    case OptionsStop(outcome) => outcome
    case OptionsOk(verbose, rate) =>
      if |positionals| < 2 then Rejected(InsufficientArguments)
      else
        match ParseListenPort(positionals[0])
        case Failure(e) => Rejected(e)
        case Success(port) =>
          match ParseDestinations(positionals[1..], parse)
          case Failure(e) => Rejected(e)
          case Success(ds) => Parsed(Config(port, ds, verbose, rate))
  }

  /** The command line is accepted exactly when every option is good, there
      are a listen port and at least one destination, the port is in range
      and every destination parses; the configuration then holds that
      port, the flags the options set and the endpoints in argument order. */
  lemma ArgumentsAccepted(opts: seq<Opt>, positionals: seq<string>, parse: DestinationParser)
    ensures var r := ParseArguments(opts, positionals, parse);
            && (r.Parsed? <==>
                  (forall i :: 0 <= i < |opts| ==> GoodOpt(opts[i])) &&
                  |positionals| >= 2 &&
                  ParseListenPort(positionals[0]).Success? &&
                  forall i :: 1 <= i < |positionals| ==> parse(positionals[i]).Success?)
            && (r.Parsed? ==>
                  && r.config.listenPort == Stoi(positionals[0]).value
                  && r.config.verbose == (Verbose in opts)
                  && r.config.rateLimit >= 0
                  && |r.config.destinations| == |positionals| - 1 >= 1
                  && forall i :: 0 <= i < |r.config.destinations| ==>
                       parse(positionals[i + 1]) == Success(r.config.destinations[i]))
  {
    var r := ParseArguments(opts, positionals, parse);
    var o := ApplyOptions(opts, false, DefaultRateLimit);
    if o.OptionsOk? && |positionals| >= 2 && ParseListenPort(positionals[0]).Success? {
      var tail := positionals[1..];
      assert forall i :: 1 <= i < |positionals| ==> positionals[i] == tail[i - 1];
      var d := ParseDestinations(tail, parse);
      assert d.Success? <==> forall i :: 1 <= i < |positionals| ==> parse(positionals[i]).Success?;
      if d.Success? {
        assert r == Parsed(Config(ParseListenPort(positionals[0]).value, d.value, o.verbose, o.rate));
      } else {
        assert r.Rejected?;
      }
    } else {
      assert !r.Parsed?;
    }
  }

  /** The first option that is not good decides the outcome, whatever follows. */
  lemma FirstBadOptionDecides(opts: seq<Opt>, positionals: seq<string>, parse: DestinationParser, i: nat)
    requires i < |opts| && !GoodOpt(opts[i])
    requires forall j :: 0 <= j < i ==> GoodOpt(opts[j])
    ensures ParseArguments(opts, positionals, parse) == StopFor(opts[i])
  {
    FirstBadOptionStops(opts, false, DefaultRateLimit, i);
  }

  /** With good options, fewer than two positionals are rejected. */
  lemma TooFewPositionals(opts: seq<Opt>, positionals: seq<string>, parse: DestinationParser)
    requires forall i :: 0 <= i < |opts| ==> GoodOpt(opts[i])
    requires |positionals| < 2
    ensures ParseArguments(opts, positionals, parse) == Rejected(InsufficientArguments)
  {
  }

  /** With good options and enough positionals, the first destination that
      fails to parse is reported, with its position among the destinations. */
  lemma FirstBadDestinationReported(opts: seq<Opt>, positionals: seq<string>, parse: DestinationParser, k: nat)
    requires forall i :: 0 <= i < |opts| ==> GoodOpt(opts[i])
    requires |positionals| >= 2 && ParseListenPort(positionals[0]).Success?
    requires 1 <= k < |positionals| && parse(positionals[k]).Failure?
    requires forall j :: 1 <= j < k ==> parse(positionals[j]).Success?
    ensures ParseArguments(opts, positionals, parse) == Rejected(BadDestination(k - 1, parse(positionals[k]).error))
  {
    var tail := positionals[1..];
    assert forall j :: 0 <= j < |tail| ==> tail[j] == positionals[j + 1];
    var r := ParseDestinations(tail, parse);
    assert !parse(tail[k - 1]).Success?;
    var e := r.error;
    assert e.index == k - 1;
  }

  /** The endpoints with their ports cleared. */
  function ClearPorts(ds: seq<SockAddrIn>): (r: seq<SockAddrIn>)
    ensures |r| == |ds| && forall i :: 0 <= i < |ds| ==> r[i] == ds[i].(port := 0)
  {
    seq(|ds|, i requires 0 <= i < |ds| => ds[i].(port := 0))
  }

  lemma {:induction false} DestinationsAgree(args: seq<string>, pton: string -> Option<uint32>, lookup: string -> Option<uint32>)
    ensures var w := ParseDestinations(args, AsWrittenParser(pton, lookup));
            var i := ParseDestinations(args, IntendedParser(pton, lookup));
            && (w.Success? <==> i.Success?)
            && (w.Failure? ==> w.error == i.error)
            && (w.Success? ==> w.value == ClearPorts(i.value))
    decreases |args|
  {
    if |args| > 0 {
      IntendedAgrees(args[0], ZeroSockAddr, pton, lookup);
      DestinationsAgree(args[1..], pton, lookup);
      var w := ParseDestinations(args, AsWrittenParser(pton, lookup));
      var i := ParseDestinations(args, IntendedParser(pton, lookup));
      if w.Success? {
        assert w.value == [w.value[0]] + w.value[1..];
        assert i.value == [i.value[0]] + i.value[1..];
      }
    }
  }

  /** The program as written and the corrected one accept and reject the
      same command lines, with the same error; their configurations differ
      only in the destination ports, which the program as written sets to 0. */
  lemma WrittenAndIntendedAgree(opts: seq<Opt>, positionals: seq<string>, pton: string -> Option<uint32>, lookup: string -> Option<uint32>)
    ensures var w := ParseArguments(opts, positionals, AsWrittenParser(pton, lookup));
            var i := ParseArguments(opts, positionals, IntendedParser(pton, lookup));
            && (w.Parsed? <==> i.Parsed?)
            && (w.Parsed? ==> w.config == i.config.(destinations := ClearPorts(i.config.destinations)))
            && (!w.Parsed? ==> w == i)
  {
    var w := ParseArguments(opts, positionals, AsWrittenParser(pton, lookup));
    var i := ParseArguments(opts, positionals, IntendedParser(pton, lookup));
    var o := ApplyOptions(opts, false, DefaultRateLimit);
    if o.OptionsOk? && |positionals| >= 2 && ParseListenPort(positionals[0]).Success? {
      var dw := ParseDestinations(positionals[1..], AsWrittenParser(pton, lookup));
      var di := ParseDestinations(positionals[1..], IntendedParser(pton, lookup));
      DestinationsAgree(positionals[1..], pton, lookup);
      if dw.Success? {
        assert w == Parsed(Config(ParseListenPort(positionals[0]).value, dw.value, o.verbose, o.rate));
        assert i == Parsed(Config(ParseListenPort(positionals[0]).value, di.value, o.verbose, o.rate));
      } else {
        assert w == Rejected(dw.error) && i == Rejected(di.error);
      }
    }
  }

  /** `-v -r 500 9999 10.0.0.1:7777`, with a literal parser that knows the
      address, gives a verbose configuration with rate 500 and one endpoint. */
  lemma Example(pton: string -> Option<uint32>, lookup: string -> Option<uint32>)
    requires pton("10.0.0.1") == Some(0x0100000A)
    ensures var r := ParseArguments([Verbose, Rate("500")], ["9999", "10.0.0.1:7777"], IntendedParser(pton, lookup));
            r.Parsed? && r.config.verbose && r.config.rateLimit == 500 && r.config.listenPort == 9999 &&
            r.config.destinations == [SockAddrIn(AF_INET, Htons(7777), 0x0100000A)]
  {
    ExampleOptions();
    ExampleListenPort();
    ExampleDestination(pton, lookup);
    var pos := ["9999", "10.0.0.1:7777"];
    assert pos[1..] == ["10.0.0.1:7777"];
  }

  lemma ExampleOptions()
    ensures ApplyOptions([Verbose, Rate("500")], false, DefaultRateLimit) == OptionsOk(true, 500)
  {
    StoiOf500();
    assert [Verbose, Rate("500")][1..] == [Rate("500")];
    assert [Rate("500")][1..] == [];
  }

  lemma ExampleListenPort()
    ensures ParseListenPort("9999") == Success(9999)
  {
    StoiOf9999();
  }

  lemma ExampleDestination(pton: string -> Option<uint32>, lookup: string -> Option<uint32>)
    requires pton("10.0.0.1") == Some(0x0100000A)
    ensures ParseDestinations(["10.0.0.1:7777"], IntendedParser(pton, lookup)) == Success([SockAddrIn(AF_INET, Htons(7777), 0x0100000A)])
  {
    var d := SockAddrIn(AF_INET, Htons(7777), 0x0100000A);
    ExampleAddress(pton, lookup);
    var parse := IntendedParser(pton, lookup);
    assert parse("10.0.0.1:7777") == Success(d);
    var args := ["10.0.0.1:7777"];
    var r := ParseDestinations(args, parse);
    assert parse(args[0]).Success?;
    assert r.Success? && |r.value| == 1 && r.value[0] == d;
    assert r.value == [d];
  }

  lemma ExampleAddress(pton: string -> Option<uint32>, lookup: string -> Option<uint32>)
    requires pton("10.0.0.1") == Some(0x0100000A)
    ensures ParseAddressIntended("10.0.0.1:7777", pton, lookup) == Success(SockAddrIn(AF_INET, Htons(7777), 0x0100000A))
  {
    assert "10.0.0.1:7777" == "10.0.0.1" + ":" + "7777";
    SplitAtFirstColon("10.0.0.1", "7777");
    StoiOf7777();
    assert ParsePort("7777") == Success(7777);
  }
}
