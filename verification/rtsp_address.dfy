/** `isValidRTSPAddress`: whole-string match against
    `^rtsp://[a-zA-Z0-9.-]+(?::\d+)?(/[a-zA-Z0-9-._~%!$&'()*+,;=:@/]*)?(\?[a-zA-Z0-9-._~%!$&'()*+,;=:@/?]*)?$`
    with ECMAScript semantics: `\d` is `[0-9]` and a `-` right after a range
    is a literal. The pattern loosely follows the `rtsp:` URL of section 3.2
    of RFC 2326 (the host is not checked as a DNS name).

    No character that may end a part can start the next one (`:`, `/` and
    `?` are not host characters, a digit run is followed by `/`, `?` or the
    end, and `?` is not a path character), so a single left-to-right pass
    taking each part as long as possible recognises exactly the language of
    the pattern; `Sound` and `Complete` below state this. */
module RtspAddress {
  import StringToInt

  const Scheme: string := "rtsp://"

  predicate IsLetterOrDigit(c: char) {
    'a' <= c <= 'z' || 'A' <= c <= 'Z' || StringToInt.IsDigit(c)
  }

  /** `[a-zA-Z0-9.-]` */
  predicate IsHostChar(c: char) {
    IsLetterOrDigit(c) || c == '.' || c == '-'
  }

  /** `[a-zA-Z0-9-._~%!$&'()*+,;=:@/]` */
  predicate IsPathChar(c: char) {
    IsLetterOrDigit(c) ||
    c == '-' || c == '.' || c == '_' || c == '~' || c == '%' || c == '!' || c == '$' ||
    c == '&' || c == '\'' || c == '(' || c == ')' || c == '*' || c == '+' || c == ',' ||
    c == ';' || c == '=' || c == ':' || c == '@' || c == '/'
  }

  /** `[a-zA-Z0-9-._~%!$&'()*+,;=:@/?]` */
  predicate IsQueryChar(c: char) {
    IsPathChar(c) || c == '?'
  }

  predicate IsPortDigit(c: char) {
    StringToInt.IsDigit(c)
  }

  predicate All(s: string, p: char -> bool) {
    forall i :: 0 <= i < |s| ==> p(s[i])
  }

  /** Length of the longest prefix of `s` whose characters satisfy `p`. */
  function Span(s: string, p: char -> bool): (n: nat)
    ensures n <= |s| && All(s[..n], p)
    ensures n < |s| ==> !p(s[n])
  {
    if |s| > 0 && p(s[0]) then
      var n := 1 + Span(s[1..], p);
      assert forall i :: 1 <= i < n ==> s[..n][i] == s[1..][..n - 1][i - 1];
      n
    else 0
  }

  lemma {:induction false} SpanStopsAt(a: string, b: string, p: char -> bool)
    requires All(a, p)
    requires |b| == 0 || !p(b[0])
    ensures Span(a + b, p) == |a|
    decreases |a|
  {
    if |a| > 0 {
      assert (a + b)[0] == a[0];
      assert (a + b)[1..] == a[1..] + b;
      SpanStopsAt(a[1..], b, p);
    } else {
      assert a + b == b;
    }
  }

  /** The recogniser: scheme, host, optional port, optional path, optional query. */
  predicate IsValidRtspAddress(address: string): (r: bool)
    ensures r ==> |address| > |Scheme| && address[..|Scheme|] == Scheme && IsHostChar(address[|Scheme|])
  {
    |address| >= |Scheme| && address[..|Scheme|] == Scheme && AfterScheme(address[|Scheme|..])
  }

  predicate AfterScheme(s: string) {
    var h := Span(s, IsHostChar);
    h > 0 && AfterHost(s[h..])
  }

  predicate AfterHost(s: string) {
    if |s| > 0 && s[0] == ':' then
      var d := Span(s[1..], IsPortDigit);
      d > 0 && AfterPort(s[1 + d..])
    else AfterPort(s)
  }

  predicate AfterPort(s: string) {
    if |s| > 0 && s[0] == '/' then
      var p := Span(s[1..], IsPathChar);
      AfterPath(s[1 + p..])
    else AfterPath(s)
  }

  predicate AfterPath(s: string) {
    |s| == 0 || (s[0] == '?' && All(s[1..], IsQueryChar))
  }

  /** The parts of the pattern, each as the regex allows it. */
  predicate HostPart(host: string) {
    |host| > 0 && All(host, IsHostChar)
  }

  predicate PortPart(port: string) {
    port == "" || (|port| >= 2 && port[0] == ':' && All(port[1..], IsPortDigit))
  }

  predicate PathPart(path: string) {
    path == "" || (path[0] == '/' && All(path[1..], IsPathChar))
  }

  predicate QueryPart(query: string) {
    query == "" || (query[0] == '?' && All(query[1..], IsQueryChar))
  }

  /** The language of the pattern, stated declaratively. */
  predicate InLanguage(s: string, host: string, port: string, path: string, query: string) {
    s == Scheme + host + port + path + query &&
    HostPart(host) && PortPart(port) && PathPart(path) && QueryPart(query)
  }

  lemma AfterPortComplete(path: string, query: string)
    requires PathPart(path) && QueryPart(query)
    ensures AfterPort(path + query)
  {
    if path == "" {
      assert path + query == query;
    } else {
      var s := path + query;
      assert s[1..] == path[1..] + query;
      SpanStopsAt(path[1..], query, IsPathChar);
      assert s[1 + |path[1..]|..] == query;
    }
  }

  lemma AfterHostComplete(port: string, path: string, query: string)
    requires PortPart(port) && PathPart(path) && QueryPart(query)
    ensures AfterHost(port + path + query)
  {
    AfterPortComplete(path, query);
    PathQueryStart(path, query);
    var r := path + query;
    assert port + path + query == port + r;
    if port == "" {
      assert port + r == r;
    } else {
      AfterPortNumber(port, r);
    }
  }

  /** A `:` and a digit run, then what is accepted after a port. */
  lemma AfterPortNumber(port: string, r: string)
    requires |port| >= 2 && port[0] == ':' && All(port[1..], IsPortDigit)
    requires r == "" || r[0] == '/' || r[0] == '?'
    requires AfterPort(r)
    ensures AfterHost(port + r)
  {
    var s := port + r;
    assert s[1..] == port[1..] + r;
    SpanStopsAt(port[1..], r, IsPortDigit);
    assert s[1..][|port[1..]|..] == r;
  }

  /** What may follow a port: the end, a `/` or a `?`. */
  lemma PathQueryStart(path: string, query: string)
    requires PathPart(path) && QueryPart(query)
    ensures path + query == "" || (path + query)[0] == '/' || (path + query)[0] == '?'
  {
  }

  /** Every string of the language is accepted. */
  lemma Complete(s: string, host: string, port: string, path: string, query: string)
    requires InLanguage(s, host, port, path, query)
    ensures IsValidRtspAddress(s)
  {
    var t := s[|Scheme|..];
    assert s[..|Scheme|] == Scheme;
    assert t == host + (port + path + query);
    var rest := port + path + query;
    assert |rest| == 0 || !IsHostChar(rest[0]);
    SpanStopsAt(host, rest, IsHostChar);
    assert t[|host|..] == rest;
    AfterHostComplete(port, path, query);
  }

  lemma AfterPortSound(s: string) returns (path: string, query: string)
    requires AfterPort(s)
    ensures s == path + query && PathPart(path) && QueryPart(query)
  {
    if |s| > 0 && s[0] == '/' {
      var p := Span(s[1..], IsPathChar);
      path, query := s[..1 + p], s[1 + p..];
      assert path[1..] == s[1..][..p];
    } else {
      path, query := "", s;
    }
  }

  lemma AfterHostSound(s: string) returns (port: string, path: string, query: string)
    requires AfterHost(s)
    ensures s == port + path + query && PortPart(port) && PathPart(path) && QueryPart(query)
  {
    if |s| > 0 && s[0] == ':' {
      var d := Span(s[1..], IsPortDigit);
      port := s[..1 + d];
      assert port[1..] == s[1..][..d];
      path, query := AfterPortSound(s[1 + d..]);
      assert s == port + s[1 + d..];
    } else {
      port := "";
      path, query := AfterPortSound(s);
    }
  }

  /** Every accepted string is in the language, with the parts as witnesses. */
  lemma Sound(s: string) returns (host: string, port: string, path: string, query: string)
    requires IsValidRtspAddress(s)
    ensures InLanguage(s, host, port, path, query)
  {
    var t := s[|Scheme|..];
    assert s == Scheme + t;
    var h := Span(t, IsHostChar);
    assert h > 0 && AfterHost(t[h..]);
    host := t[..h];
    assert HostPart(host);
    port, path, query := AfterHostSound(t[h..]);
    var rest := port + path + query;
    assert t == host + rest;
    ConcatAssoc(Scheme, host, rest);
    ConcatAssoc(Scheme + host, port + path, query);
    ConcatAssoc(Scheme + host, port, path);
  }

  lemma ConcatAssoc(a: string, b: string, c: string)
    ensures a + (b + c) == (a + b) + c
  {
  }

  /** So acceptance is exactly membership in the language. */
  lemma ValidIffInLanguage(s: string)
    ensures IsValidRtspAddress(s) <==> exists host, port, path, query :: InLanguage(s, host, port, path, query)
  {
    if IsValidRtspAddress(s) {
      var host, port, path, query := Sound(s);
    }
    if exists host, port, path, query :: InLanguage(s, host, port, path, query) {
      var host, port, path, query :| InLanguage(s, host, port, path, query);
      Complete(s, host, port, path, query);
    }
  }

  /** The host after the scheme is non-empty and made of host characters. */
  lemma AcceptedHasHost(s: string)
    requires IsValidRtspAddress(s)
    ensures s[..|Scheme|] == Scheme
    ensures |s| > |Scheme| && IsHostChar(s[|Scheme|])
  {
    var host, port, path, query := Sound(s);
    assert s[|Scheme|] == host[0];
  }

  /** A `:` after the host needs at least one digit. */
  lemma EmptyPortRejected(host: string)
    requires HostPart(host)
    ensures !IsValidRtspAddress(Scheme + host + ":")
  {
    var s := Scheme + host + ":";
    var t := s[|Scheme|..];
    assert t == host + ":";
    SpanStopsAt(host, ":", IsHostChar);
    assert t[|host|..] == ":";
    assert ":"[1..] == "";
  }

  lemma AllConcat(a: string, b: string, p: char -> bool)
    requires All(a, p) && All(b, p)
    ensures All(a + b, p)
  {
    assert forall i :: |a| <= i < |a + b| ==> (a + b)[i] == b[i - |a|];
  }

  /** Every character of an accepted string is from the query set, which
      holds no white space. */
  lemma AcceptedCharacters(s: string)
    requires IsValidRtspAddress(s)
    ensures All(s, IsQueryChar)
    ensures forall i :: 0 <= i < |s| ==> !StringToInt.IsSpace(s[i])
  {
    var host, port, path, query := Sound(s);
    assert All(Scheme, IsQueryChar);
    assert All(host, IsQueryChar);
    if port != "" {
      assert port == port[..1] + port[1..];
      AllConcat(port[..1], port[1..], IsQueryChar);
    }
    if path != "" {
      assert path == path[..1] + path[1..];
      AllConcat(path[..1], path[1..], IsQueryChar);
    }
    if query != "" {
      assert query == query[..1] + query[1..];
      AllConcat(query[..1], query[1..], IsQueryChar);
    }
    AllConcat(Scheme, host, IsQueryChar);
    AllConcat(Scheme + host, port, IsQueryChar);
    AllConcat(Scheme + host + port, path, IsQueryChar);
    AllConcat(Scheme + host + port + path, query, IsQueryChar);
  }

  lemma ExampleAccepted()
    ensures IsValidRtspAddress("rtsp://example.com:8554/stream1")
  {
    var s := "rtsp://example.com:8554/stream1";
    assert s == Scheme + "example.com" + ":8554" + "/stream1" + "";
    ExampleParts();
    Complete(s, "example.com", ":8554", "/stream1", "");
  }

  lemma ExampleParts()
    ensures HostPart("example.com") && PortPart(":8554") && PathPart("/stream1") && QueryPart("")
  {
    assert ":8554"[1..] == "8554";
    assert "/stream1"[1..] == "stream1";
  }

  lemma ExampleRejected()
    ensures !IsValidRtspAddress("invalid_address")
  {
    assert "invalid_address"[..7] == "invalid";
  }
}
