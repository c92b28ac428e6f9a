/** `parseXML`: a one-pass character scanner that cuts XML text into the
    runs of characters between `<` and `>`. The brackets themselves are
    dropped; text inside a tag is emitted at its `>` (even when empty), text
    outside a tag is emitted at the next `<` (only when non-empty) or at the
    end of the input. */
module XmlConfig {

  /** The locals of `parseXML`; the top of `tagStack` is its last element. */
  datatype Scanner = Scanner(
    tokens: seq<string>,
    token: string,
    tagStack: seq<char>,
    isTag: bool,
    isClosingTag: bool)

  const Start: Scanner := Scanner([], "", [], false, false)

  /** One iteration of the `for (char c: xmlData)` loop. */
  function Step(st: Scanner, c: char): (r: Scanner)
    ensures Flatten(r.tokens) + r.token == Flatten(st.tokens) + st.token + (if c == '<' || c == '>' then "" else [c])
  {
    FlattenAppend(st.tokens, st.token);
    if c == '<' then
      var tokens := if st.token != "" then st.tokens + [st.token] else st.tokens;
      if |st.tagStack| == 0 || st.tagStack[|st.tagStack| - 1] != '/' then
        Scanner(tokens, "", st.tagStack + [c], true, st.isClosingTag)
      else
        Scanner(tokens, "", st.tagStack[..|st.tagStack| - 1], true, true)
    else if c == '>' then
      var tokens := if st.isTag then st.tokens + [st.token] else st.tokens;
      var token := if st.isTag then "" else st.token;
      var stack := if |st.tagStack| > 0 then st.tagStack[..|st.tagStack| - 1] else st.tagStack;
      Scanner(tokens, token, stack, false, false)
    else if st.isTag then
      st.(token := st.token + [c])
    else
      st.(token := st.token + [c])
  }

  /** The scanner after the first `|s|` characters. */
  function ScanAll(s: string): Scanner {
    if |s| == 0 then Start else Step(ScanAll(s[..|s| - 1]), s[|s| - 1])
  }

  /** The final `if (!token.empty()) tokens.push_back(token)`. */
  function Finish(st: Scanner): seq<string> {
    if st.token != "" then st.tokens + [st.token] else st.tokens
  }

  /** `parseXML` as the loop over the input followed by the final flush. */
  method ParseXml(xmlData: string) returns (tokens: seq<string>)
    ensures tokens == Finish(ScanAll(xmlData))
    ensures forall k :: 0 <= k < |tokens| ==> '<' !in tokens[k] && '>' !in tokens[k]
    ensures Flatten(tokens) == Strip(xmlData)
  {
    var st := Start;
    var i := 0;
    while i < |xmlData|
      invariant 0 <= i <= |xmlData|
      invariant st == ScanAll(xmlData[..i])
    {
      assert xmlData[..i + 1][..i] == xmlData[..i];
      st := Step(st, xmlData[i]);
      i := i + 1;
    }
    assert xmlData[..i] == xmlData;
    tokens := if st.token != "" then st.tokens + [st.token] else st.tokens;
    NoBracketsInTokens(xmlData);
    FlattenIsStrip(xmlData);
  }

  /** The tokens of a whole input. */
  function Parse(xmlData: string): (r: seq<string>)
    ensures forall k :: 0 <= k < |r| ==> NoBrackets(r[k])
  {
    ScanAllInvariant(xmlData);
    Finish(ScanAll(xmlData))
  }

  /** The input with every `<` and `>` removed. */
  function Strip(s: string): string {
    if |s| == 0 then ""
    else
      var c := s[|s| - 1];
      Strip(s[..|s| - 1]) + (if c == '<' || c == '>' then "" else [c])
  }

  function Flatten(ts: seq<string>): string {
    if |ts| == 0 then "" else Flatten(ts[..|ts| - 1]) + ts[|ts| - 1]
  }

  lemma FlattenAppend(ts: seq<string>, t: string)
    ensures Flatten(ts + [t]) == Flatten(ts) + t
  {
    assert (ts + [t])[..|ts|] == ts;
  }

  predicate NoBrackets(t: string) {
    '<' !in t && '>' !in t
  }

  /** What every reachable scanner state satisfies: only `<` is ever pushed,
      so the `pop` branch at a `<` is never taken and `isClosingTag` stays
      false; and neither bracket ever enters a token. */
  predicate Invariant(st: Scanner) {
    (forall k :: 0 <= k < |st.tagStack| ==> st.tagStack[k] == '<') &&
    !st.isClosingTag &&
    NoBrackets(st.token) &&
    (forall k :: 0 <= k < |st.tokens| ==> NoBrackets(st.tokens[k]))
  }

  lemma StepKeepsInvariant(st: Scanner, c: char)
    requires Invariant(st)
    ensures Invariant(Step(st, c))
    ensures c == '<' ==> |st.tagStack| == 0 || st.tagStack[|st.tagStack| - 1] != '/'
  {
  }

  lemma {:induction false} ScanAllInvariant(s: string)
    ensures Invariant(ScanAll(s))
    decreases |s|
  {
    if |s| > 0 {
      ScanAllInvariant(s[..|s| - 1]);
      StepKeepsInvariant(ScanAll(s[..|s| - 1]), s[|s| - 1]);
    }
  }

  /** No output token holds `<` or `>`. */
  lemma NoBracketsInTokens(s: string)
    ensures forall k :: 0 <= k < |Parse(s)| ==> NoBrackets(Parse(s)[k])
  {
    ScanAllInvariant(s);
  }

  /** `isClosingTag` is false after every prefix of every input. */
  lemma NeverClosingTag(s: string)
    ensures !ScanAll(s).isClosingTag
  {
    ScanAllInvariant(s);
  }

  /** The emitted tokens and the pending one hold exactly the characters
      read so far, brackets removed, in order. */
  lemma {:induction false} ScanAllFlatten(s: string)
    ensures Flatten(ScanAll(s).tokens) + ScanAll(s).token == Strip(s)
    decreases |s|
  {
    if |s| > 0 {
      ScanAllFlatten(s[..|s| - 1]);
    }
  }

  /** Concatenating the tokens gives back the input without its brackets. */
  lemma FlattenIsStrip(s: string)
    ensures Flatten(Parse(s)) == Strip(s)
  {
    ScanAllFlatten(s);
    var st := ScanAll(s);
    FlattenAppend(st.tokens, st.token);
    if st.token == "" {
      assert Flatten(st.tokens) + st.token == Flatten(st.tokens);
    }
  }

  /** The scanner with the two variables that never affect the output removed. */
  datatype PlainScanner = PlainScanner(tokens: seq<string>, token: string, isTag: bool)

  function PlainStep(st: PlainScanner, c: char): PlainScanner {
    if c == '<' then
      PlainScanner(if st.token != "" then st.tokens + [st.token] else st.tokens, "", true)
    else if c == '>' then
      if st.isTag then PlainScanner(st.tokens + [st.token], "", false)
      else PlainScanner(st.tokens, st.token, false)
    else
      st.(token := st.token + [c])
  }

  function PlainScanAll(s: string): PlainScanner {
    if |s| == 0 then PlainScanner([], "", false)
    else PlainStep(PlainScanAll(s[..|s| - 1]), s[|s| - 1])
  }

  function Plain(st: Scanner): PlainScanner {
    PlainScanner(st.tokens, st.token, st.isTag)
  }

  /** `tagStack` and `isClosingTag` never influence the tokens: the scanner
      without them computes the same tokens, pending text and tag flag. */
  lemma {:induction false} TagStackIrrelevant(s: string)
    ensures Plain(ScanAll(s)) == PlainScanAll(s)
    decreases |s|
  {
    if |s| > 0 {
      TagStackIrrelevant(s[..|s| - 1]);
    }
  }

  /** While no `>` has been read every emitted token is non-empty: only the
      `>` of a tag emits a token without checking it. */
  lemma {:induction false} TokensNonEmptyWithoutClose(s: string)
    requires '>' !in s
    ensures forall k :: 0 <= k < |ScanAll(s).tokens| ==> ScanAll(s).tokens[k] != ""
    decreases |s|
  {
    if |s| > 0 {
      assert s[|s| - 1] in s;
      assert forall c :: c in s[..|s| - 1] ==> c in s;
      TokensNonEmptyWithoutClose(s[..|s| - 1]);
    }
  }

  lemma NoCloseNoEmptyToken(s: string)
    requires '>' !in s
    ensures forall k :: 0 <= k < |Parse(s)| ==> Parse(s)[k] != ""
  {
    TokensNonEmptyWithoutClose(s);
  }

  /** Text without brackets is kept in one piece. */
  lemma {:induction false} PlainTextPending(s: string)
    requires NoBrackets(s)
    ensures ScanAll(s) == Scanner([], s, [], false, false)
    decreases |s|
  {
    if |s| > 0 {
      var p := s[..|s| - 1];
      var c := s[|s| - 1];
      assert NoBrackets(p) by {
        assert forall i :: 0 <= i < |p| ==> p[i] == s[i];
      }
      assert c != '<' && c != '>' by {
        assert s[|s| - 1] in s;
      }
      PlainTextPending(p);
      assert p + [c] == s;
    }
  }

  lemma PlainText(s: string)
    requires NoBrackets(s)
    ensures Parse(s) == if s == "" then [] else [s]
  {
    PlainTextPending(s);
  }

  lemma ExampleEmptyTag()
    ensures Parse("<>") == [""]
  {
    assert "<>"[..1] == "<";
    assert "<"[..0] == "";
  }

  lemma ExampleStrayClose()
    ensures Parse("a>b") == ["ab"]
  {
    assert "a>b"[..2] == "a>" && "a>"[..1] == "a" && "a"[..0] == "";
    assert ScanAll("a") == Scanner([], "a", [], false, false);
    assert ScanAll("a>") == Scanner([], "a", [], false, false);
    assert ScanAll("a>b") == Scanner([], "ab", [], false, false);
  }

  lemma ExampleElement()
    ensures Parse("<a>b</a>") == ["a", "b", "/a"]
  {
    var s := "<a>b</a>";
    assert s[..7] == "<a>b</a" && "<a>b</a"[..6] == "<a>b</";
    assert "<a>b</"[..5] == "<a>b<" && "<a>b<"[..4] == "<a>b";
    assert "<a>b"[..3] == "<a>" && "<a>"[..2] == "<a";
    assert "<a"[..1] == "<" && "<"[..0] == "";
    assert ScanAll("<") == Scanner([], "", ['<'], true, false);
    assert ScanAll("<a") == Scanner([], "a", ['<'], true, false);
    assert ScanAll("<a>") == Scanner(["a"], "", [], false, false);
    assert ScanAll("<a>b") == Scanner(["a"], "b", [], false, false);
    assert ScanAll("<a>b<") == Scanner(["a", "b"], "", ['<'], true, false);
    assert ScanAll("<a>b</") == Scanner(["a", "b"], "/", ['<'], true, false);
    assert ScanAll("<a>b</a") == Scanner(["a", "b"], "/a", ['<'], true, false);
    assert ScanAll(s) == Scanner(["a", "b", "/a"], "", [], false, false);
  }
}
