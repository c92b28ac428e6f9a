/** `split(str, delim)`: `std::getline(ss, token, delim)` on a string stream
    until it fails. Each call reads up to the next `delim` (which it
    discards) or to the end; it fails only when the stream is already at its
    end, so a trailing `delim` yields no empty last token while a leading or
    doubled one yields an empty token. */
module Tokenize {
  import opened Wrappers
  import Text

  function Split(s: string, delim: char): (tokens: seq<string>)
    ensures forall k :: 0 <= k < |tokens| ==> delim !in tokens[k]
    ensures |tokens| == 0 <==> s == ""
    decreases |s|
  {
    if s == "" then []
    else
      match Text.IndexOf(s, delim)
      case None => [s]
      case Some(i) => [s[..i]] + Split(s[i + 1..], delim)
  }

  /** Number of occurrences of `c` in `s`. */
  function Count(s: string, c: char): nat {
    if |s| == 0 then 0 else (if s[0] == c then 1 else 0) + Count(s[1..], c)
  }

  lemma {:induction false} CountAppend(a: string, b: string, c: char)
    ensures Count(a + b, c) == Count(a, c) + Count(b, c)
    decreases |a|
  {
    if |a| == 0 {
      assert a + b == b;
    } else {
      assert (a + b)[1..] == a[1..] + b;
      CountAppend(a[1..], b, c);
    }
  }

  lemma {:induction false} CountAbsent(s: string, c: char)
    requires c !in s
    ensures Count(s, c) == 0
    decreases |s|
  {
    if |s| > 0 {
      assert forall x :: x in s[1..] ==> x in s;
      CountAbsent(s[1..], c);
    }
  }

  predicate EndsWith(s: string, c: char) {
    |s| > 0 && s[|s| - 1] == c
  }

  /** At the first delimiter `s` is the token, the delimiter and the rest. */
  lemma SplitAt(s: string, delim: char, i: nat)
    requires i < |s| && s[i] == delim && delim !in s[..i]
    ensures s == s[..i] + [delim] + s[i + 1..]
    ensures Count(s, delim) == 1 + Count(s[i + 1..], delim)
    ensures EndsWith(s, delim) <==> (s[i + 1..] == "" || EndsWith(s[i + 1..], delim))
  {
    assert s == s[..i] + [delim] + s[i + 1..];
    CountAppend(s[..i] + [delim], s[i + 1..], delim);
    CountAppend(s[..i], [delim], delim);
    CountAbsent(s[..i], delim);
  }

  /** One token per delimiter, plus one for text after the last delimiter. */
  lemma {:induction false} SplitCount(s: string, delim: char)
    ensures |Split(s, delim)| == Count(s, delim) + (if s != "" && !EndsWith(s, delim) then 1 else 0)
    decreases |s|
  {
    if s != "" {
      match Text.IndexOf(s, delim)
      case None =>
        CountAbsent(s, delim);
      case Some(i) =>
        SplitAt(s, delim, i);
        SplitCount(s[i + 1..], delim);
    }
  }

  /** The tokens joined with the delimiter. */
  function Join(tokens: seq<string>, delim: char): string {
    if |tokens| == 0 then ""
    else if |tokens| == 1 then tokens[0]
    else tokens[0] + [delim] + Join(tokens[1..], delim)
  }

  /** What `Join` leaves off: the trailing delimiter, when there is one. */
  function TrailingDelim(s: string, delim: char): string {
    if EndsWith(s, delim) then [delim] else ""
  }

  /** Joining the tokens gives back the input, minus one trailing delimiter. */
  lemma {:induction false} JoinSplit(s: string, delim: char)
    ensures Join(Split(s, delim), delim) + TrailingDelim(s, delim) == s
    decreases |s|
  {
    if s != "" {
      match Text.IndexOf(s, delim)
      case None =>
        assert !EndsWith(s, delim);
      case Some(i) =>
        JoinSplit(s[i + 1..], delim);
        JoinSplitAt(s, delim, i);
    }
  }

  /** The step of `JoinSplit` at the first delimiter, given the result for the rest. */
  lemma JoinSplitAt(s: string, delim: char, i: nat)
    requires Text.IndexOf(s, delim) == Some(i)
    requires Join(Split(s[i + 1..], delim), delim) + TrailingDelim(s[i + 1..], delim) == s[i + 1..]
    ensures Join(Split(s, delim), delim) + TrailingDelim(s, delim) == s
  {
    SplitAt(s, delim, i);
    var rest := s[i + 1..];
    if rest == "" {
      assert Split(s, delim) == [s[..i]];
      assert s == s[..i] + [delim];
    } else {
      var ts := Split(rest, delim);
      assert Split(s, delim) == [s[..i]] + ts;
      assert ([s[..i]] + ts)[1..] == ts;
      assert TrailingDelim(s, delim) == TrailingDelim(rest, delim);
      assert Join([s[..i]] + ts, delim) + TrailingDelim(s, delim) == s[..i] + [delim] + (Join(ts, delim) + TrailingDelim(rest, delim));
    }
  }

  /** Splitting joined tokens gives them back, provided no token holds the
      delimiter and the last one is non-empty (an empty last token would
      look like a trailing delimiter). */
  lemma {:induction false} SplitJoin(tokens: seq<string>, delim: char)
    requires forall k :: 0 <= k < |tokens| ==> delim !in tokens[k]
    requires |tokens| > 0 ==> tokens[|tokens| - 1] != ""
    ensures Split(Join(tokens, delim), delim) == tokens
    decreases |tokens|
  {
    if |tokens| == 1 {
      assert delim !in tokens[0];
    } else if |tokens| > 1 {
      var rest := tokens[1..];
      assert forall k :: 0 <= k < |rest| ==> rest[k] == tokens[k + 1];
      assert rest[|rest| - 1] != "";
      SplitJoin(rest, delim);
      assert delim !in tokens[0];
      SplitHead(tokens[0], Join(rest, delim), delim);
      assert Join(tokens, delim) == tokens[0] + [delim] + Join(rest, delim);
      assert tokens == [tokens[0]] + rest;
    }
  }

  /** A token without the delimiter, the delimiter, then anything: the token
      comes first and the rest is split on its own. */
  lemma SplitHead(t: string, r: string, delim: char)
    requires delim !in t
    ensures Split(t + [delim] + r, delim) == [t] + Split(r, delim)
  {
    var s := t + [delim] + r;
    assert s[|t|] == delim && s[..|t|] == t;
    assert Text.IndexOf(s, delim) == Some(|t|);
    assert s[|t| + 1..] == r;
  }

  lemma Examples()
    ensures Split("", ',') == []
    ensures Split("a,b", ',') == ["a", "b"]
    ensures Split("a,", ',') == ["a"]
    ensures Split(",a", ',') == ["", "a"]
    ensures Split(",", ',') == [""]
  {
    assert "a,b"[..1] == "a" && "a,b"[2..] == "b";
    assert "a,"[..1] == "a" && "a,"[2..] == "";
    assert ",a"[..0] == "" && ",a"[1..] == "a";
    assert ","[..0] == "" && ","[1..] == "";
  }
}
