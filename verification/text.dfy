/** The two `std::string` operations the sources use everywhere:
    `find` of one character and `substr`. */
module Text {
  import opened Wrappers

  /** `s.find(c)`: the index of the first `c`, or `npos` (`None`). */
  function IndexOf(s: string, c: char): (r: Option<nat>)
    ensures r.None? <==> c !in s
    ensures r.Some? ==> r.value < |s| && s[r.value] == c && c !in s[..r.value]
  {
    if |s| == 0 then None
    else if s[0] == c then Some(0)
    else
      match IndexOf(s[1..], c)
      case None => None
      case Some(i) =>
        assert s[1..][..i] == s[1..i + 1];
        Some(i + 1)
  }

  /** `s.substr(pos, count)`: at most `count` characters from `pos`;
      `pos <= |s|` is what keeps `substr` from throwing. */
  function Substr(s: string, pos: nat, count: nat): (r: string)
    requires pos <= |s|
    ensures |r| == if pos + count <= |s| then count else |s| - pos
    ensures forall i :: 0 <= i < |r| ==> r[i] == s[pos + i]
  {
    if pos + count <= |s| then s[pos..pos + count] else s[pos..]
  }

  /** `s.substr(0, s.find(c))`: everything before the first `c`, or all of `s`. */
  function Before(s: string, c: char): (r: string)
    ensures c !in r
    ensures c in s ==> |r| < |s| && s[|r|] == c
    ensures |r| <= |s| && r == s[..|r|]
  {
    match IndexOf(s, c)
    case None => s
    case Some(i) => s[..i]
  }
}
