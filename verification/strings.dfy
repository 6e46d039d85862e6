/** The few `str` operations the translator relies on: `split(sep, 1)`,
    `split(sep)` and `sep.join(parts)`, over strings as sequences of characters. */
module Strings {
  import opened Wrappers

  /** `s.split(c, 1)` unpacked into two names: the text before the first `c`
      and the whole remainder. `None` when `c` does not occur, which is the
      case where Python's unpacking raises `ValueError`. */
  function SplitFirst(s: string, c: char): (r: Option<(string, string)>)
    ensures r.None? <==> c !in s
    ensures r.Some? ==> s == r.value.0 + [c] + r.value.1 && c !in r.value.0
    decreases |s|
  {
    if |s| == 0 then None
    else if s[0] == c then Some(("", s[1..]))
    else
      match SplitFirst(s[1..], c)
      case None => None
      case Some(parts) => Some(([s[0]] + parts.0, parts.1))
  }

  /** The first separator is the one found: a head free of `c` is split off
      exactly, whatever the tail holds (the tail may contain `c` again). */
  lemma SplitFirstAt(a: string, c: char, b: string)
    requires c !in a
    ensures SplitFirst(a + [c] + b, c) == Some((a, b))
  {
    var s := a + [c] + b;
    var r := SplitFirst(s, c);
    var a', b' := r.value.0, r.value.1;
    assert s[|a|] == c && forall i :: 0 <= i < |a| ==> s[i] != c;
    assert s[|a'|] == c && forall i :: 0 <= i < |a'| ==> s[i] != c;
    assert |a'| == |a|;
    assert a' == s[..|a|] == a;
    assert b' == s[|a| + 1..] == b;
  }

  /** `s.split(c)`: the pieces between consecutive separators, at least one. */
  function SplitOn(s: string, c: char): (parts: seq<string>)
    ensures |parts| >= 1
    ensures forall i :: 0 <= i < |parts| ==> c !in parts[i]
    decreases |s|
  {
    match SplitFirst(s, c)
    case None => [s]
    case Some(parts) => [parts.0] + SplitOn(parts.1, c)
  }

  /** `c.join(parts)` for a non-empty list of parts. */
  function JoinWith(parts: seq<string>, c: char): string
    requires |parts| >= 1
    decreases |parts|
  {
    if |parts| == 1 then parts[0] else parts[0] + [c] + JoinWith(parts[1..], c)
  }

  /** Joining the pieces of a split gives back the original text. */
  lemma {:induction false} JoinSplit(s: string, c: char)
    ensures JoinWith(SplitOn(s, c), c) == s
    decreases |s|
  {
    match SplitFirst(s, c)
    case None =>
    case Some(parts) =>
      JoinSplit(parts.1, c);
      assert SplitOn(s, c)[1..] == SplitOn(parts.1, c);
  }

  /** Splitting a join of separator-free parts gives back the parts. */
  lemma {:induction false} SplitJoin(parts: seq<string>, c: char)
    requires |parts| >= 1
    requires forall i :: 0 <= i < |parts| ==> c !in parts[i]
    ensures SplitOn(JoinWith(parts, c), c) == parts
    decreases |parts|
  {
    if |parts| > 1 {
      var tail := JoinWith(parts[1..], c);
      SplitFirstAt(parts[0], c, tail);
      SplitJoin(parts[1..], c);
      assert SplitOn(JoinWith(parts, c), c) == [parts[0]] + SplitOn(tail, c);
    } else {
      assert SplitFirst(parts[0], c).None?;
    }
  }
}
