/** A lexical model of the `pathlib` operations the program uses: parsing a
    string into a path, the `/` join, `.parent`, `str()` and `resolve()`.
    A path is a list of segments plus a flag telling whether it starts at the
    file-system root. */
module PurePaths {
  import opened Strings

  type Segments = seq<string>

  datatype PurePath = PurePath(rooted: bool, segs: Segments)

  /** A segment lexical normalisation keeps: neither empty, `.` nor `..`. */
  predicate IsClean(seg: string) {
    seg != "" && seg != "." && seg != ".."
  }

  predicate AllClean(segs: Segments) {
    forall i :: 0 <= i < |segs| ==> IsClean(segs[i])
  }

  /** One plainly spelled component: clean and free of `/`. */
  predicate IsName(seg: string) {
    IsClean(seg) && '/' !in seg
  }

  predicate AllNames(segs: Segments) {
    forall i :: 0 <= i < |segs| ==> IsName(segs[i])
  }

  /** A relative path made of the given segments. */
  function Rel(segs: Segments): PurePath {
    PurePath(false, segs)
  }

  /** The pieces of a `/`-split that `pathlib` keeps: empty pieces (from
      repeated or trailing slashes) and `.` pieces disappear, `..` stays. */
  function Components(parts: seq<string>): (segs: Segments)
    ensures |segs| <= |parts|
    ensures forall i :: 0 <= i < |segs| ==> segs[i] != "" && segs[i] != "." && segs[i] in parts
    decreases |parts|
  {
    if |parts| == 0 then []
    else
      var keep := if parts[0] == "" || parts[0] == "." then [] else [parts[0]];
      keep + Components(parts[1..])
  }

  /** `PurePosixPath(s)`: a leading `/` makes the path rooted; no segment of
      the result is empty, `.`, or contains `/`. */
  function Parse(s: string): (p: PurePath)
    ensures p.rooted <==> |s| > 0 && s[0] == '/'
    ensures forall i :: 0 <= i < |p.segs| ==> p.segs[i] != "" && p.segs[i] != "." && '/' !in p.segs[i]
  {
    var parts := SplitOn(s, '/');
    var segs := Components(parts);
    assert forall i :: 0 <= i < |segs| ==> '/' !in segs[i] by {
      forall i | 0 <= i < |segs|
        ensures '/' !in segs[i]
      {
        var j :| 0 <= j < |parts| && parts[j] == segs[i];
      }
    }
    PurePath(|s| > 0 && s[0] == '/', segs)
  }

  /** `a / b`: a rooted right operand discards the left one entirely. */
  function Join(a: PurePath, b: PurePath): PurePath {
    if b.rooted then b else PurePath(a.rooted, a.segs + b.segs)
  }

  /** Neither path is a leading part of the other: nothing at or below one
      of them is at or above the other. */
  predicate Apart(a: Segments, b: Segments) {
    !(a <= b) && !(b <= a)
  }

  /** Going below a path keeps it apart from any path it was apart from. */
  lemma ExtendApart(a: Segments, b: Segments, x: Segments)
    requires Apart(a, b)
    ensures Apart(a + x, b)
  {
  }

  /** `.parent`: the root (and the empty relative path) is its own parent. */
  function Parent(segs: Segments): Segments {
    if |segs| == 0 then segs else segs[..|segs| - 1]
  }

  /** One step of lexical normalisation: `..` removes the last kept segment
      and is dropped when nothing is kept; empty and `.` segments vanish. */
  function Step(acc: Segments, seg: string): Segments {
    if seg == ".." then Parent(acc)
    else if seg == "" || seg == "." then acc
    else acc + [seg]
  }

  /** Lexical normalisation of a segment list, read left to right. */
  function Normalize(segs: Segments): (r: Segments)
    ensures AllClean(r)
    ensures |r| <= |segs|
    ensures forall i :: 0 <= i < |r| ==> r[i] in segs
    decreases |segs|
  {
    if |segs| == 0 then []
    else Step(Normalize(segs[..|segs| - 1]), segs[|segs| - 1])
  }

  /** `Path.resolve()` read lexically: a relative path is taken relative to
      the current directory `cwd`; the result is an absolute segment list. */
  function Resolve(cwd: Segments, p: PurePath): (r: Segments)
    ensures AllClean(r)
  {
    Normalize(if p.rooted then p.segs else cwd + p.segs)
  }

  /** `str()` of a relative path: segments joined by `/`, `.` when empty. */
  function Render(segs: Segments): string {
    if |segs| == 0 then "." else JoinWith(segs, '/')
  }

  /** Normalisation leaves an already clean path untouched. */
  lemma {:induction false} NormalizeClean(segs: Segments)
    requires AllClean(segs)
    ensures Normalize(segs) == segs
    decreases |segs|
  {
    if |segs| > 0 {
      var init := segs[..|segs| - 1];
      NormalizeClean(init);
      assert init + [segs[|segs| - 1]] == segs;
    }
  }

  /** Normalisation is idempotent. */
  lemma NormalizeIdempotent(segs: Segments)
    ensures Normalize(Normalize(segs)) == Normalize(segs)
  {
    NormalizeClean(Normalize(segs));
  }

  /** Normalising a concatenation may normalise the prefix first. */
  lemma {:induction false} NormalizePrefix(a: Segments, b: Segments)
    ensures Normalize(a + b) == Normalize(Normalize(a) + b)
    decreases |b|
  {
    if |b| == 0 {
      assert a + b == a;
      assert Normalize(a) + b == Normalize(a);
      NormalizeIdempotent(a);
    } else {
      var init := b[..|b| - 1];
      var last := b[|b| - 1];
      assert b == init + [last];
      assert a + b == (a + init) + [last];
      assert Normalize(a) + b == (Normalize(a) + init) + [last];
      NormalizeStep(a + init, last);
      NormalizeStep(Normalize(a) + init, last);
      NormalizePrefix(a, init);
    }
  }

  /** Normalising one more segment is one more step. */
  lemma NormalizeStep(a: Segments, seg: string)
    ensures Normalize(a + [seg]) == Step(Normalize(a), seg)
  {
    assert (a + [seg])[..|a|] == a;
  }

  /** A trailing `..` removes the last segment the rest normalises to. */
  lemma NormalizeUp(a: Segments)
    ensures Normalize(a + [".."]) == Parent(Normalize(a))
  {
    assert (a + [".."])[..|a|] == a;
  }

  /** A clean segment appended to a path is kept after what the path
      normalises to. */
  lemma NormalizeAppend(a: Segments, seg: string)
    requires IsClean(seg)
    ensures Normalize(a + [seg]) == Normalize(a) + [seg]
  {
    assert (a + [seg])[..|a|] == a;
  }

  /** Clean segments appended to a path survive normalisation unchanged,
      after the normalised prefix. */
  lemma {:induction false} NormalizeCleanSuffix(a: Segments, c: Segments)
    requires AllClean(c)
    ensures Normalize(a + c) == Normalize(a) + c
    decreases |c|
  {
    if |c| == 0 {
      assert a + c == a;
    } else {
      var init := c[..|c| - 1];
      var last := c[|c| - 1];
      assert c == init + [last];
      assert a + c == (a + init) + [last];
      NormalizeAppend(a + init, last);
      NormalizeCleanSuffix(a, init);
    }
  }

  /** `Components` keeps a list without empty or `.` pieces as it is. */
  lemma {:induction false} ComponentsOfNames(parts: Segments)
    requires forall i :: 0 <= i < |parts| ==> parts[i] != "" && parts[i] != "."
    ensures Components(parts) == parts
    decreases |parts|
  {
    if |parts| > 0 {
      ComponentsOfNames(parts[1..]);
    }
  }

  /** Joining `/`-free pieces that are neither empty nor `.` and parsing the
      result gives back the pieces (`..` included). */
  lemma ParseJoin(parts: Segments)
    requires |parts| >= 1
    requires forall i :: 0 <= i < |parts| ==> parts[i] != "" && parts[i] != "." && '/' !in parts[i]
    ensures Parse(JoinWith(parts, '/')) == Rel(parts)
  {
    SplitJoin(parts, '/');
    ComponentsOfNames(parts);
    assert JoinWith(parts, '/')[0] == parts[0][0] by {
      if |parts| > 1 {
        assert JoinWith(parts, '/') == parts[0] + ['/'] + JoinWith(parts[1..], '/');
      }
    }
  }

  /** `str()` and parsing are inverse on relative paths made of plain names. */
  lemma {:induction false} ParseRender(segs: Segments)
    requires AllNames(segs)
    ensures Parse(Render(segs)) == Rel(segs)
  {
    if |segs| == 0 {
      assert SplitFirst(".", '/').None?;
      assert SplitOn(".", '/') == ["."];
    } else {
      SplitJoin(segs, '/');
      ComponentsOfNames(segs);
      assert Render(segs)[0] != '/' by {
        if |segs| == 1 {
          assert Render(segs) == segs[0];
        } else {
          assert Render(segs) == segs[0] + ['/'] + JoinWith(segs[1..], '/');
        }
        assert Render(segs)[0] == segs[0][0];
      }
    }
  }
}
