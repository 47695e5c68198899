/**
 * The Python string operations the summary pipeline relies on:
 * `str.startswith`, `str.find`, `str.split(sep)`, `sep.join(parts)` and
 * `str.strip()`, over strings as sequences of Unicode scalar values.
 */
module Text {
  import opened Wrappers

  /** `s.startswith(p)`. */
  predicate StartsWith(s: string, p: string) {
    |p| <= |s| && s[..|p|] == p
  }

  /** A string starts with `p` exactly when it is `p` followed by the rest of it. */
  lemma StartsWithConcat(s: string, p: string)
    ensures StartsWith(s, p) <==> |p| <= |s| && s == p + s[|p|..]
  {
    if |p| <= |s| && s == p + s[|p|..] {
      assert s[..|p|] == (p + s[|p|..])[..|p|];
    }
  }

  /** `sep` occurs in `s` starting at index `i`. */
  predicate OccursAt(s: string, sep: string, i: nat) {
    i + |sep| <= |s| && s[i..i + |sep|] == sep
  }

  /** `sep in s`. */
  predicate Contains(s: string, sep: string) {
    exists i: nat :: i <= |s| && OccursAt(s, sep, i)
  }

  /** `s.find(sep, from)`: the leftmost occurrence of `sep` at or after `from`. */
  function FindFrom(s: string, sep: string, from: nat): (r: Option<nat>)
    requires from <= |s|
    ensures r.Some? ==> from <= r.value && OccursAt(s, sep, r.value)
    ensures forall j: nat :: from <= j && (r.None? || j < r.value) ==> !OccursAt(s, sep, j)
    decreases |s| - from
  {
    if from + |sep| > |s| then None
    else if s[from..from + |sep|] == sep then Some(from)
    else FindFrom(s, sep, from + 1)
  }

  /** `s.find(sep)`, with `None` for Python's -1. */
  function Find(s: string, sep: string): (r: Option<nat>)
    ensures r.Some? ==> OccursAt(s, sep, r.value)
    ensures forall j: nat :: (r.None? || j < r.value) ==> !OccursAt(s, sep, j)
  {
    FindFrom(s, sep, 0)
  }

  /**
   * `s.split(sep)` with an explicit separator: cut at the leftmost
   * occurrence, then split what follows it; empty pieces are kept.
   */
  function Split(s: string, sep: string): (parts: seq<string>)
    requires |sep| > 0
    ensures |parts| >= 1
    decreases |s|
  {
    match Find(s, sep)
    case None => [s]
    case Some(i) => [s[..i]] + Split(s[i + |sep|..], sep)
  }

  /** `sep.join(parts)`. */
  function Join(parts: seq<string>, sep: string): string {
    if |parts| == 0 then ""
    else if |parts| == 1 then parts[0]
    else parts[0] + sep + Join(parts[1..], sep)
  }

  /**
   * Cutting `p + sep` at its first occurrence of `sep` gives back `p`:
   * no occurrence of `sep` starts inside `p`, even one that runs on into
   * the separator after it.
   */
  predicate CutAtFirst(p: string, sep: string) {
    forall j: nat :: j < |p| ==> !OccursAt(p + sep, sep, j)
  }

  /**
   * The shape of every result of `Split`: at least one piece, each piece
   * but the last ends where the leftmost separator begins, and the last
   * piece holds no separator at all.
   */
  predicate IsSplitShape(parts: seq<string>, sep: string) {
    && |parts| >= 1
    && (forall k :: 0 <= k < |parts| - 1 ==> CutAtFirst(parts[k], sep))
    && !Contains(parts[|parts| - 1], sep)
  }

  lemma OccursAtPrefix(a: string, b: string, sep: string, j: nat)
    requires j + |sep| <= |a|
    ensures OccursAt(a + b, sep, j) <==> OccursAt(a, sep, j)
  {
    assert (a + b)[j..j + |sep|] == a[j..j + |sep|];
  }

  /** `find` succeeds exactly on a text that contains the separator. */
  lemma FindContains(s: string, sep: string)
    ensures Find(s, sep).Some? <==> Contains(s, sep)
  {
    if Find(s, sep).Some? {
      assert OccursAt(s, sep, Find(s, sep).value);
    }
  }

  /** A piece that ends where the leftmost separator begins holds no separator. */
  lemma CutAtFirstExcludes(p: string, sep: string)
    requires |sep| > 0
    requires CutAtFirst(p, sep)
    ensures !Contains(p, sep)
  {
    forall j: nat | j <= |p| && OccursAt(p, sep, j)
      ensures false
    {
      OccursAtPrefix(p, sep, sep, j);
    }
  }

  /** Joining a first piece in front of at least one more puts one separator between them. */
  lemma JoinCons(p: string, tail: seq<string>, sep: string)
    requires |tail| >= 1
    ensures Join([p] + tail, sep) == p + sep + Join(tail, sep)
  {
    assert ([p] + tail)[1..] == tail;
  }

  /** A text is the part before an occurrence, the occurrence, and the part after it. */
  lemma CutAround(s: string, sep: string, i: nat)
    requires OccursAt(s, sep, i)
    ensures s[..i] + sep + s[i + |sep|..] == s
  {
    assert s[..i] + s[i..i + |sep|] + s[i + |sep|..] == s;
  }

  /** One step of `Split`: the piece before the leftmost separator, then the split of the rest. */
  lemma SplitStep(s: string, sep: string, i: nat)
    requires |sep| > 0
    requires Find(s, sep) == Some(i)
    ensures i + |sep| <= |s|
    ensures Split(s, sep) == [s[..i]] + Split(s[i + |sep|..], sep)
  {
  }

  /** Re-joining the pieces with the separator gives back the text. */
  lemma {:induction false} JoinSplit(s: string, sep: string)
    requires |sep| > 0
    ensures Join(Split(s, sep), sep) == s
    decreases |s|
  {
    match Find(s, sep)
    case None =>
    case Some(i) =>
      SplitStep(s, sep, i);
      var head, rest := s[..i], s[i + |sep|..];
      calc {
        Join(Split(s, sep), sep);
        Join([head] + Split(rest, sep), sep);
        { JoinCons(head, Split(rest, sep), sep); }
        head + sep + Join(Split(rest, sep), sep);
        { JoinSplit(rest, sep); }
        head + sep + rest;
        { CutAround(s, sep, i); }
        s;
      }
  }

  /** The piece before the leftmost separator ends where that separator begins. */
  lemma FirstPieceCutAtFirst(s: string, sep: string, i: nat)
    requires Find(s, sep) == Some(i)
    ensures CutAtFirst(s[..i], sep)
  {
    var head, upto := s[..i], s[..i + |sep|];
    assert head + sep == upto;
    forall j: nat | j < i
      ensures !OccursAt(head + sep, sep, j)
    {
      OccursAtPrefix(upto, s[i + |sep|..], sep, j);
      assert upto + s[i + |sep|..] == s;
    }
  }

  /** A piece cut at the first separator, in front of a split shape, is a split shape. */
  lemma ConsShape(p: string, tail: seq<string>, sep: string)
    requires CutAtFirst(p, sep)
    requires IsSplitShape(tail, sep)
    ensures IsSplitShape([p] + tail, sep)
  {
    var parts := [p] + tail;
    assert forall k :: 1 <= k < |parts| ==> parts[k] == tail[k - 1];
  }

  /** The pieces after the first of a split shape form a split shape, and the first is cut at the first separator. */
  lemma TailShape(parts: seq<string>, sep: string)
    requires IsSplitShape(parts, sep)
    requires |parts| > 1
    ensures CutAtFirst(parts[0], sep)
    ensures IsSplitShape(parts[1..], sep)
  {
    var tail := parts[1..];
    assert forall k :: 0 <= k < |tail| ==> tail[k] == parts[k + 1];
  }

  /** Every result of `Split` has the split shape. */
  lemma {:induction false} SplitShape(s: string, sep: string)
    requires |sep| > 0
    ensures IsSplitShape(Split(s, sep), sep)
    decreases |s|
  {
    FindContains(s, sep);
    match Find(s, sep)
    case None =>
      assert Split(s, sep) == [s];
    case Some(i) =>
      SplitStep(s, sep, i);
      var rest := s[i + |sep|..];
      SplitShape(rest, sep);
      FirstPieceCutAtFirst(s, sep, i);
      ConsShape(s[..i], Split(rest, sep), sep);
  }

  /** No piece produced by `Split` contains the separator. */
  lemma SplitPiecesExcludeSeparator(s: string, sep: string)
    requires |sep| > 0
    ensures forall k :: 0 <= k < |Split(s, sep)| ==> !Contains(Split(s, sep)[k], sep)
  {
    var parts := Split(s, sep);
    SplitShape(s, sep);
    forall k | 0 <= k < |parts| - 1
      ensures !Contains(parts[k], sep)
    {
      CutAtFirstExcludes(parts[k], sep);
    }
  }

  /** After a piece cut at the first separator, the leftmost separator is the one that follows it. */
  lemma FindAfterCut(p: string, sep: string, rest: string)
    requires CutAtFirst(p, sep)
    ensures Find(p + sep + rest, sep) == Some(|p|)
    ensures (p + sep + rest)[..|p|] == p
    ensures (p + sep + rest)[|p| + |sep|..] == rest
  {
    var s := p + sep + rest;
    assert s == (p + sep) + rest;
    assert OccursAt(s, sep, |p|) by {
      assert s[|p|..|p| + |sep|] == sep;
    }
    var i :| Find(s, sep) == Some(i);
    OccursAtPrefix(p + sep, rest, sep, i);
  }

  /** Splitting a join of pieces of the split shape gives back the pieces. */
  lemma {:induction false} SplitJoin(parts: seq<string>, sep: string)
    requires |sep| > 0
    requires IsSplitShape(parts, sep)
    ensures Split(Join(parts, sep), sep) == parts
    decreases |parts|
  {
    if |parts| == 1 {
      FindContains(parts[0], sep);
      assert Split(parts[0], sep) == [parts[0]];
    } else {
      var p, tail := parts[0], parts[1..];
      TailShape(parts, sep);
      var rest := Join(tail, sep);
      calc {
        Split(Join(parts, sep), sep);
        Split(p + sep + rest, sep);
        { FindAfterCut(p, sep, rest); SplitStep(p + sep + rest, sep, |p|); }
        [p] + Split(rest, sep);
        { SplitJoin(tail, sep); }
        [p] + tail;
        parts;
      }
    }
  }

  /** `Split` is characterised by round trip and shape: exactly one split shape joins to `s`. */
  lemma SplitCharacterization(s: string, sep: string, parts: seq<string>)
    requires |sep| > 0
    ensures Split(s, sep) == parts <==> Join(parts, sep) == s && IsSplitShape(parts, sep)
  {
    JoinSplit(s, sep);
    SplitShape(s, sep);
    if Join(parts, sep) == s && IsSplitShape(parts, sep) {
      SplitJoin(parts, sep);
    }
  }

  /** Every cut consumes a whole separator, so a text has at most |s| / |sep| + 1 pieces. */
  lemma {:induction false} SplitCount(s: string, sep: string)
    requires |sep| > 0
    ensures (|Split(s, sep)| - 1) * |sep| <= |s|
    decreases |s|
  {
    match Find(s, sep)
    case None =>
    case Some(i) =>
      SplitStep(s, sep, i);
      var rest := s[i + |sep|..];
      SplitCount(rest, sep);
      var n := |Split(rest, sep)|;
      assert |Split(s, sep)| == n + 1;
      MulStep(n, |sep|);
  }

  lemma MulStep(n: int, m: int)
    ensures n * m == (n - 1) * m + m
  {
  }

  /** `str.isspace()` for one character: the characters CPython's `str.strip()` removes. */
  predicate IsSpace(c: char) {
    var n := c as int;
    || 0x09 <= n <= 0x0D
    || 0x1C <= n <= 0x20
    || n == 0x85 || n == 0xA0 || n == 0x1680
    || 0x2000 <= n <= 0x200A
    || n == 0x2028 || n == 0x2029 || n == 0x202F || n == 0x205F || n == 0x3000
  }

  /** `s.lstrip()`: the suffix left after dropping every leading whitespace character. */
  function StripLeading(s: string): (r: string)
    ensures |r| <= |s| && r == s[|s| - |r|..]
    ensures forall k :: 0 <= k < |s| - |r| ==> IsSpace(s[k])
    ensures r == [] || !IsSpace(r[0])
    decreases |s|
  {
    if s != [] && IsSpace(s[0]) then StripLeading(s[1..]) else s
  }

  /** `s.rstrip()`: the prefix left after dropping every trailing whitespace character. */
  function StripTrailing(s: string): (r: string)
    ensures |r| <= |s| && r == s[..|r|]
    ensures forall k :: |r| <= k < |s| ==> IsSpace(s[k])
    ensures r == [] || !IsSpace(r[|r| - 1])
    decreases |s|
  {
    if s != [] && IsSpace(s[|s| - 1]) then StripTrailing(s[..|s| - 1]) else s
  }

  /** `r` is the slice `s[i : i + |r|]` and everything of `s` outside it is whitespace. */
  predicate IsTrimmedAt(s: string, r: string, i: nat) {
    && i + |r| <= |s|
    && r == s[i..i + |r|]
    && (forall k :: 0 <= k < i ==> IsSpace(s[k]))
    && (forall k :: i + |r| <= k < |s| ==> IsSpace(s[k]))
  }

  /** Trimming the front and then the back leaves a slice with whitespace on both sides of it. */
  lemma TrimmedInside(s: string, lead: string, r: string)
    requires |lead| <= |s| && lead == s[|s| - |lead|..]
    requires forall k :: 0 <= k < |s| - |lead| ==> IsSpace(s[k])
    requires |r| <= |lead| && r == lead[..|r|]
    requires forall k :: |r| <= k < |lead| ==> IsSpace(lead[k])
    ensures IsTrimmedAt(s, r, |s| - |lead|)
  {
    var i := |s| - |lead|;
    assert r == s[i..i + |r|];
    forall k | i + |r| <= k < |s|
      ensures IsSpace(s[k])
    {
      assert s[k] == lead[k - i];
    }
  }

  /** `s.strip()`: the slice of `s` between its leading and its trailing whitespace. */
  function Strip(s: string): (r: string)
    ensures r == [] || (!IsSpace(r[0]) && !IsSpace(r[|r| - 1]))
    ensures exists i: nat :: IsTrimmedAt(s, r, i)
  {
    var lead := StripLeading(s);
    var r := StripTrailing(lead);
    TrimmedInside(s, lead, r);
    r
  }

  /** Stripping twice is stripping once. */
  lemma StripIdempotent(s: string)
    ensures Strip(Strip(s)) == Strip(s)
  {
  }
}
