/**
 * The few Python `str` operations the session-state callback and the explanation
 * tool rely on, written out over `seq<char>`: `isspace`, `strip`, `lower`,
 * slicing `s[:n]`, substring search (`in`), `split` and `join`.
 * Character classes follow Python's definitions restricted to ASCII.
 */
module Text {
  import opened Wrappers

  /** Python's `str.isspace` on the ASCII range: tab, newline, vertical tab,
      form feed, carriage return, the four separators 0x1C-0x1F, and space. */
  predicate IsSpace(c: char) {
    c == ' ' || 9 <= c as int <= 13 || 28 <= c as int <= 31
  }

  /** `str.lower` on one character: ASCII capitals map to small letters, all else is unchanged. */
  function LowerChar(c: char): (d: char)
    ensures 'A' <= c <= 'Z' ==> 'a' <= d <= 'z' && d as int == c as int + 32
    ensures !('A' <= c <= 'Z') ==> d == c
  {
    if 'A' <= c <= 'Z' then (c as int + 32) as char else c
  }

  function Lower(s: string): (r: string)
    ensures |r| == |s|
    ensures forall k {:trigger r[k]} :: 0 <= k < |s| ==> r[k] == LowerChar(s[k])
  {
    seq(|s|, k requires 0 <= k < |s| => LowerChar(s[k]))
  }

  /** The first position at or after `i` that does not hold whitespace (or `|s|`). */
  function SkipSpace(s: string, i: nat): (j: nat)
    requires i <= |s|
    ensures i <= j <= |s|
    decreases |s| - i
  {
    if i < |s| && IsSpace(s[i]) then SkipSpace(s, i + 1) else i
  }

  /** `SkipSpace` stops at the first non-whitespace character after a run of whitespace. */
  lemma {:induction false} SkipSpaceRun(s: string, i: nat)
    requires i <= |s|
    ensures forall k {:trigger IsSpace(s[k])} :: i <= k < SkipSpace(s, i) ==> IsSpace(s[k])
    ensures SkipSpace(s, i) < |s| ==> !IsSpace(s[SkipSpace(s, i)])
    decreases |s| - i
  {
    if i < |s| && IsSpace(s[i]) {
      SkipSpaceRun(s, i + 1);
    }
  }

  /** The end of `[lo, hi)` once trailing whitespace is dropped. */
  function BackSpace(s: string, lo: nat, hi: nat): (j: nat)
    requires lo <= hi <= |s|
    ensures lo <= j <= hi
    decreases hi - lo
  {
    if lo < hi && IsSpace(s[hi - 1]) then BackSpace(s, lo, hi - 1) else hi
  }

  /** `BackSpace` drops exactly a run of trailing whitespace. */
  lemma {:induction false} BackSpaceRun(s: string, lo: nat, hi: nat)
    requires lo <= hi <= |s|
    ensures forall k {:trigger IsSpace(s[k])} :: BackSpace(s, lo, hi) <= k < hi ==> IsSpace(s[k])
    ensures BackSpace(s, lo, hi) > lo ==> !IsSpace(s[BackSpace(s, lo, hi) - 1])
    decreases hi - lo
  {
    if lo < hi && IsSpace(s[hi - 1]) {
      BackSpaceRun(s, lo, hi - 1);
    }
  }

  /** Python's `str.strip()` with no argument. */
  function Strip(s: string): (r: string)
    ensures |r| <= |s|
  {
    var a := SkipSpace(s, 0);
    s[a..BackSpace(s, a, |s|)]
  }

  /** What `strip` keeps is the window of `s` between a whitespace prefix and a whitespace
      suffix, and it neither starts nor ends with whitespace. */
  lemma StripWindow(s: string) returns (i: nat)
    ensures i + |Strip(s)| <= |s| && Strip(s) == s[i..i + |Strip(s)|]
    ensures forall k :: 0 <= k < i ==> IsSpace(s[k])
    ensures forall k :: i + |Strip(s)| <= k < |s| ==> IsSpace(s[k])
    ensures Strip(s) == [] || (!IsSpace(Strip(s)[0]) && !IsSpace(Strip(s)[|Strip(s)| - 1]))
  {
    i := SkipSpace(s, 0);
    SkipSpaceRun(s, 0);
    BackSpaceRun(s, i, |s|);
  }

  /** Stripped text neither starts nor ends with whitespace. */
  lemma StripEnds(s: string)
    ensures Strip(s) == [] || (!IsSpace(Strip(s)[0]) && !IsSpace(Strip(s)[|Strip(s)| - 1]))
  {
    var _ := StripWindow(s);
  }

  /** A string that has no whitespace at either end is its own stripped form. */
  lemma StripOfStripped(s: string)
    requires s == [] || (!IsSpace(s[0]) && !IsSpace(s[|s| - 1]))
    ensures Strip(s) == s
  {
    if s != [] {
      assert SkipSpace(s, 0) == 0;
      assert BackSpace(s, 0, |s|) == |s|;
    }
  }

  /** `s[:n]` for a non-negative `n`. */
  function Take(s: string, n: nat): (r: string)
    ensures |r| == if n < |s| then n else |s|
    ensures r == s[..|r|]
  {
    if n < |s| then s[..n] else s
  }

  predicate OccursAt(s: string, pat: string, i: nat) {
    i + |pat| <= |s| && s[i..i + |pat|] == pat
  }

  /** `s.find(pat, from)` as an option: the smallest index at or after `from` where `pat` occurs. */
  function Find(s: string, pat: string, from: nat): (r: Option<nat>)
    ensures r.Some? ==> from <= r.value && OccursAt(s, pat, r.value)
    decreases |s| - from
  {
    if from + |pat| > |s| then None
    else if s[from..from + |pat|] == pat then Some(from)
    else Find(s, pat, from + 1)
  }

  /** No occurrence starts between `from` and the answer of `Find` (anywhere from `from` on, when there is none). */
  lemma {:induction false} FindIsFirst(s: string, pat: string, from: nat, k: nat)
    requires from <= k
    requires Find(s, pat, from).None? || k < Find(s, pat, from).value
    ensures !OccursAt(s, pat, k)
    decreases |s| - from
  {
    if from + |pat| <= |s| && k > from {
      FindIsFirst(s, pat, from + 1, k);
    }
  }

  /** Python's `pat in s`. */
  predicate Contains(s: string, pat: string) {
    Find(s, pat, 0).Some?
  }

  lemma ContainsIff(s: string, pat: string)
    ensures Contains(s, pat) <==> exists k :: OccursAt(s, pat, k)
  {
    if exists k :: OccursAt(s, pat, k) {
      var k :| OccursAt(s, pat, k);
      if Find(s, pat, 0).None? {
        FindIsFirst(s, pat, 0, k);
      }
    }
  }

  /** An occurrence inside a window of `s` is an occurrence in `s`. */
  lemma ContainsInfix(s: string, pat: string, i: nat, j: nat)
    requires i <= j <= |s|
    requires Contains(s[i..j], pat)
    ensures Contains(s, pat)
  {
    var k := Find(s[i..j], pat, 0).value;
    SliceOfWindow(s, i, j, k, k + |pat|);
    assert OccursAt(s, pat, i + k);
    ContainsIff(s, pat);
  }

  /** Python's `sep.join(xs)`. */
  function Join(sep: string, xs: seq<string>): string
    decreases |xs|
  {
    if |xs| == 0 then ""
    else if |xs| == 1 then xs[0]
    else xs[0] + sep + Join(sep, xs[1..])
  }

  /** Python's `s.split(sep)` for a non-empty separator: cut at every occurrence,
      found left to right without overlap. */
  function Split(s: string, sep: string): (r: seq<string>)
    requires |sep| > 0
    ensures |r| >= 1
    decreases |s|
  {
    match Find(s, sep, 0)
    case None => [s]
    case Some(i) => [s[..i]] + Split(s[i + |sep|..], sep)
  }

  /** `split` and `join` with the same separator are inverse. */
  lemma {:induction false} JoinSplit(s: string, sep: string)
    requires |sep| > 0
    ensures Join(sep, Split(s, sep)) == s
    decreases |s|
  {
    match Find(s, sep, 0)
    case None =>
    case Some(i) =>
      var rest := s[i + |sep|..];
      var parts := Split(s, sep);
      assert parts == [s[..i]] + Split(rest, sep);
      JoinSplit(rest, sep);
      JoinCons(sep, s[..i], Split(rest, sep));
      assert s == s[..i] + sep + rest;
  }

  lemma JoinCons(sep: string, x: string, xs: seq<string>)
    requires |xs| >= 1
    ensures Join(sep, [x] + xs) == x + sep + Join(sep, xs)
  {
    assert ([x] + xs)[1..] == xs;
  }

  /** Where the `k`-th piece starts in `sep.join(xs)`: after the `k` earlier pieces, each
      followed by one separator. */
  function JoinOffset(sep: string, xs: seq<string>, k: nat): nat
    requires k <= |xs|
    decreases k
  {
    if k == 0 then 0 else JoinOffset(sep, xs, k - 1) + |xs[k - 1]| + |sep|
  }

  /** Dropping the first piece moves every later piece back by that piece and one separator. */
  lemma {:induction false} JoinOffsetTail(sep: string, xs: seq<string>, k: nat)
    requires 1 <= k <= |xs|
    ensures JoinOffset(sep, xs, k) == |xs[0]| + |sep| + JoinOffset(sep, xs[1..], k - 1)
    decreases k
  {
    if k > 1 {
      JoinOffsetTail(sep, xs, k - 1);
    }
  }

  /** An occurrence in `t` is an occurrence in `p + t`, shifted by `|p|`. */
  lemma OccursAfter(p: string, t: string, pat: string, o: nat)
    requires OccursAt(t, pat, o)
    ensures OccursAt(p + t, pat, |p| + o)
  {
    assert (p + t)[|p| + o..|p| + o + |pat|] == t[o..o + |pat|];
  }

  /** The layout of `sep.join(xs)`: every piece occurs whole at its offset, each piece but
      the last is followed by the separator, and the last one ends the text. Together these
      fix every character of the join. */
  lemma {:induction false} JoinLayout(sep: string, xs: seq<string>, k: nat)
    requires k < |xs|
    ensures OccursAt(Join(sep, xs), xs[k], JoinOffset(sep, xs, k))
    ensures k + 1 < |xs| ==> OccursAt(Join(sep, xs), sep, JoinOffset(sep, xs, k) + |xs[k]|)
    ensures k + 1 == |xs| ==> |Join(sep, xs)| == JoinOffset(sep, xs, k) + |xs[k]|
    decreases |xs|
  {
    var s := Join(sep, xs);
    if |xs| == 1 {
      assert s == xs[0];
    } else {
      var rest := Join(sep, xs[1..]);
      var head := xs[0] + sep;
      assert s == head + rest;
      if k == 0 {
        assert s[..|xs[0]|] == xs[0];
        assert s[|xs[0]|..|xs[0]| + |sep|] == sep;
      } else {
        JoinLayout(sep, xs[1..], k - 1);
        JoinOffsetTail(sep, xs, k);
        OccursAfter(head, rest, xs[k], JoinOffset(sep, xs[1..], k - 1));
        if k + 1 < |xs| {
          OccursAfter(head, rest, sep, JoinOffset(sep, xs[1..], k - 1) + |xs[k]|);
        }
      }
    }
  }

  predicate Lacks(s: string, c: char) {
    forall j :: 0 <= j < |s| ==> s[j] != c
  }

  /** When no position between `from` and an occurrence at `m` holds the pattern's first
      character, `Find` from `from` lands on `m`. */
  lemma {:induction false} FindLandsAt(s: string, pat: string, from: nat, m: nat)
    requires |pat| > 0 && from <= m && OccursAt(s, pat, m)
    requires forall j :: from <= j < m ==> s[j] != pat[0]
    ensures Find(s, pat, from) == Some(m)
    decreases m - from
  {
    if from < m {
      assert s[from..from + |pat|][0] == s[from];
      FindLandsAt(s, pat, from + 1, m);
    }
  }

  /** Text without the separator's first character holds no separator. */
  lemma NoFindWithoutFirst(s: string, sep: string)
    requires |sep| > 0 && Lacks(s, sep[0])
    ensures Find(s, sep, 0).None?
  {
  }

  /** `join` and `split` are inverse on pieces that never hold the separator's first
      character: splitting the joined text gives the pieces back. */
  lemma {:induction false} SplitJoin(sep: string, xs: seq<string>)
    requires |sep| > 0 && |xs| >= 1
    requires forall k :: 0 <= k < |xs| ==> Lacks(xs[k], sep[0])
    ensures Split(Join(sep, xs), sep) == xs
    decreases |xs|
  {
    if |xs| == 1 {
      NoFindWithoutFirst(xs[0], sep);
    } else {
      var x := xs[0];
      var rest := Join(sep, xs[1..]);
      var s := Join(sep, xs);
      assert s == x + sep + rest;
      assert s[|x|..|x| + |sep|] == sep;
      FindLandsAt(s, sep, 0, |x|);
      assert s[|x| + |sep|..] == rest;
      assert s[..|x|] == x;
      assert Split(s, sep) == [x] + Split(rest, sep);
      SplitJoin(sep, xs[1..]);
      assert xs == [x] + xs[1..];
    }
  }

  /** `s.split(sep)[-1]`: the text after the last cut. */
  function LastPiece(s: string, sep: string): string
    requires |sep| > 0
  {
    var parts := Split(s, sep);
    parts[|parts| - 1]
  }

  /** The last piece of a split is a suffix of the input. */
  lemma {:induction false} LastPieceIsSuffix(s: string, sep: string)
    requires |sep| > 0
    ensures |LastPiece(s, sep)| <= |s| && LastPiece(s, sep) == s[|s| - |LastPiece(s, sep)|..]
    decreases |s|
  {
    match Find(s, sep, 0)
    case None =>
    case Some(i) =>
      var rest := s[i + |sep|..];
      LastPieceIsSuffix(rest, sep);
      assert LastPiece(s, sep) == LastPiece(rest, sep);
      var p := LastPiece(rest, sep);
      assert rest[|rest| - |p|..] == s[|s| - |p|..];
  }

  /** The last piece of a split holds no separator. */
  lemma {:induction false} LastPieceHasNoSep(s: string, sep: string)
    requires |sep| > 0
    ensures !Contains(LastPiece(s, sep), sep)
    decreases |s|
  {
    match Find(s, sep, 0)
    case None =>
    case Some(i) =>
      var rest := s[i + |sep|..];
      LastPieceHasNoSep(rest, sep);
      assert LastPiece(s, sep) == LastPiece(rest, sep);
  }

  /** When the separator occurs at all, the last piece is everything after its last
      occurrence: an occurrence after which the separator does not occur again. */
  lemma LastPieceFollowsSep(s: string, sep: string) returns (i: nat)
    requires |sep| > 0 && Contains(s, sep)
    ensures OccursAt(s, sep, i) && LastPiece(s, sep) == s[i + |sep|..]
    ensures !Contains(s[i + |sep|..], sep)
  {
    i := LastPieceAfter(s, sep);
    LastPieceHasNoSep(s, sep);
  }

  /** When the separator occurs, the last piece follows one of its occurrences. */
  lemma {:induction false} LastPieceAfter(s: string, sep: string) returns (i: nat)
    requires |sep| > 0 && Contains(s, sep)
    ensures OccursAt(s, sep, i) && LastPiece(s, sep) == s[i + |sep|..]
    decreases |s|
  {
    var f := Find(s, sep, 0).value;
    var rest := s[f + |sep|..];
    assert LastPiece(s, sep) == LastPiece(rest, sep);
    if Contains(rest, sep) {
      var j := LastPieceAfter(rest, sep);
      OccursInSuffix(s, f + |sep|, sep, j);
      i := f + |sep| + j;
    } else {
      i := f;
    }
  }

  /** An occurrence in a suffix is an occurrence in the whole, with the same text after it. */
  lemma OccursInSuffix(s: string, o: nat, pat: string, j: nat)
    requires o <= |s| && OccursAt(s[o..], pat, j)
    ensures OccursAt(s, pat, o + j) && s[o..][j + |pat|..] == s[o + j + |pat|..]
  {
    SliceOfSuffix(s, o, j, j + |pat|);
  }

  /** A window of a window is a window of the whole. */
  lemma SliceOfWindow(s: string, i: nat, j: nat, a: nat, b: nat)
    requires i <= j <= |s| && a <= b <= j - i
    ensures s[i..j][a..b] == s[i + a..i + b]
  {
    forall m | 0 <= m < b - a ensures s[i..j][a..b][m] == s[i + a..i + b][m] {
      assert s[i..j][a + m] == s[i + a + m];
    }
  }

  /** A window of a suffix is a window of the whole. */
  lemma SliceOfSuffix(s: string, o: nat, a: nat, b: nat)
    requires o <= |s| && a <= b <= |s| - o
    ensures s[o..][a..b] == s[o + a..o + b]
  {
  }
}
