/** The Python `str` builtins the generator relies on: `isspace`, the `in`
    operator, `split`, `startswith`, `strip()` and `strip(chars)`, on strings
    as sequences of Unicode scalar values. `FindFrom` (`str.find`) and `Join`
    (`sep.join`) are helpers in terms of which `split` is stated. */
module PyStr {

  /** `str.isspace` on one character: exactly the code points CPython
      classifies as whitespace (the same set `strip()` removes). */
  predicate IsSpace(c: char) {
    || c == ' '
    || ('\t' <= c <= '\r')
    || ('\U{1C}' <= c <= '\U{1F}')
    || c == '\U{85}' || c == '\U{A0}' || c == '\U{1680}'
    || ('\U{2000}' <= c <= '\U{200A}')
    || c == '\U{2028}' || c == '\U{2029}' || c == '\U{202F}'
    || c == '\U{205F}' || c == '\U{3000}'
  }

  /** Every character of `s` is one that `drop` selects. */
  predicate All(s: string, drop: char -> bool) {
    forall k :: 0 <= k < |s| ==> drop(s[k])
  }

  /** Neither end of `s` is a character that `drop` selects. */
  predicate Trimmed(s: string, drop: char -> bool) {
    s == [] || (!drop(s[0]) && !drop(s[|s| - 1]))
  }

  predicate IsStripped(s: string) {
    Trimmed(s, IsSpace)
  }

  /** `sep` occurs in `s` starting at index `i`. */
  predicate OccursAt(s: string, sep: string, i: int) {
    0 <= i && i + |sep| <= |s| && s[i..i + |sep|] == sep
  }

  /** Python's `sep in s`. */
  predicate Contains(s: string, sep: string) {
    exists i :: 0 <= i <= |s| - |sep| && OccursAt(s, sep, i)
  }

  /** `sep` occurs twice in `s` without the two occurrences overlapping. */
  predicate TwoOccurrences(s: string, sep: string) {
    exists i, j :: 0 <= i && i + |sep| <= j <= |s| && OccursAt(s, sep, i) && OccursAt(s, sep, j)
  }

  /** `s.startswith(prefix)`. */
  predicate StartsWith(s: string, prefix: string) {
    |prefix| <= |s| && s[..|prefix|] == prefix
  }

  /** `s.find(sep, start)`: the first index at or after `start` at which
      `sep` occurs, or -1. */
  function FindFrom(s: string, sep: string, start: nat): (i: int)
    requires start <= |s|
    ensures i == -1 || (start <= i && OccursAt(s, sep, i))
    ensures forall k :: start <= k && (i == -1 || k < i) ==> !OccursAt(s, sep, k)
    decreases |s| - start
  {
    if |s| - start < |sep| then -1
    else if OccursAt(s, sep, start) then start
    else FindFrom(s, sep, start + 1)
  }

  /** A search from `start` stops at the first occurrence after it, whichever
      way that occurrence is established. */
  lemma FindFromIs(s: string, sep: string, start: nat, i: int)
    requires start <= i && OccursAt(s, sep, i)
    requires forall k :: start <= k < i ==> !OccursAt(s, sep, k)
    ensures FindFrom(s, sep, start) == i
  {
  }

  /** `sep.join(parts)`. */
  function Join(parts: seq<string>, sep: string): string {
    if parts == [] then ""
    else if |parts| == 1 then parts[0]
    else parts[0] + sep + Join(parts[1..], sep)
  }

  lemma SliceOccurrence(s: string, sep: string, a: nat, b: nat, k: int)
    requires a <= b <= |s|
    ensures OccursAt(s[a..b], sep, k) ==> OccursAt(s, sep, a + k)
  {
    if OccursAt(s[a..b], sep, k) {
      forall m | 0 <= m < |sep| ensures s[a + k + m] == sep[m] {
        assert s[a..b][k..k + |sep|][m] == s[a..b][k + m] == s[a + k + m];
      }
      assert s[a + k..a + k + |sep|] == sep;
    }
  }

  /** A slice of `s` that starts at `a` and ends before any occurrence
      after `a` holds no `sep`. */
  lemma NoOccurrenceBefore(s: string, sep: string, a: nat, b: nat)
    requires a <= b <= |s|
    requires forall k :: a <= k && k + |sep| <= b ==> !OccursAt(s, sep, k)
    ensures !Contains(s[a..b], sep)
  {
    forall k | 0 <= k <= b - a - |sep| ensures !OccursAt(s[a..b], sep, k) {
      SliceOccurrence(s, sep, a, b, k);
    }
  }

  /** The pieces of `s[start..]` cut at every occurrence of `sep`, each search
      starting after the previous occurrence. */
  function SplitFrom(s: string, sep: string, start: nat): (parts: seq<string>)
    requires sep != [] && start <= |s|
    ensures |parts| >= 1
    ensures Join(parts, sep) == s[start..]
    decreases |s| - start
  {
    var i := FindFrom(s, sep, start);
    if i < 0 then [s[start..]]
    else
      var rest := SplitFrom(s, sep, i + |sep|);
      assert s[start..] == s[start..i] + sep + s[i + |sep|..];
      assert ([s[start..i]] + rest)[1..] == rest;
      [s[start..i]] + rest
  }

  /** No piece `SplitFrom` cuts holds the separator. */
  lemma {:induction false} SplitFromPieces(s: string, sep: string, start: nat)
    requires sep != [] && start <= |s|
    ensures forall k :: 0 <= k < |SplitFrom(s, sep, start)| ==> !Contains(SplitFrom(s, sep, start)[k], sep)
    decreases |s| - start
  {
    var i := FindFrom(s, sep, start);
    if i < 0 {
      NoOccurrenceBefore(s, sep, start, |s|);
      assert s[start..|s|] == s[start..];
    } else {
      SplitFromPieces(s, sep, i + |sep|);
      NoOccurrenceBefore(s, sep, start, i);
    }
  }

  /** `s.split(sep)` for a non-empty separator: cut `s` at every occurrence of
      `sep`, searching left to right, each search starting after the previous
      occurrence. Joining the pieces back restores `s`. */
  function Split(s: string, sep: string): (parts: seq<string>)
    requires sep != []
    ensures |parts| >= 1
    ensures Join(parts, sep) == s
  {
    assert s[0..] == s;
    SplitFrom(s, sep, 0)
  }

  /** No piece of `s.split(sep)` contains `sep`. */
  lemma SplitPieces(s: string, sep: string)
    requires sep != []
    ensures forall k :: 0 <= k < |Split(s, sep)| ==> !Contains(Split(s, sep)[k], sep)
  {
    SplitFromPieces(s, sep, 0);
  }

  /** Where a search that starts at `start` and finds `sep` cuts: the piece
      before the found occurrence, extended by all but the last character
      of `sep`, still holds no `sep`, so no earlier occurrence, not even one
      overlapping the found one, was passed over. */
  lemma FirstCut(s: string, sep: string, start: nat)
    requires sep != [] && start <= |s| && FindFrom(s, sep, start) >= 0
    ensures !Contains(s[start..FindFrom(s, sep, start)] + sep[..|sep| - 1], sep)
  {
    var i := FindFrom(s, sep, start);
    var e := i + |sep| - 1;
    assert s[i..e] == s[i..i + |sep|][..|sep| - 1];
    assert s[start..i] + sep[..|sep| - 1] == s[start..e];
    NoOccurrenceBefore(s, sep, start, e);
  }

  /** Each piece but the last was cut at the first occurrence of `sep` after
      it: followed by all but the last character of `sep`, it holds no `sep`. */
  predicate CutsAtFirst(parts: seq<string>, sep: string)
    requires sep != []
  {
    forall k :: 0 <= k < |parts| - 1 ==> !Contains(parts[k] + sep[..|sep| - 1], sep)
  }

  /** Every cut `SplitFrom` makes is at the first occurrence of `sep` after
      the previous cut. */
  lemma {:induction false} SplitFromCuts(s: string, sep: string, start: nat)
    requires sep != [] && start <= |s|
    ensures forall k :: 0 <= k < |SplitFrom(s, sep, start)| - 1 ==>
      !Contains(SplitFrom(s, sep, start)[k] + sep[..|sep| - 1], sep)
    decreases |s| - start
  {
    var i := FindFrom(s, sep, start);
    if i >= 0 {
      SplitFromCuts(s, sep, i + |sep|);
      FirstCut(s, sep, start);
    }
  }

  /** `s.split(sep)` cuts at the first occurrence after each previous cut.
      With `Split`'s join-back and `SplitPieces` this fixes every piece, also
      for a separator that overlaps itself, as in
      `"````".split("```") == ["", "`"]`. */
  lemma SplitCutsAtFirst(s: string, sep: string)
    requires sep != []
    ensures CutsAtFirst(Split(s, sep), sep)
  {
    assert Split(s, sep) == SplitFrom(s, sep, 0);
    SplitFromCuts(s, sep, 0);
  }

  /** A separator that overlaps itself is cut at its first occurrence:
      `"````".split("```")` is `["", "`"]`, not `["`", ""]`. */
  lemma SplitOverlappingSeparator()
    ensures Split("````", "```") == ["", "`"]
  {
    var s, sep := "````", "```";
    assert OccursAt(s, sep, 0);
    assert FindFrom(s, sep, 0) == 0;
    assert FindFrom(s, sep, 3) == -1;
    assert s[0..0] == "" && s[3..] == "`";
  }

  /** The text between the first occurrence of `sep` and the next one after it. */
  function Between(s: string, sep: string): (mid: string)
    requires TwoOccurrences(s, sep)
  {
    var i := FindFrom(s, sep, 0);
    if i < 0 then []
    else
      var j := FindFrom(s, sep, i + |sep|);
      if j < 0 then [] else s[i + |sep|..j]
  }

  /** Whether the first two searches succeed. */
  predicate TwoFound(s: string, sep: string) {
    var i := FindFrom(s, sep, 0);
    i >= 0 && FindFrom(s, sep, i + |sep|) >= 0
  }

  /** How many pieces `Split` yields is decided by the first two searches. */
  lemma SplitCountBySearches(s: string, sep: string)
    requires sep != []
    ensures |Split(s, sep)| >= 3 <==> TwoFound(s, sep)
  {
    SplitFromCount(s, sep, 0);
  }

  lemma SplitFromCount(s: string, sep: string, start: nat)
    requires sep != [] && start <= |s|
    ensures var i := FindFrom(s, sep, start);
      |SplitFrom(s, sep, start)| >= 3 <==> i >= 0 && FindFrom(s, sep, i + |sep|) >= 0
  {
  }

  /** When the first two searches succeed, the second piece of `Split` is
      the text between the two occurrences they find. */
  lemma SecondPieceBySearches(s: string, sep: string, i: nat, j: nat)
    requires sep != []
    requires FindFrom(s, sep, 0) == i && i + |sep| <= |s| && FindFrom(s, sep, i + |sep|) == j
    ensures |Split(s, sep)| >= 2 && Split(s, sep)[1] == s[i + |sep|..j]
  {
    SplitFromSecond(s, sep, 0, i, j);
  }

  lemma SplitFromSecond(s: string, sep: string, start: nat, i: nat, j: nat)
    requires sep != [] && start <= |s|
    requires FindFrom(s, sep, start) == i && i + |sep| <= |s| && FindFrom(s, sep, i + |sep|) == j
    ensures |SplitFrom(s, sep, start)| >= 2 && SplitFrom(s, sep, start)[1] == s[i + |sep|..j]
  {
  }

  lemma SearchesGiveTwo(s: string, sep: string, i: int, j: int)
    requires 0 <= i && i + |sep| <= j && OccursAt(s, sep, i) && OccursAt(s, sep, j)
    ensures TwoOccurrences(s, sep)
  {
  }

  /** Two separate occurrences found anywhere are found by the two searches. */
  lemma SearchesFindTwo(s: string, sep: string, i0: int, j0: int)
    requires 0 <= i0 && i0 + |sep| <= j0 && OccursAt(s, sep, i0) && OccursAt(s, sep, j0)
    ensures FindFrom(s, sep, 0) >= 0 && FindFrom(s, sep, FindFrom(s, sep, 0) + |sep|) >= 0
  {
    var i := FindFrom(s, sep, 0);
    assert i <= i0;
    var j := FindFrom(s, sep, i + |sep|);
    assert i + |sep| <= j0 && OccursAt(s, sep, j0);
  }

  /** Two separate occurrences exist exactly when the first two searches succeed. */
  lemma TwoBySearches(s: string, sep: string)
    ensures TwoOccurrences(s, sep) <==> TwoFound(s, sep)
  {
    var i := FindFrom(s, sep, 0);
    if TwoOccurrences(s, sep) {
      var i0, j0 :| 0 <= i0 && i0 + |sep| <= j0 <= |s| && OccursAt(s, sep, i0) && OccursAt(s, sep, j0);
      SearchesFindTwo(s, sep, i0, j0);
    }
    if TwoFound(s, sep) {
      SearchesGiveTwo(s, sep, i, FindFrom(s, sep, i + |sep|));
    }
  }

  /** Python's `len(s.split(sep)) >= 3` holds exactly when `sep` occurs
      twice without overlap. */
  lemma SplitThreePieces(s: string, sep: string)
    requires sep != []
    ensures |Split(s, sep)| >= 3 <==> TwoOccurrences(s, sep)
  {
    SplitCountBySearches(s, sep);
    TwoBySearches(s, sep);
  }

  /** With two occurrences, the second piece of the split is the text
      between the first two. */
  lemma SplitSecondPiece(s: string, sep: string)
    requires sep != [] && TwoOccurrences(s, sep)
    ensures |Split(s, sep)| >= 2 && Split(s, sep)[1] == Between(s, sep)
  {
    var i, j := FirstTwoSearches(s, sep);
    SecondPieceBySearches(s, sep, i, j);
    BetweenIs(s, sep, i, j);
  }

  /** Two separate occurrences make both searches succeed. */
  lemma FirstTwoSearches(s: string, sep: string) returns (i: nat, j: nat)
    requires TwoOccurrences(s, sep)
    ensures FindFrom(s, sep, 0) == i && i + |sep| <= |s| && FindFrom(s, sep, i + |sep|) == j
  {
    var i0, j0 :| 0 <= i0 && i0 + |sep| <= j0 <= |s| && OccursAt(s, sep, i0) && OccursAt(s, sep, j0);
    SearchesFindTwo(s, sep, i0, j0);
    i := FindFrom(s, sep, 0);
    j := FindFrom(s, sep, i + |sep|);
  }

  /** `Between` read off from the two searches. */
  lemma BetweenIs(s: string, sep: string, i: nat, j: nat)
    requires TwoOccurrences(s, sep)
    requires FindFrom(s, sep, 0) == i && i + |sep| <= |s| && FindFrom(s, sep, i + |sep|) == j
    ensures Between(s, sep) == s[i + |sep|..j]
  {
  }

  /** A slice of a string that holds no `sep` holds none either. */
  lemma NoOccurrenceInSlice(s: string, sep: string, a: nat, b: nat)
    requires a <= b <= |s| && !Contains(s, sep)
    ensures !Contains(s[a..b], sep)
  {
    forall k | 0 <= k <= b - a - |sep| ensures !OccursAt(s[a..b], sep, k) {
      SliceOccurrence(s, sep, a, b, k);
    }
  }

  /** A slice of a string without two separate occurrences of `sep` has
      no two either. */
  lemma NoTwoInSlice(s: string, sep: string, a: nat, b: nat)
    requires a <= b <= |s| && !TwoOccurrences(s, sep)
    ensures !TwoOccurrences(s[a..b], sep)
  {
    if TwoOccurrences(s[a..b], sep) {
      var i, j :| 0 <= i && i + |sep| <= j <= b - a && OccursAt(s[a..b], sep, i) && OccursAt(s[a..b], sep, j);
      SliceOccurrence(s, sep, a, b, i);
      SliceOccurrence(s, sep, a, b, j);
      assert false;
    }
  }

  lemma StripNoOccurrence(s: string, sep: string)
    requires !Contains(s, sep)
    ensures !Contains(Strip(s), sep)
  {
    var a, b := StripSlice(s);
    NoOccurrenceInSlice(s, sep, a, b);
  }

  lemma BetweenNoOccurrence(s: string, sep: string)
    requires sep != [] && TwoOccurrences(s, sep)
    ensures !Contains(Between(s, sep), sep)
  {
    SplitSecondPiece(s, sep);
    SplitPieces(s, sep);
  }

  lemma SliceOfSlice(s: string, a: nat, b: nat, c: nat, d: nat)
    requires a <= b <= |s| && c <= d <= b - a
    ensures s[a..b][c..d] == s[a + c..a + d]
  {
    forall k | 0 <= k < d - c ensures s[a..b][c..d][k] == s[a + c..a + d][k] {
      assert s[a..b][c..d][k] == s[a..b][c + k] == s[a + c + k];
    }
  }

  /** An occurrence of a separator that starts and ends with non-whitespace
      survives stripping. */
  lemma StripKeepsOccurrence(s: string, sep: string, i: int)
    requires sep != [] && !IsSpace(sep[0]) && !IsSpace(sep[|sep| - 1])
    requires OccursAt(s, sep, i)
    ensures Contains(Strip(s), sep)
  {
    var a, b := StripSlice(s);
    assert s[i] == s[i..i + |sep|][0] == sep[0];
    var e := i + |sep| - 1;
    assert s[e] == s[i..i + |sep|][|sep| - 1] == sep[|sep| - 1];
    assert a <= i && e < b;
    SliceOfSlice(s, a, b, i - a, i - a + |sep|);
    assert OccursAt(Strip(s), sep, i - a);
  }

  /** Two successful searches give two occurrences, with the text between
      them as `Between`. */
  lemma BetweenAt(s: string, sep: string, i: nat, j: nat)
    requires FindFrom(s, sep, 0) == i && i + |sep| <= |s| && FindFrom(s, sep, i + |sep|) == j
    ensures TwoOccurrences(s, sep) && Between(s, sep) == s[i + |sep|..j]
  {
    SearchesGiveTwo(s, sep, i, j);
    BetweenIs(s, sep, i, j);
  }

  /** What lies between the two separators framing `m`. */
  lemma FramedMiddle(p: string, sep: string, m: string, q: string)
    ensures (p + sep + m + sep + q)[|p| + |sep|..|p| + |sep| + |m|] == m
  {
    var s := p + sep + m + sep + q;
    assert s == (p + sep) + m + (sep + q);
  }

  /** The first index at or after `i` whose character `drop` does not select. */
  function SkipLeading(s: string, drop: char -> bool, i: nat): (k: nat)
    requires i <= |s|
    ensures i <= k <= |s|
    ensures forall m :: i <= m < k ==> drop(s[m])
    ensures k < |s| ==> !drop(s[k])
    decreases |s| - i
  {
    if i == |s| || !drop(s[i]) then i else SkipLeading(s, drop, i + 1)
  }

  /** The smallest index `k`, not below `lo`, such that `drop` selects every
      character of `s[k..j]`. */
  function SkipTrailing(s: string, drop: char -> bool, lo: nat, j: nat): (k: nat)
    requires lo <= j <= |s|
    ensures lo <= k <= j
    ensures forall m :: k <= m < j ==> drop(s[m])
    ensures k > lo ==> !drop(s[k - 1])
    decreases j - lo
  {
    if j == lo || !drop(s[j - 1]) then j else SkipTrailing(s, drop, lo, j - 1)
  }

  /** `s.strip(chars)` with `drop` selecting the characters in `chars`:
      advance from the left past selected characters, then retreat from the
      right, never past the left edge. Neither end of the result is selected;
      `StripBySlice` says what was removed and `StripByUnique` that this
      determines the result. */
  function StripBy(s: string, drop: char -> bool): (r: string)
    ensures Trimmed(r, drop) && |r| <= |s|
    ensures forall c :: c in r ==> c in s
  {
    var a := SkipLeading(s, drop, 0);
    var b := SkipTrailing(s, drop, a, |s|);
    s[a..b]
  }

  /** `s.strip()`. */
  function Strip(s: string): (r: string)
    ensures IsStripped(r) && |r| <= |s|
  {
    StripBy(s, IsSpace)
  }

  /** What `StripBy` returns is a slice of its input with only selected
      characters on either side. */
  lemma StripBySlice(s: string, drop: char -> bool) returns (a: nat, b: nat)
    ensures a <= b <= |s| && StripBy(s, drop) == s[a..b]
    ensures All(s[..a], drop) && All(s[b..], drop)
    ensures forall k :: 0 <= k < a || b <= k < |s| ==> drop(s[k])
  {
    a := SkipLeading(s, drop, 0);
    b := SkipTrailing(s, drop, a, |s|);
    assert All(s[..a], drop) by {
      forall k | 0 <= k < a ensures drop(s[..a][k]) { assert s[..a][k] == s[k]; }
    }
    assert All(s[b..], drop) by {
      forall k | 0 <= k < |s| - b ensures drop(s[b..][k]) { assert s[b..][k] == s[b + k]; }
    }
  }

  lemma StripSlice(s: string) returns (a: nat, b: nat)
    ensures a <= b <= |s| && Strip(s) == s[a..b]
    ensures All(s[..a], IsSpace) && All(s[b..], IsSpace)
    ensures forall k :: 0 <= k < a || b <= k < |s| ==> IsSpace(s[k])
  {
    a, b := StripBySlice(s, IsSpace);
  }

  lemma AllConcat(u: string, v: string, drop: char -> bool)
    ensures All(u + v, drop) <==> All(u, drop) && All(v, drop)
  {
    if All(u, drop) && All(v, drop) {
      forall k | 0 <= k < |u + v| ensures drop((u + v)[k]) {
        if k < |u| { assert (u + v)[k] == u[k]; } else { assert (u + v)[k] == v[k - |u|]; }
      }
    }
    if All(u + v, drop) {
      forall k | 0 <= k < |u| ensures drop(u[k]) { assert (u + v)[k] == u[k]; }
      forall k | 0 <= k < |v| ensures drop(v[k]) { assert (u + v)[|u| + k] == v[k]; }
    }
  }

  /** Stripping is determined by its contract: whatever way `s` splits into
      a selected prefix, a trimmed middle and a selected suffix, the middle is
      what `StripBy` returns. */
  lemma StripByUnique(s: string, drop: char -> bool, w1: string, t: string, w2: string)
    requires s == w1 + t + w2
    requires All(w1, drop) && All(w2, drop) && Trimmed(t, drop)
    ensures StripBy(s, drop) == t
  {
    var a := SkipLeading(s, drop, 0);
    var b := SkipTrailing(s, drop, a, |s|);
    assert StripBy(s, drop) == s[a..b];
    if t == [] {
      assert forall m :: 0 <= m < |s| ==> drop(s[m]) by {
        forall m | 0 <= m < |s| ensures drop(s[m]) {
          if m < |w1| { assert s[m] == w1[m]; } else { assert s[m] == w2[m - |w1|]; }
        }
      }
      assert a == |s|;
    } else {
      assert s[|w1|] == t[0];
      assert forall m :: 0 <= m < |w1| ==> drop(s[m]) by {
        forall m | 0 <= m < |w1| ensures drop(s[m]) { assert s[m] == w1[m]; }
      }
      assert a == |w1|;
      var e := |w1| + |t|;
      assert s[e - 1] == t[|t| - 1];
      assert forall m :: e <= m < |s| ==> drop(s[m]) by {
        forall m | e <= m < |s| ensures drop(s[m]) { assert s[m] == w2[m - e]; }
      }
      assert b == e;
      assert s[a..b] == t;
    }
  }

  lemma StripUnique(s: string, w1: string, t: string, w2: string)
    requires s == w1 + t + w2
    requires All(w1, IsSpace) && All(w2, IsSpace) && IsStripped(t)
    ensures Strip(s) == t
  {
    StripByUnique(s, IsSpace, w1, t, w2);
  }

  /** Stripping text that a non-blank head opens: what follows the last
      non-space character goes, the head stays. */
  lemma StripAfterHead(head: string, w: string, c1: string, t: string, c2: string)
    requires head != [] && !IsSpace(head[0]) && t != [] && IsStripped(t)
    requires All(w, IsSpace) && All(c1, IsSpace) && All(c2, IsSpace)
    ensures Strip(head + w + (c1 + t + c2) + w) == head + w + c1 + t
  {
    var x := head + w + (c1 + t + c2) + w;
    var mid := head + w + c1 + t;
    assert x == "" + mid + (c2 + w);
    AllConcat(c2, w, IsSpace);
    assert mid[0] == head[0] && mid[|mid| - 1] == t[|t| - 1];
    StripUnique(x, "", mid, c2 + w);
  }

  /** Stripping whitespace in front of stripped text leaves the text. */
  lemma StripLeadingBlank(w: string, c1: string, t: string)
    requires All(w, IsSpace) && All(c1, IsSpace) && IsStripped(t)
    ensures Strip(w + c1 + t) == t
  {
    AllConcat(w, c1, IsSpace);
    assert w + c1 + t == (w + c1) + t + "";
    StripUnique(w + c1 + t, w + c1, t, "");
  }

  /** Stripping an already stripped string changes nothing. */
  lemma StripStripped(s: string)
    requires IsStripped(s)
    ensures Strip(s) == s
  {
    StripUnique(s, "", s, "");
  }

  /** Stripping a tagged body: a stripped tag, whitespace, some code and the
      same whitespace again strip down to text that starts with the tag, and
      stripping what follows the tag leaves the code, stripped. */
  lemma StripTaggedBody(tag: string, w: string, code: string)
    requires tag != [] && IsStripped(tag) && All(w, IsSpace)
    ensures StartsWith(Strip(tag + w + code + w), tag)
    ensures Strip(Strip(tag + w + code + w)[|tag|..]) == Strip(code)
  {
    var a, b := StripSlice(code);
    SliceThree(code, a, b);
    if a < b {
      StripTaggedCode(tag, w, code[..a], code[a..b], code[b..]);
    } else {
      StripTaggedBlank(tag, w, code[..a], code[b..]);
      assert code[a..b] == [];
      TagThenRest(tag, "");
      StripStripped("");
    }
  }

  lemma SliceThree(s: string, a: nat, b: nat)
    requires a <= b <= |s|
    ensures s == s[..a] + s[a..b] + s[b..]
  {
  }

  lemma StripTaggedCode(tag: string, w: string, c1: string, t: string, c2: string)
    requires tag != [] && IsStripped(tag) && All(w, IsSpace)
    requires t != [] && IsStripped(t) && All(c1, IsSpace) && All(c2, IsSpace)
    ensures StartsWith(Strip(tag + w + (c1 + t + c2) + w), tag)
    ensures Strip(Strip(tag + w + (c1 + t + c2) + w)[|tag|..]) == t
  {
    StripAfterHead(tag, w, c1, t, c2);
    Regroup(tag, w, c1, t);
    TagThenRest(tag, w + c1 + t);
    StripLeadingBlank(w, c1, t);
  }

  lemma Regroup(x: string, y: string, z: string, u: string)
    ensures x + y + z + u == x + (y + z + u)
  {
  }

  lemma TagThenRest(tag: string, rest: string)
    ensures StartsWith(tag + rest, tag) && (tag + rest)[|tag|..] == rest
  {
  }

  /** A stripped tag followed by nothing but whitespace strips to the tag. */
  lemma StripTaggedBlank(tag: string, w: string, c1: string, c2: string)
    requires IsStripped(tag) && All(w, IsSpace) && All(c1, IsSpace) && All(c2, IsSpace)
    ensures Strip(tag + w + (c1 + [] + c2) + w) == tag + ""
  {
    assert c1 + [] + c2 == c1 + c2;
    AllConcat(c1, c2, IsSpace);
    AllConcat(w, c1 + c2, IsSpace);
    AllConcat(w + (c1 + c2), w, IsSpace);
    var tail := w + (c1 + c2) + w;
    assert tag + w + (c1 + [] + c2) + w == "" + tag + tail;
    StripUnique("" + tag + tail, "", tag, tail);
  }
}
