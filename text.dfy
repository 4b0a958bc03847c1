/**
 * The pieces of Python's `str` that the day splitter relies on: `strip()`,
 * `startswith`, `split(sep)` and the `split("\n", 1)` search for the first
 * occurrence of a separator.
 */
module Text {
  import opened Wrappers

  /**
   * The characters for which Python's `str.isspace()` holds, which are the
   * characters `str.strip()` with no argument removes: the ASCII controls
   * TAB..CR and FS..US, SPACE, NEL, NO-BREAK SPACE, OGHAM SPACE MARK, the
   * spaces EN QUAD..HAIR SPACE, LINE and PARAGRAPH SEPARATOR, NARROW NO-BREAK
   * SPACE, MEDIUM MATHEMATICAL SPACE and IDEOGRAPHIC SPACE.
   */
  predicate IsSpace(c: char) {
    var n := c as int;
    (0x09 <= n <= 0x0D) || (0x1C <= n <= 0x20) || n == 0x85 || n == 0xA0 ||
    n == 0x1680 || (0x2000 <= n <= 0x200A) || n == 0x2028 || n == 0x2029 ||
    n == 0x202F || n == 0x205F || n == 0x3000
  }

  predicate AllSpace(s: string) {
    forall k :: 0 <= k < |s| ==> IsSpace(s[k])
  }

  /** Neither the first nor the last character is whitespace. */
  predicate NoEdgeSpace(s: string) {
    s == [] || (!IsSpace(s[0]) && !IsSpace(s[|s| - 1]))
  }

  /** `t` occurs in `s` starting at index `k`. */
  predicate OccursAt(s: string, t: string, k: nat) {
    k + |t| <= |s| && s[k..k + |t|] == t
  }

  /** Python's `t in s`. */
  predicate Contains(s: string, t: string) {
    exists k: nat :: k <= |s| && OccursAt(s, t, k)
  }

  /** Python's `s.startswith(p)`. */
  predicate StartsWith(s: string, p: string) {
    p <= s
  }

  lemma OccursAtTail(s: string, t: string, k: nat)
    requires |s| > 0
    ensures OccursAt(s, t, k + 1) <==> OccursAt(s[1..], t, k)
  {
    if k + 1 + |t| <= |s| {
      assert s[k + 1..k + 1 + |t|] == s[1..][k..k + |t|];
    }
  }

  lemma {:induction false} ContainsTransitive(a: string, b: string, c: string)
    requires Contains(a, b) && Contains(b, c)
    ensures Contains(a, c)
  {
    var i: nat :| i <= |a| && OccursAt(a, b, i);
    var j: nat :| j <= |b| && OccursAt(b, c, j);
    forall m | 0 <= m < |c| ensures a[i + j + m] == c[m] {
      assert a[i..i + |b|][j + m] == b[j + m];
      assert b[j..j + |c|][m] == c[m];
    }
    assert a[i + j..i + j + |c|] == c;
    assert OccursAt(a, c, i + j);
  }

  /** Number of whitespace characters at the start of `s`. */
  function LeadingSpace(s: string): (n: nat)
    ensures n <= |s|
    ensures forall k :: 0 <= k < n ==> IsSpace(s[k])
    ensures n == |s| || !IsSpace(s[n])
  {
    if |s| > 0 && IsSpace(s[0]) then
      var m := LeadingSpace(s[1..]);
      m + 1
    else
      0
  }

  /** Number of whitespace characters at the end of `s`. */
  function TrailingSpace(s: string): (n: nat)
    ensures n <= |s|
    ensures forall k :: |s| - n <= k < |s| ==> IsSpace(s[k])
    ensures n == |s| || !IsSpace(s[|s| - n - 1])
  {
    if |s| > 0 && IsSpace(s[|s| - 1]) then
      var m := TrailingSpace(s[..|s| - 1]);
      m + 1
    else
      0
  }

  /**
   * Python's `s.strip()`: the longest infix of `s` that neither starts nor
   * ends with whitespace, with only whitespace cut away on either side.
   */
  function Strip(s: string): (r: string)
    ensures |r| <= |s|
    ensures NoEdgeSpace(r)
    ensures exists lo: nat :: OccursAt(s, r, lo) && AllSpace(s[..lo]) && AllSpace(s[lo + |r|..])
  {
    var lo := LeadingSpace(s);
    var trail := TrailingSpace(s[lo..]);
    StripBounds(s, lo, s[lo..], trail);
    s[lo..|s| - trail]
  }

  /** What the cut points of `Strip` leave on either side and in the middle. */
  lemma StripBounds(s: string, lo: nat, rest: string, trail: nat)
    requires lo <= |s| && rest == s[lo..] && trail <= |rest|
    requires forall k :: 0 <= k < lo ==> IsSpace(s[k])
    requires lo == |s| || !IsSpace(s[lo])
    requires forall k :: |rest| - trail <= k < |rest| ==> IsSpace(rest[k])
    requires trail == |rest| || !IsSpace(rest[|rest| - trail - 1])
    ensures lo <= |s| - trail
    ensures NoEdgeSpace(s[lo..|s| - trail])
    ensures OccursAt(s, s[lo..|s| - trail], lo)
    ensures AllSpace(s[..lo]) && AllSpace(s[lo + |s[lo..|s| - trail]|..])
  {
    var hi := |s| - trail;
    PrefixAllSpace(s, lo);
    forall k | hi <= k < |s| ensures IsSpace(s[k]) {
      assert s[k] == rest[k - lo];
    }
    SuffixAllSpace(s, trail);
    EdgesOfCut(s, lo, hi, rest, trail);
    assert lo + |s[lo..hi]| == hi;
  }

  lemma PrefixAllSpace(s: string, n: nat)
    requires n <= |s| && forall k :: 0 <= k < n ==> IsSpace(s[k])
    ensures AllSpace(s[..n])
  {
    assert forall k :: 0 <= k < n ==> s[..n][k] == s[k];
  }

  lemma SuffixAllSpace(s: string, n: nat)
    requires n <= |s| && forall k :: |s| - n <= k < |s| ==> IsSpace(s[k])
    ensures AllSpace(s[|s| - n..])
  {
    var tail := s[|s| - n..];
    assert forall k :: 0 <= k < n ==> tail[k] == s[|s| - n + k];
  }

  lemma EdgesOfCut(s: string, lo: nat, hi: int, rest: string, trail: nat)
    requires lo <= |s| && rest == s[lo..] && trail <= |rest| && hi == |s| - trail
    requires lo == |s| || !IsSpace(s[lo])
    requires trail == |rest| || !IsSpace(rest[|rest| - trail - 1])
    ensures lo <= hi && NoEdgeSpace(s[lo..hi])
  {
    if lo < hi {
      assert s[lo..hi][0] == s[lo];
      assert s[lo..hi][hi - lo - 1] == rest[|rest| - trail - 1];
    }
  }

  /** Stripping text that has no whitespace at its edges leaves it alone. */
  lemma StripNoEdgeSpace(s: string)
    requires NoEdgeSpace(s)
    ensures Strip(s) == s
  {
    assert LeadingSpace(s) == 0;
    assert TrailingSpace(s) == 0;
  }

  /** `strip()` is idempotent. */
  lemma StripIdempotent(s: string)
    ensures Strip(Strip(s)) == Strip(s)
  {
    StripNoEdgeSpace(Strip(s));
  }

  /** `LeadingSpace` is pinned down by its postcondition. */
  lemma LeadingSpaceIs(s: string, n: nat)
    requires n <= |s| && AllSpace(s[..n]) && (n == |s| || !IsSpace(s[n]))
    ensures LeadingSpace(s) == n
  {
    assert forall k :: 0 <= k < n ==> s[..n][k] == s[k];
  }

  /** `TrailingSpace` is pinned down by its postcondition. */
  lemma TrailingSpaceIs(s: string, n: nat)
    requires n <= |s| && AllSpace(s[|s| - n..]) && (n == |s| || !IsSpace(s[|s| - n - 1]))
    ensures TrailingSpace(s) == n
  {
    assert forall k :: |s| - n <= k < |s| ==> s[|s| - n..][k - (|s| - n)] == s[k];
  }

  /**
   * The postcondition of `Strip` determines its result: any infix of `s`
   * without whitespace at its edges, surrounded only by whitespace, is `Strip(s)`.
   */
  lemma StripUnique(s: string, r: string, lo: nat)
    requires OccursAt(s, r, lo) && AllSpace(s[..lo]) && AllSpace(s[lo + |r|..])
    requires NoEdgeSpace(r)
    ensures r == Strip(s)
  {
    if r == [] {
      forall k | 0 <= k < |s| ensures IsSpace(s[k]) {
        if k < lo { assert s[..lo][k] == s[k]; } else { assert s[lo..][k - lo] == s[k]; }
      }
      StripAllSpace(s);
    } else {
      StripUniqueNonEmpty(s, r, lo);
    }
  }

  /** Text made only of whitespace strips to nothing. */
  lemma StripAllSpace(s: string)
    requires forall k :: 0 <= k < |s| ==> IsSpace(s[k])
    ensures Strip(s) == []
  {
    assert s[..|s|] == s;
    LeadingSpaceIs(s, |s|);
  }

  lemma StripUniqueNonEmpty(s: string, r: string, lo: nat)
    requires OccursAt(s, r, lo) && AllSpace(s[..lo]) && AllSpace(s[lo + |r|..])
    requires r != [] && !IsSpace(r[0]) && !IsSpace(r[|r| - 1])
    ensures r == Strip(s)
  {
    assert s[lo] == r[0];
    LeadingSpaceIs(s, lo);
    var tail := s[lo + |r|..];
    assert s[lo..] == r + tail by {
      assert s[lo..] == s[lo..lo + |r|] + tail;
    }
    TrailingOfRest(s[lo..], r, tail);
    StripCuts(s, lo, |tail|);
  }

  lemma StripCuts(s: string, lo: nat, trail: nat)
    requires lo <= |s| && LeadingSpace(s) == lo && TrailingSpace(s[lo..]) == trail
    ensures Strip(s) == s[lo..|s| - trail]
  {
  }

  lemma TrailingOfRest(rest: string, r: string, tail: string)
    requires rest == r + tail && r != [] && !IsSpace(r[|r| - 1]) && AllSpace(tail)
    ensures TrailingSpace(rest) == |tail|
  {
    assert rest[|r|..] == tail;
    assert rest[|r| - 1] == r[|r| - 1];
    TrailingSpaceIs(rest, |tail|);
  }

  /**
   * The first occurrence of the non-empty `t` in `s` (Python's `s.find(t)`,
   * with `None` for -1).
   */
  function Find(s: string, t: string): (r: Option<nat>)
    requires |t| > 0
    ensures r.Some? ==> OccursAt(s, t, r.value)
    ensures r.Some? ==> forall k: nat :: k < r.value ==> !OccursAt(s, t, k)
    ensures r.None? <==> !Contains(s, t)
    decreases |s|
  {
    if |s| < |t| then
      None
    else if t <= s then
      assert OccursAt(s, t, 0);
      Some(0)
    else
      var tail := Find(s[1..], t);
      assert forall k: nat :: OccursAt(s, t, k + 1) <==> OccursAt(s[1..], t, k) by {
        forall k: nat ensures OccursAt(s, t, k + 1) <==> OccursAt(s[1..], t, k) {
          OccursAtTail(s, t, k);
        }
      }
      assert !OccursAt(s, t, 0);
      match tail
      case None =>
        assert forall k: nat :: !OccursAt(s, t, k) by {
          forall k: nat ensures !OccursAt(s, t, k) {
            if k > 0 { assert !OccursAt(s[1..], t, k - 1); }
          }
        }
        None
      case Some(k) =>
        assert forall j: nat :: j < k + 1 ==> !OccursAt(s, t, j) by {
          forall j: nat | j < k + 1 ensures !OccursAt(s, t, j) {
            if j > 0 { assert !OccursAt(s[1..], t, j - 1); }
          }
        }
        Some(k + 1)
  }

  /** Python's `sep.join(parts)` for a non-empty list. */
  function Join(parts: seq<string>, sep: string): string
    requires |parts| >= 1
    decreases |parts|
  {
    if |parts| == 1 then parts[0] else parts[0] + sep + Join(parts[1..], sep)
  }

  /**
   * Python's `s.split(sep)` for a non-empty separator: the text between the
   * occurrences of `sep` found left to right without overlapping, including
   * the text before the first one and after the last one. The contract below
   * pins the fragments down only for a separator that cannot overlap itself;
   * `Itinerary.FragmentsUnique` proves that for `"Day "`.
   */
  function Split(s: string, sep: string): (r: seq<string>)
    requires |sep| > 0
    ensures |r| >= 1
    ensures Join(r, sep) == s
    ensures forall k :: 0 <= k < |r| ==> !Contains(r[k], sep)
    decreases |s|
  {
    match Find(s, sep)
    case None => [s]
    case Some(k) =>
      var rest := Split(s[k + |sep|..], sep);
      BeforeFirstOccurrence(s, sep, k);
      assert s == s[..k] + sep + s[k + |sep|..];
      assert ([s[..k]] + rest)[1..] == rest;
      [s[..k]] + rest
  }

  /** The text before the first occurrence of `t` does not contain `t`. */
  lemma BeforeFirstOccurrence(s: string, t: string, k: nat)
    requires |t| > 0 && k <= |s| && forall j: nat :: j < k ==> !OccursAt(s, t, j)
    ensures !Contains(s[..k], t)
  {
    if Contains(s[..k], t) {
      var j: nat :| j <= k && OccursAt(s[..k], t, j);
      assert s[..k][j..j + |t|] == s[j..j + |t|];
      assert OccursAt(s, t, j);
    }
  }

  /** Every part of a joined list occurs in the joined text. */
  lemma {:induction false} JoinContainsPart(parts: seq<string>, sep: string, k: nat)
    requires |parts| >= 1 && k < |parts|
    ensures Contains(Join(parts, sep), parts[k])
    decreases |parts|
  {
    var joined := Join(parts, sep);
    if k == 0 {
      assert joined[0..|parts[0]|] == parts[0];
      assert OccursAt(joined, parts[0], 0);
    } else {
      JoinContainsPart(parts[1..], sep, k - 1);
      var tail := Join(parts[1..], sep);
      var offset := |parts[0]| + |sep|;
      assert joined == parts[0] + sep + tail;
      assert OccursAt(joined, tail, offset) by {
        assert joined[offset..offset + |tail|] == tail;
      }
      ContainsTransitive(joined, tail, parts[k]);
    }
  }

  /** Every fragment of `s.split(sep)` is a contiguous piece of `s`. */
  lemma SplitFragmentIn(s: string, sep: string, k: nat)
    requires |sep| > 0 && k < |Split(s, sep)|
    ensures Contains(s, Split(s, sep)[k])
  {
    JoinContainsPart(Split(s, sep), sep, k);
  }

  /**
   * Stripping keeps a prefix of `s` that neither starts nor ends with
   * whitespace.
   */
  lemma StripKeepsPrefix(s: string, p: string)
    requires p != [] && p <= s && !IsSpace(p[0]) && !IsSpace(p[|p| - 1])
    ensures p <= Strip(s)
  {
    assert s[0] == p[0] && s[|p| - 1] == p[|p| - 1];
    assert LeadingSpace(s) == 0;
    assert |s| - TrailingSpace(s) >= |p|;
  }

  /** A one-character text occurs in a concatenation only if it occurs in one of the parts. */
  lemma ContainsCharConcat(a: string, b: string, c: char)
    requires !Contains(a, [c]) && !Contains(b, [c])
    ensures !Contains(a + b, [c])
  {
    forall k: nat | k <= |a + b| ensures !OccursAt(a + b, [c], k) {
      if k < |a| {
        assert (a + b)[k..k + 1] == a[k..k + 1];
        assert !OccursAt(a, [c], k);
      } else if k < |a + b| {
        assert (a + b)[k..k + 1] == b[k - |a|..k - |a| + 1];
        assert !OccursAt(b, [c], k - |a|);
      }
    }
  }

  /** A character that appears nowhere in `s` does not occur in it as a one-character text. */
  lemma CharNotIn(s: string, c: char)
    requires forall k :: 0 <= k < |s| ==> s[k] != c
    ensures !Contains(s, [c])
  {
    forall k: nat | k <= |s| ensures !OccursAt(s, [c], k) {
      if k < |s| {
        assert s[k..k + 1][0] == s[k];
      }
    }
  }
}
