/**
 * The day-section splitter of the trip planner (app.py:103-112): the
 * generated itinerary text is cut at every "Day ", and for each requested
 * day the first fragment whose stripped text starts with the day's numeral
 * becomes that day's section.
 */
module Itinerary {
  import opened Wrappers
  import opened Text
  import opened Decimal

  /** The literal heading marker the text is split on. */
  const Marker: string := "Day "

  /** What is shown for a day that was found: the rebuilt heading and the body. */
  datatype Section = Section(heading: string, body: string)

  /** The output split at every marker; the text before the first marker is kept as fragment 0. */
  function Fragments(output: string): seq<string> {
    Split(output, Marker)
  }

  /** The search condition: the stripped fragment starts with the decimal numeral of the day. */
  predicate Matches(fragment: string, day: nat) {
    StartsWith(Strip(fragment), DecimalString(day))
  }

  /**
   * The generator scan behind `next(..., None)`, as the index of the
   * fragment it yields: the earliest fragment matching the day, if any.
   */
  function FirstMatch(fragments: seq<string>, day: nat): (r: Option<nat>)
    ensures r.Some? ==> r.value < |fragments| && Matches(fragments[r.value], day)
    ensures r.Some? ==> forall j :: 0 <= j < r.value ==> !Matches(fragments[j], day)
    ensures r.None? <==> forall j :: 0 <= j < |fragments| ==> !Matches(fragments[j], day)
  {
    FirstWhere(fragments, DayTest(day), 0)
  }

  /** The condition of the generator expression, for one day. */
  function DayTest(day: nat): string -> bool {
    f => Matches(f, day)
  }

  /** The index of the first fragment at or after `from` that satisfies `test`, if any. */
  function FirstWhere(fragments: seq<string>, test: string -> bool, from: nat): (r: Option<nat>)
    requires from <= |fragments|
    ensures r.Some? ==> from <= r.value < |fragments| && test(fragments[r.value])
    ensures r.Some? ==> forall j :: from <= j < r.value ==> !test(fragments[j])
    ensures r.None? <==> forall j :: from <= j < |fragments| ==> !test(fragments[j])
    decreases |fragments| - from
  {
    if from == |fragments| then
      None
    else if test(fragments[from]) then
      Some(from)
    else
      FirstWhere(fragments, test, from + 1)
  }

  /** The last piece of a split at the first newline: the text after it, or the whole fragment if it has none. */
  function AfterFirstLine(fragment: string): (r: string)
    ensures Contains(fragment, r)
    ensures !Contains(fragment, "\n") ==> r == fragment
  {
    match Find(fragment, "\n")
    case None =>
      assert OccursAt(fragment, fragment, 0);
      fragment
    case Some(k) =>
      assert OccursAt(fragment, fragment[k + 1..], k + 1);
      fragment[k + 1..]
  }

  /** The section body: the text after the heading line, stripped. */
  function Body(fragment: string): (r: string)
    ensures NoEdgeSpace(r)
    ensures Contains(fragment, r)
  {
    var after := AfterFirstLine(fragment);
    var r := Strip(after);
    ContainsTransitive(fragment, after, r);
    r
  }

  /** The heading shown for a day: rebuilt from the day number, not taken from the text. */
  function Heading(day: nat): string {
    Marker + DecimalString(day)
  }

  /**
   * The entry for one day. The found fragment is tested for truthiness
   * (Python truthiness), so an empty fragment would count as not found.
   */
  function DayEntry(fragments: seq<string>, day: nat): Option<Section> {
    match FirstMatch(fragments, day)
    case None => None
    case Some(k) =>
      if fragments[k] == "" then None else Some(Section(Heading(day), Body(fragments[k])))
  }

  /** The heading names its day: the marker, then a numeral that reads back as the day. */
  lemma HeadingNamesDay(day: nat)
    ensures Heading(day)[..|Marker|] == Marker
    ensures forall k :: |Marker| <= k < |Heading(day)| ==> IsDigit(Heading(day)[k])
    ensures ParseDecimal(Heading(day)[|Marker|..]) == day
  {
    assert Heading(day)[|Marker|..] == DecimalString(day);
    ParseDecimalString(day);
  }

  /** One entry per day `1..days`, in order: `None` is the "not found" notice. */
  function SplitDays(output: string, days: nat): (r: seq<Option<Section>>)
    ensures |r| == days
  {
    DayEntries(Fragments(output), days)
  }

  /** The entries of days `1..days` over the given fragments. */
  function DayEntries(fragments: seq<string>, days: nat): (r: seq<Option<Section>>)
    ensures |r| == days
  {
    ForEachDay(days, day => DayEntry(fragments, day))
  }

  /** The display loop over days 1 to `days`: the value of `entry` for each day, in order. */
  function ForEachDay<T>(days: nat, entry: nat -> T): (r: seq<T>)
    ensures |r| == days
    ensures forall i :: 1 <= i <= days ==> r[i - 1] == entry(i)
  {
    if days == 0 then [] else ForEachDay(days - 1, entry) + [entry(days)]
  }

  /** A scan that stops at fragment `j` (or runs off the end) computes `FirstWhere`. */
  lemma FirstWhereAt(fragments: seq<string>, test: string -> bool, j: nat)
    requires j <= |fragments|
    requires forall l :: 0 <= l < j ==> !test(fragments[l])
    requires j < |fragments| ==> test(fragments[j])
    ensures FirstWhere(fragments, test, 0) == if j < |fragments| then Some(j) else None
  {
  }

  /** A fragment that matches a day is never empty, so the truthiness test never rejects it. */
  lemma MatchedFragmentNonEmpty(fragment: string, day: nat)
    requires Matches(fragment, day)
    ensures fragment != ""
  {
  }

  /** Entry `i - 1` of the result is the entry of day `i`. */
  lemma SplitDaysAt(output: string, days: nat, i: nat)
    requires 1 <= i <= days
    ensures SplitDays(output, days)[i - 1] == DayEntry(Fragments(output), i)
  {
    DayEntriesAt(Fragments(output), days, i);
  }

  lemma DayEntriesAt(fragments: seq<string>, days: nat, i: nat)
    requires 1 <= i <= days
    ensures DayEntries(fragments, days)[i - 1] == DayEntry(fragments, i)
  {
    var entry := day => DayEntry(fragments, day);
    assert DayEntries(fragments, days) == ForEachDay(days, entry);
    assert entry(i) == DayEntry(fragments, i);
  }

  /** Asking for one more day appends that day's entry and changes none of the others. */
  lemma SplitDaysSnoc(output: string, days: nat)
    ensures SplitDays(output, days + 1) == SplitDays(output, days) + [DayEntry(Fragments(output), days + 1)]
  {
    var longer := SplitDays(output, days + 1);
    var shorter := SplitDays(output, days);
    forall k | 0 <= k < days + 1
      ensures longer[k] == (shorter + [DayEntry(Fragments(output), days + 1)])[k]
    {
      SplitDaysAt(output, days + 1, k + 1);
      if k < days {
        SplitDaysAt(output, days, k + 1);
      }
    }
  }

  /**
   * Day `i` is found exactly when some fragment, the leading one included,
   * starts with the numeral of `i` once stripped.
   */
  lemma DayFoundIff(output: string, days: nat, i: nat)
    requires 1 <= i <= days
    ensures SplitDays(output, days)[i - 1].Some? <==>
      exists j :: 0 <= j < |Fragments(output)| && Matches(Fragments(output)[j], i)
  {
    var fragments := Fragments(output);
    SplitDaysAt(output, days, i);
    match FirstMatch(fragments, i)
    case None =>
    case Some(k) => MatchedFragmentNonEmpty(fragments[k], i);
  }

  /**
   * First match wins: the section of day `i` is the body of the earliest
   * fragment that matches `i`, under the heading rebuilt from `i`.
   */
  lemma FirstMatchWins(output: string, days: nat, i: nat, j: nat)
    requires 1 <= i <= days
    requires j < |Fragments(output)| && Matches(Fragments(output)[j], i)
    requires forall l :: 0 <= l < j ==> !Matches(Fragments(output)[l], i)
    ensures SplitDays(output, days)[i - 1] == Some(Section(Heading(i), Body(Fragments(output)[j])))
  {
    var fragments := Fragments(output);
    SplitDaysAt(output, days, i);
    var k := FirstMatch(fragments, i).value;
    assert k == j;
    MatchedFragmentNonEmpty(fragments[j], i);
  }

  /**
   * Every section found carries the heading "Day i", and its body has no
   * whitespace at either end and is a contiguous piece of the output.
   */
  lemma SectionShape(output: string, days: nat, i: nat)
    requires 1 <= i <= days && SplitDays(output, days)[i - 1].Some?
    ensures SplitDays(output, days)[i - 1].value.heading == "Day " + DecimalString(i)
    ensures NoEdgeSpace(SplitDays(output, days)[i - 1].value.body)
    ensures Contains(output, SplitDays(output, days)[i - 1].value.body)
  {
    var fragments := Fragments(output);
    SplitDaysAt(output, days, i);
    var k := FirstMatch(fragments, i).value;
    SplitFragmentIn(output, Marker, k);
    ContainsTransitive(output, fragments[k], Body(fragments[k]));
  }

  /** An empty output leaves every day "not found". */
  lemma EmptyOutputAllAbsent(days: nat)
    ensures forall k :: 0 <= k < days ==> SplitDays("", days)[k] == None
  {
    assert Fragments("") == [""];
    forall k | 0 <= k < days ensures SplitDays("", days)[k] == None {
      SplitDaysAt("", days, k + 1);
    }
  }

  /** Whether and how day `i` is found does not depend on how many days were asked for. */
  lemma DayIndependentOfCount(output: string, days1: nat, days2: nat, i: nat)
    requires 1 <= i <= days1 && i <= days2
    ensures SplitDays(output, days1)[i - 1] == SplitDays(output, days2)[i - 1]
  {
    SplitDaysAt(output, days1, i);
    SplitDaysAt(output, days2, i);
  }

  /**
   * Prefix collision: a fragment that matches day `10 * n + d` also matches
   * day `n`, because the test is a prefix test on the numeral.
   */
  lemma LongerNumeralMatchesShorter(fragment: string, n: nat, d: nat)
    requires n >= 1 && d < 10 && Matches(fragment, 10 * n + d)
    ensures Matches(fragment, n)
  {
    DecimalPrefixOfLonger(n, d);
  }

  /** Between days 1 to 9 no prefix collision happens: one fragment matches at most one of them. */
  lemma NoCollisionBelowTen(fragment: string, i: nat, j: nat)
    requires i < 10 && j < 10 && Matches(fragment, i) && Matches(fragment, j)
    ensures i == j
  {
    if i != j {
      if |DecimalString(i)| <= |DecimalString(j)| {
        CollisionNeedsTwoDigits(fragment, i, j);
      } else {
        CollisionNeedsTwoDigits(fragment, j, i);
      }
    }
  }

  /**
   * Any collision involves a multi-digit day: when one fragment matches two
   * different days, the one with the longer (or equally long) numeral is at least 10.
   */
  lemma CollisionNeedsTwoDigits(fragment: string, i: nat, j: nat)
    requires i != j && Matches(fragment, i) && Matches(fragment, j)
    requires |DecimalString(i)| <= |DecimalString(j)|
    ensures j >= 10
  {
    var s := Strip(fragment);
    assert DecimalString(i) <= DecimalString(j) by {
      assert forall k :: 0 <= k < |DecimalString(i)| ==> DecimalString(i)[k] == s[k];
    }
    DecimalPrefixNeedsTen(i, j);
  }

  /**
   * The known ambiguity: when a "Day 1x" fragment comes before any fragment
   * that matches day 1, day 1 shows the body of that "Day 1x" fragment.
   */
  lemma EarlierTeenTakesDayOne(output: string, days: nat, j: nat, d: nat)
    requires 1 <= days && d < 10
    requires j < |Fragments(output)| && Matches(Fragments(output)[j], 10 + d)
    requires forall l :: 0 <= l < j ==> !Matches(Fragments(output)[l], 1)
    ensures SplitDays(output, days)[0] == Some(Section(Heading(1), Body(Fragments(output)[j])))
  {
    LongerNumeralMatchesShorter(Fragments(output)[j], 1, d);
    FirstMatchWins(output, days, 1, j);
  }

  /** Two occurrences of "Day " never overlap: the marker has no border. */
  lemma MarkerOccurrencesApart(s: string, j: nat, p: nat)
    requires j < p && OccursAt(s, Marker, j) && OccursAt(s, Marker, p)
    ensures j + |Marker| <= p
  {
    assert s[p] == s[p..p + |Marker|][0] == 'D';
    assert s[j + 1] == s[j..j + |Marker|][1] == 'a';
    assert s[j + 2] == s[j..j + |Marker|][2] == 'y';
    assert s[j + 3] == s[j..j + |Marker|][3] == ' ';
  }

  /**
   * Because the marker cannot overlap itself, `split` is the only way to cut
   * the output into marker-free pieces that rejoin with "Day " to the output.
   */
  lemma {:induction false} FragmentsUnique(output: string, parts: seq<string>)
    requires |parts| >= 1 && Join(parts, Marker) == output
    requires forall k :: 0 <= k < |parts| ==> !Contains(parts[k], Marker)
    ensures Fragments(output) == parts
    decreases |parts|
  {
    if |parts| == 1 {
      assert !Contains(output, Marker);
    } else {
      var head := parts[0];
      var tail := Join(parts[1..], Marker);
      var n := |head|;
      assert output == head + Marker + tail;
      assert OccursAt(output, Marker, n) by {
        assert output[n..n + |Marker|] == Marker;
      }
      var k := Find(output, Marker).value;
      assert k == n by {
        if k < n {
          MarkerOccurrencesApart(output, k, n);
          assert output[k..k + |Marker|] == head[k..k + |Marker|];
          assert OccursAt(head, Marker, k);
        }
      }
      assert output[n + |Marker|..] == tail;
      assert forall k :: 0 <= k < |parts| - 1 ==> parts[1..][k] == parts[k + 1];
      FragmentsUnique(tail, parts[1..]);
    }
  }

  /** The text before the first "Day " is kept as fragment 0, and so is searched like every other. */
  lemma LeadingFragmentKept(output: string)
    ensures StartsWith(output, Fragments(output)[0])
    ensures !Contains(Fragments(output)[0], Marker)
    ensures Contains(output, Marker) ==> StartsWith(output[|Fragments(output)[0]|..], Marker)
  {
    var fragments := Fragments(output);
    if |fragments| > 1 {
      assert output == fragments[0] + Marker + Join(fragments[1..], Marker);
      assert output[|fragments[0]|..] == Marker + Join(fragments[1..], Marker);
    }
  }

  /** The body of a fragment is the stripped text after its heading line. */
  lemma BodyAfterHeadingLine(heading: string, rest: string)
    requires !Contains(heading, "\n")
    ensures Body(heading + "\n" + rest) == Strip(rest)
  {
    var fragment := heading + "\n" + rest;
    var n := |heading|;
    assert OccursAt(fragment, "\n", n);
    var k := Find(fragment, "\n").value;
    assert k == n by {
      if k < n {
        assert fragment[k..k + 1] == heading[k..k + 1];
        assert OccursAt(heading, "\n", k);
      }
    }
    assert fragment[n + 1..] == rest;
  }

  /** A fragment without a newline is its own body: the heading text stays in it. */
  /** With a first newline at `k`, the kept text is everything after position `k`. */
  lemma AfterFirstNewline(fragment: string, k: nat)
    requires k < |fragment| && fragment[k] == '\n'
    requires forall l :: 0 <= l < k ==> fragment[l] != '\n'
    ensures AfterFirstLine(fragment) == fragment[k + 1..]
  {
    assert OccursAt(fragment, "\n", k);
    assert Contains(fragment, "\n");
    var f := Find(fragment, "\n").value;
    assert fragment[f..f + 1] == "\n";
    assert fragment[f] == '\n';
    assert f == k;
  }

  lemma BodyWithoutNewline(fragment: string)
    requires !Contains(fragment, "\n")
    ensures Body(fragment) == Strip(fragment)
  {
  }

  /** Text in which no "D" is followed by an "a" holds no marker. */
  lemma NoMarkerWithoutDa(p: string)
    requires forall k :: 0 <= k < |p| - 1 ==> !(p[k] == 'D' && p[k + 1] == 'a')
    ensures !Contains(p, Marker)
  {
    forall k: nat | k <= |p| ensures !OccursAt(p, Marker, k) {
      if k + |Marker| <= |p| {
        assert p[k..k + |Marker|][0] == p[k];
        assert p[k..k + |Marker|][1] == p[k + 1];
      }
    }
  }

  /**
   * For a fragment that does not start with whitespace, matching a one-digit
   * day is a test of its first character.
   */
  lemma MatchesOneDigit(fragment: string, day: nat)
    requires fragment != [] && !IsSpace(fragment[0]) && day < 10
    ensures Matches(fragment, day) <==> fragment[0] == DigitChar(day)
  {
    var stripped := Strip(fragment);
    assert LeadingSpace(fragment) == 0;
    assert stripped != [] && stripped[0] == fragment[0];
  }

  /** What a heading "Day n: title" followed by its body leaves after the marker. */
  function DayPage(day: nat, title: string, body: string): string {
    DecimalString(day) + ": " + title + "\n" + body
  }

  /** The fragments of a well-formed itinerary: an introduction, then the pages of days 1, 2, ... in order. */
  function WellFormedParts(intro: string, titles: seq<string>, bodies: seq<string>): seq<string>
    requires |titles| == |bodies|
  {
    [intro] + seq(|titles|, k requires 0 <= k < |titles| => DayPage(k + 1, titles[k], bodies[k]))
  }

  /** Stripping a page keeps its numeral and the colon after it. */
  lemma PageKeepsNumeral(day: nat, title: string, body: string)
    ensures DecimalString(day) + ":" <= Strip(DayPage(day, title, body))
  {
    var numeral := DecimalString(day) + ":";
    assert numeral <= DayPage(day, title, body);
    StripKeepsPrefix(DayPage(day, title, body), numeral);
  }

  /** The page of an earlier day does not match a later day, even past day 9. */
  lemma EarlierPageMissesLaterDay(j: nat, i: nat, title: string, body: string)
    requires j < i
    ensures !Matches(DayPage(j, title, body), i)
  {
    var stripped := Strip(DayPage(j, title, body));
    var dj := DecimalString(j);
    var di := DecimalString(i);
    PageKeepsNumeral(j, title, body);
    DecimalLengthMonotone(j, i);
    if |di| == |dj| {
      DecimalStringDistinct(i, j);
    } else {
      assert stripped[|dj|] == (dj + ":")[|dj|] == ':';
      assert IsDigit(di[|dj|]);
    }
  }

  /** The body of a page is its stripped body text. */
  lemma PageBody(day: nat, title: string, body: string)
    requires !Contains(title, "\n")
    ensures Body(DayPage(day, title, body)) == Strip(body)
  {
    var numeral := DecimalString(day);
    CharNotIn(numeral, '\n');
    CharNotIn(": ", '\n');
    ContainsCharConcat(numeral, ": ", '\n');
    ContainsCharConcat(numeral + ": ", title, '\n');
    BodyAfterHeadingLine(numeral + ": " + title, body);
  }

  /** The precondition of `WellFormedAllFound`. */
  predicate WellFormed(intro: string, titles: seq<string>, bodies: seq<string>) {
    && |titles| == |bodies|
    && !Contains(intro, Marker)
    && (Strip(intro) == [] || !IsDigit(Strip(intro)[0]))
    && (forall k :: 0 <= k < |titles| ==> !Contains(titles[k], "\n"))
    && (forall k :: 0 <= k < |titles| ==> !Contains(DayPage(k + 1, titles[k], bodies[k]), Marker))
  }

  /** In a well-formed itinerary the page of day `i` is the first fragment that matches `i`. */
  lemma WellFormedDay(intro: string, titles: seq<string>, bodies: seq<string>, i: nat)
    requires |titles| == |bodies| && 1 <= i <= |titles|
    requires Strip(intro) == [] || !IsDigit(Strip(intro)[0])
    requires !Contains(titles[i - 1], "\n")
    ensures Matches(WellFormedParts(intro, titles, bodies)[i], i)
    ensures forall l :: 0 <= l < i ==> !Matches(WellFormedParts(intro, titles, bodies)[l], i)
    ensures Body(WellFormedParts(intro, titles, bodies)[i]) == Strip(bodies[i - 1])
  {
    var parts := WellFormedParts(intro, titles, bodies);
    assert parts[i] == DayPage(i, titles[i - 1], bodies[i - 1]);
    forall l | 0 <= l < i ensures !Matches(parts[l], i) {
      if l == 0 {
        IntroMissesDay(intro, i);
      } else {
        EarlierPartMissesLaterDay(intro, titles, bodies, l, i);
      }
    }
    PageMatchesOwnDay(i, titles[i - 1], bodies[i - 1]);
    PageBody(i, titles[i - 1], bodies[i - 1]);
  }

  /** The page of a day matches that day. */
  lemma PageMatchesOwnDay(day: nat, title: string, body: string)
    ensures Matches(DayPage(day, title, body), day)
  {
    PageKeepsNumeral(day, title, body);
  }

  /** An introduction that does not start with a digit matches no day. */
  lemma IntroMissesDay(intro: string, i: nat)
    requires Strip(intro) == [] || !IsDigit(Strip(intro)[0])
    ensures !Matches(intro, i)
  {
    assert IsDigit(DecimalString(i)[0]);
  }

  lemma EarlierPartMissesLaterDay(intro: string, titles: seq<string>, bodies: seq<string>, l: nat, i: nat)
    requires |titles| == |bodies| && 1 <= l < i <= |titles|
    ensures !Matches(WellFormedParts(intro, titles, bodies)[l], i)
  {
    assert WellFormedParts(intro, titles, bodies)[l] == DayPage(l, titles[l - 1], bodies[l - 1]);
    EarlierPageMissesLaterDay(l, i, titles[l - 1], bodies[l - 1]);
  }

  /**
   * A well-formed itinerary, whose headings "Day 1: ..." to "Day n: ..."
   * come in order after an introduction that does not start with a digit,
   * gives every day its section: the stripped text after its heading line,
   * up to the next heading.
   */
  lemma WellFormedAllFound(intro: string, titles: seq<string>, bodies: seq<string>)
    requires WellFormed(intro, titles, bodies)
    ensures forall k :: 0 <= k < |titles| ==>
      SplitDays(Join(WellFormedParts(intro, titles, bodies), Marker), |titles|)[k]
        == Some(Section(Heading(k + 1), Strip(bodies[k])))
  {
    var n := |titles|;
    var parts := WellFormedParts(intro, titles, bodies);
    var text := Join(parts, Marker);
    assert forall k :: 1 <= k < |parts| ==> parts[k] == DayPage(k, titles[k - 1], bodies[k - 1]);
    FragmentsUnique(text, parts);
    forall k | 0 <= k < n
      ensures SplitDays(text, n)[k] == Some(Section(Heading(k + 1), Strip(bodies[k])))
    {
      WellFormedDay(intro, titles, bodies, k + 1);
      FirstMatchWins(text, n, k + 1, k + 1);
    }
  }
}
