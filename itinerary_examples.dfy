/**
 * Worked examples of the day splitter on concrete generated texts.
 */
module ItineraryExamples {
  import opened Wrappers
  import opened Text
  import opened Decimal
  import opened Itinerary

  lemma JoinTwo(a: string, b: string, sep: string)
    ensures Join([a, b], sep) == a + sep + b
  {
    assert [a, b][1..] == [b];
  }

  lemma JoinThree(a: string, b: string, c: string, sep: string)
    ensures Join([a, b, c], sep) == a + sep + b + sep + c
  {
    assert [a, b, c][1..] == [b, c];
    JoinTwo(b, c, sep);
  }

  lemma SeqOfOne<T>(r: seq<T>, a: T)
    requires |r| == 1 && r[0] == a
    ensures r == [a]
  {
  }

  lemma SeqOfTwo<T>(r: seq<T>, a: T, b: T)
    requires |r| == 2 && r[0] == a && r[1] == b
    ensures r == [a, b]
  {
  }

  lemma SeqOfThree<T>(r: seq<T>, a: T, b: T, c: T)
    requires |r| == 3 && r[0] == a && r[1] == b && r[2] == c
    ensures r == [a, b, c]
  {
  }

  lemma HeadingsOneTwo()
    ensures Heading(1) == "Day 1" && Heading(2) == "Day 2"
  {
    assert DecimalString(1) == "1" && DecimalString(2) == "2";
  }

  /** Two headings in order, after an introduction. */
  const Intro: string := "intro text "
  const ArrivalDay: string := "1: Arrival" + "\n" + "Visit the fort.\n"
  const DepartureDay: string := "2: Departure" + "\n" + "Catch the train."
  const TwoDayText: string := Intro + Marker + ArrivalDay + Marker + DepartureDay

  lemma TwoDayFragments()
    ensures Fragments(TwoDayText) == [Intro, ArrivalDay, DepartureDay]
  {
    NoMarkerWithoutDa(Intro);
    NoMarkerWithoutDa(ArrivalDay);
    NoMarkerWithoutDa(DepartureDay);
    JoinThree(Intro, ArrivalDay, DepartureDay, Marker);
    FragmentsUnique(TwoDayText, [Intro, ArrivalDay, DepartureDay]);
  }

  lemma IntroNeverMatches(day: nat)
    requires 1 <= day < 10
    ensures !Matches(Intro, day)
  {
    MatchesOneDigit(Intro, day);
  }

  lemma ArrivalDayMatchesOne()
    ensures Matches(ArrivalDay, 1)
  {
    MatchesOneDigit(ArrivalDay, 1);
  }

  lemma ArrivalDayMissesTwo()
    ensures !Matches(ArrivalDay, 2)
  {
    MatchesOneDigit(ArrivalDay, 2);
  }

  lemma StripTrailingNewline()
    ensures Strip("Visit the fort.\n") == "Visit the fort."
  {
    StripUnique("Visit the fort.\n", "Visit the fort.", 0);
  }

  lemma ArrivalDayBody()
    ensures Body(ArrivalDay) == "Visit the fort."
  {
    CharNotIn("1: Arrival", '\n');
    BodyAfterHeadingLine("1: Arrival", "Visit the fort.\n");
    StripTrailingNewline();
  }

  lemma DepartureDayMatchesTwo()
    ensures Matches(DepartureDay, 2)
  {
    MatchesOneDigit(DepartureDay, 2);
  }

  lemma DepartureDayBody()
    ensures Body(DepartureDay) == "Catch the train."
  {
    CharNotIn("2: Departure", '\n');
    assert Strip("Catch the train.") == "Catch the train." by {
      StripNoEdgeSpace("Catch the train.");
    }
    BodyAfterHeadingLine("2: Departure", "Catch the train.");
  }

  /**
   * The body of each day leaves out the title on its heading line, and the
   * introduction before the first heading is searched but matches no day.
   */
  lemma TwoDaysInOrder()
    ensures SplitDays(TwoDayText, 2)
         == [Some(Section("Day 1", "Visit the fort.")), Some(Section("Day 2", "Catch the train."))]
  {
    TwoDayFirst();
    TwoDaySecond();
    HeadingsOneTwo();
    SeqOfTwo(SplitDays(TwoDayText, 2),
      Some(Section("Day 1", "Visit the fort.")), Some(Section("Day 2", "Catch the train.")));
  }

  lemma TwoDayFirst()
    ensures SplitDays(TwoDayText, 2)[0] == Some(Section(Heading(1), "Visit the fort."))
  {
    TwoDayFragments();
    TwoDayLeading();
    ArrivalDayMatchesOne();
    ArrivalDayBody();
    FirstMatchWins(TwoDayText, 2, 1, 1);
  }

  lemma TwoDayLeading()
    ensures |Fragments(TwoDayText)| == 3
    ensures forall l :: 0 <= l < 1 ==> !Matches(Fragments(TwoDayText)[l], 1)
  {
    TwoDayFragments();
    IntroNeverMatches(1);
  }

  lemma TwoDaySecond()
    ensures SplitDays(TwoDayText, 2)[1] == Some(Section(Heading(2), "Catch the train."))
  {
    TwoDayBeforeSecond();
    TwoDayFragments();
    DepartureDayMatchesTwo();
    DepartureDayBody();
    FirstMatchWins(TwoDayText, 2, 2, 2);
  }

  lemma TwoDayBeforeSecond()
    ensures |Fragments(TwoDayText)| == 3
    ensures forall l :: 0 <= l < 2 ==> !Matches(Fragments(TwoDayText)[l], 2)
  {
    TwoDayFragments();
    IntroNeverMatches(2);
    ArrivalDayMissesTwo();
  }

  /** No text before "Day 1": the leading fragment is empty and matches no day. */
  lemma EmptyNeverMatches(day: nat)
    ensures !Matches("", day)
  {
    assert Strip("") == "";
  }

  /** A single heading while three days were asked for. */
  const OnlyDay: string := "1: Only day." + "\n" + "Enjoy."
  const OneDayText: string := "" + Marker + OnlyDay

  lemma OneDayFragments()
    ensures Fragments(OneDayText) == ["", OnlyDay]
  {
    NoMarkerWithoutDa("");
    NoMarkerWithoutDa(OnlyDay);
    JoinTwo("", OnlyDay, Marker);
    FragmentsUnique(OneDayText, ["", OnlyDay]);
  }

  lemma OnlyDayMatches(day: nat)
    requires 1 <= day < 10
    ensures Matches(OnlyDay, day) <==> day == 1
  {
    MatchesOneDigit(OnlyDay, day);
  }

  lemma OnlyDayBody()
    ensures Body(OnlyDay) == "Enjoy."
  {
    CharNotIn("1: Only day.", '\n');
    assert Strip("Enjoy.") == "Enjoy." by {
      StripNoEdgeSpace("Enjoy.");
    }
    BodyAfterHeadingLine("1: Only day.", "Enjoy.");
  }

  /** Days with no heading of their own come out as "not found". */
  lemma MissingDaysAbsent()
    ensures SplitDays(OneDayText, 3) == [Some(Section("Day 1", "Enjoy.")), None, None]
  {
    OneDayFirst();
    OneDayLaterAbsent(2);
    OneDayLaterAbsent(3);
    HeadingsOneTwo();
    SeqOfThree(SplitDays(OneDayText, 3), Some(Section("Day 1", "Enjoy.")), None, None);
  }

  lemma OneDayFirst()
    ensures SplitDays(OneDayText, 3)[0] == Some(Section(Heading(1), "Enjoy."))
  {
    OneDayFragments();
    OneDayLeading();
    OnlyDayMatches(1);
    OnlyDayBody();
    FirstMatchWins(OneDayText, 3, 1, 1);
  }

  lemma OneDayLeading()
    ensures |Fragments(OneDayText)| == 2
    ensures forall l :: 0 <= l < 1 ==> !Matches(Fragments(OneDayText)[l], 1)
  {
    OneDayFragments();
    EmptyNeverMatches(1);
  }

  lemma OneDayLaterAbsent(i: nat)
    requires 2 <= i <= 3
    ensures SplitDays(OneDayText, 3)[i - 1] == None
  {
    var f := Fragments(OneDayText);
    OneDayFragments();
    EmptyNeverMatches(i);
    OnlyDayMatches(i);
    assert forall j :: 0 <= j < |f| ==> !Matches(f[j], i);
    DayFoundIff(OneDayText, 3, i);
  }

  /** "Day 10" written before "Day 1". */
  const TenthDay: string := "10: Fort" + "\n" + "See the fort.\n"
  const FirstDay: string := "1: Lake" + "\n" + "See the lake."
  const TeenFirstText: string := "" + Marker + TenthDay + Marker + FirstDay

  lemma TeenFirstFragments()
    ensures Fragments(TeenFirstText) == ["", TenthDay, FirstDay]
  {
    NoMarkerWithoutDa("");
    NoMarkerWithoutDa(TenthDay);
    NoMarkerWithoutDa(FirstDay);
    JoinThree("", TenthDay, FirstDay, Marker);
    FragmentsUnique(TeenFirstText, ["", TenthDay, FirstDay]);
  }

  lemma TenthDayMatchesTen()
    ensures Matches(TenthDay, 10)
  {
    assert DecimalString(10) == "10";
    StripKeepsPrefix(TenthDay, "10");
  }

  /** The fragment under "Day 10" also starts with "1". */
  lemma TenthDayMatchesOne()
    ensures Matches(TenthDay, 1)
  {
    assert DecimalString(1) == "1";
    StripKeepsPrefix(TenthDay, "1");
  }

  lemma TenthDayBody()
    ensures Body(TenthDay) == "See the fort."
  {
    CharNotIn("10: Fort", '\n');
    assert Strip("See the fort.\n") == "See the fort." by {
      StripUnique("See the fort.\n", "See the fort.", 0);
    }
    BodyAfterHeadingLine("10: Fort", "See the fort.\n");
  }

  lemma HeadingTen()
    ensures Heading(10) == "Day 10"
  {
    assert DecimalString(10) == "10";
  }

  /**
   * The prefix collision at work: with ten days asked for, day 1 shows the
   * body written under "Day 10", and the text under "Day 1" is never shown.
   */
  lemma TeenTakesDayOne()
    ensures SplitDays(TeenFirstText, 10)[0] == Some(Section(Heading(1), "See the fort."))
  {
    TeenFirstFragments();
    TenthDayMatchesOne();
    TenthDayBody();
    TeenFirstLeading(1);
    FirstMatchWins(TeenFirstText, 10, 1, 1);
  }

  /** Day 10 itself still gets the text written under "Day 10" (its heading is "Day 10", by `HeadingTen`). */
  lemma TeenKeepsDayTen()
    ensures SplitDays(TeenFirstText, 10)[9] == Some(Section(Heading(10), "See the fort."))
  {
    TeenFirstFragments();
    TenthDayMatchesTen();
    TenthDayBody();
    TeenFirstLeading(10);
    FirstMatchWins(TeenFirstText, 10, 10, 1);
  }

  /** The empty text before the first heading matches no day. */
  lemma TeenFirstLeading(day: nat)
    ensures |Fragments(TeenFirstText)| == 3
    ensures forall l :: 0 <= l < 1 ==> !Matches(Fragments(TeenFirstText)[l], day)
  {
    TeenFirstFragments();
    EmptyNeverMatches(day);
  }

  /** A heading with nothing after it on a further line. */
  const RestDay: string := "1: Rest day"
  const NoNewlineText: string := "" + Marker + RestDay

  lemma NoNewlineFragments()
    ensures Fragments(NoNewlineText) == ["", RestDay]
  {
    NoMarkerWithoutDa("");
    NoMarkerWithoutDa(RestDay);
    JoinTwo("", RestDay, Marker);
    FragmentsUnique(NoNewlineText, ["", RestDay]);
  }

  lemma RestDayMatches()
    ensures Matches(RestDay, 1)
  {
    MatchesOneDigit(RestDay, 1);
  }

  lemma RestDayNoNewline()
    ensures !Contains(RestDay, "\n")
  {
    CharNotIn(RestDay, '\n');
  }

  lemma RestDayStripped()
    ensures Strip(RestDay) == RestDay
  {
    StripNoEdgeSpace(RestDay);
  }

  lemma RestDayBody()
    ensures Body(RestDay) == RestDay
  {
    RestDayNoNewline();
    BodyWithoutNewline(RestDay);
    RestDayStripped();
  }

  /** Without a newline the body is the whole fragment, numeral and title included. */
  lemma HeadingOnlyBody()
    ensures SplitDays(NoNewlineText, 1) == [Some(Section("Day 1", "1: Rest day"))]
  {
    NoNewlineFirst();
    HeadingsOneTwo();
    SeqOfOne(SplitDays(NoNewlineText, 1), Some(Section("Day 1", "1: Rest day")));
  }

  lemma NoNewlineFirst()
    ensures SplitDays(NoNewlineText, 1)[0] == Some(Section(Heading(1), RestDay))
  {
    NoNewlineFragments();
    NoNewlineLeading();
    RestDayMatches();
    RestDayBody();
    FirstMatchWins(NoNewlineText, 1, 1, 1);
  }

  lemma NoNewlineLeading()
    ensures |Fragments(NoNewlineText)| == 2
    ensures forall l :: 0 <= l < 1 ==> !Matches(Fragments(NoNewlineText)[l], 1)
  {
    NoNewlineFragments();
    EmptyNeverMatches(1);
  }
}
