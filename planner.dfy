/**
 * The "Generate Itinerary" action of the trip planner page (app.py:66-112):
 * the guard on the form fields, the trimming of the generated text and the
 * loop that emits one entry per requested day. The call to the generation
 * service is outside the model; its reply text is a parameter.
 */
module Planner {
  import opened Wrappers
  import opened Text
  import opened Itinerary

  /** What one press of the button leads to: the "complete all the fields" error, or one entry per day. */
  datatype Outcome = Incomplete | Generated(sections: seq<Option<Section>>)

  /** The guard on the three text fields: a string is truthy when it is not empty. */
  predicate FormComplete(source: string, destination: string, preferences: string) {
    source != "" && destination != "" && preferences != ""
  }

  /**
   * The generator expression under `next(..., None)`: scan the fragments in
   * order and stop at the first one whose stripped text starts with the day's numeral.
   */
  method FindDay(fragments: seq<string>, day: nat) returns (found: Option<nat>)
    ensures found == FirstMatch(fragments, day)
  {
    found := FindFirst(fragments, DayTest(day));
  }

  /** Python's `next` over a filtering generator, with `None` as default: the index of the first fragment that passes `test`. */
  method FindFirst(fragments: seq<string>, test: string -> bool) returns (found: Option<nat>)
    ensures found == FirstWhere(fragments, test, 0)
  {
    var j := 0;
    while j < |fragments|
      invariant j <= |fragments|
      invariant forall l :: 0 <= l < j ==> !test(fragments[l])
    {
      if test(fragments[j]) {
        FirstWhereAt(fragments, test, j);
        return Some(j);
      }
      j := j + 1;
    }
    FirstWhereAt(fragments, test, j);
    return None;
  }

  /**
   * The body of the display loop for day `day`: the fragment `next` yields,
   * tested for truthiness, becomes the section under the rebuilt heading.
   */
  method EntryFor(fragments: seq<string>, day: nat) returns (entry: Option<Section>)
    ensures entry == DayEntry(fragments, day)
  {
    var found := FindDay(fragments, day);
    entry := None;
    if found.Some? && fragments[found.value] != "" {
      var content := Body(fragments[found.value]);
      entry := Some(Section(Heading(day), content));
    }
  }

  /**
   * The display loop `for i in range(1, days + 1)`: one entry per day, in
   * order, each either the section found for it or the "not found" notice.
   */
  method ShowDays(output: string, days: nat) returns (entries: seq<Option<Section>>)
    ensures entries == SplitDays(output, days)
  {
    var fragments := Split(output, Marker);
    entries := [];
    var i := 1;
    while i <= days
      invariant 1 <= i <= days + 1
      invariant entries == SplitDays(output, i - 1)
    {
      var entry := EntryFor(fragments, i);
      SplitDaysSnoc(output, i - 1);
      entries := entries + [entry];
      i := i + 1;
    }
  }

  /**
   * One press of "Generate Itinerary": an incomplete form is reported and
   * nothing else happens; otherwise the reply is stripped and split into days.
   */
  method Generate(source: string, destination: string, days: nat, preferences: string, reply: string)
    returns (outcome: Outcome)
    ensures outcome.Incomplete? <==> !FormComplete(source, destination, preferences)
    ensures outcome.Generated? ==> outcome.sections == SplitDays(Strip(reply), days)
  {
    if !FormComplete(source, destination, preferences) {
      return Incomplete;
    }
    var output := Strip(reply);
    var sections := ShowDays(output, days);
    return Generated(sections);
  }
}
