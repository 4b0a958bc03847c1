# Trip planner day splitter

This project models the one piece of real logic in the trip planner page
(`app.py`): the code that turns the generated itinerary text into one section
per requested day. It also models the form guard that runs before generation.
When the "Generate Itinerary" button is pressed, the page works as follows:

- If the source, destination or preferences field is empty, it shows an error and does nothing else.
- Otherwise it strips the reply of the text-generation service and splits it at every `"Day "`.
- For each day `i` from 1 to the requested number of days, it takes the first fragment whose stripped text starts with the decimal numeral of `i`.
- When such a fragment exists and is not empty, the section for day `i` is shown under the heading `Day i`. The section body is the stripped text after the fragment's first line. Otherwise a "not found" notice is shown for day `i`.

The model is split into modules:

- `Text` covers the parts of Python's `str` that this code relies on: `strip()` over the full `str.isspace()` set, `startswith`, `split` and `join`. `Find` carries the search for the first newline inside `split("\n", 1)`. `Join` is used to state that a split loses nothing: joining the fragments gives back the text.
- `Decimal` covers the decimal numeral of a natural number and how it reads back.
- `Itinerary` holds the splitter as pure functions, with the lemmas about it.
- `Planner` holds the imperative side. The lookup `next(...)` and the per-day display loop are methods with loops, each proved against the `Itinerary` functions. `Generate` is one press of the button.
- `ItineraryExamples` works the splitter through on concrete texts.

Each day's result is `Option<Section>`:

- `None` stands for the "not found" notice.
- `Some(Section(heading, body))` stands for a day that was found.

Two behaviours of the splitter are easy to miss:

- The text before the first `"Day "` is kept as fragment 0 and searched like every other fragment (`LeadingFragmentKept`).
- A body drops everything up to and including the fragment's first newline, so the title line is not part of it (`BodyAfterHeadingLine`, `TwoDaysInOrder`). Only a fragment with no newline keeps its heading text (`BodyWithoutNewline`, `HeadingOnlyBody`).

## Model

| member | source | states |
|---|---|---|
| Text.Strip | app.py:95 | the result neither starts nor ends with whitespace, sits inside the input, and has only whitespace cut away on either side |
| Text.IsSpace | app.py:95 | the whitespace set of Python's `str.isspace()`: tab to carriage return, the information separators 0x1C to 0x1F, space, 0x85, no-break space and the Unicode space separators and line and paragraph separators (a definition; `Strip`'s contract and lemmas use it) |
| Text.StripUnique | app.py:95 | any infix with no whitespace at its edges and only whitespace around it is the stripped text, so `Strip`'s contract determines its result |
| Text.StripIdempotent | app.py:108 | stripping twice gives the same text as stripping once |
| Text.StripNoEdgeSpace | app.py:108 | text with no whitespace at its edges is left unchanged by stripping |
| Text.StripKeepsPrefix | app.py:106 | a prefix that neither starts nor ends with whitespace is still a prefix after stripping |
| Text.Find | app.py:108 | the result is the first occurrence of the separator, and there is none exactly when the separator does not occur |
| Text.Split | app.py:103 | at least one fragment, no fragment contains the separator, and joining the fragments with the separator gives back the text |
| Text.SplitFragmentIn | app.py:103 | every fragment of a split is a contiguous piece of the text |
| Decimal.DecimalString | app.py:106 | the numeral is non-empty and all digits, has no leading zero, and is one character long exactly for 0 to 9 |
| Decimal.ParseDecimalString | app.py:106 | reading the numeral of `n` back gives `n` |
| Decimal.DecimalStringDistinct | app.py:106 | different numbers have different numerals |
| Decimal.DecimalPrefixOfLonger | app.py:106 | the numeral of `n >= 1` is a prefix of the numeral of `10 * n + d` |
| Decimal.DecimalLengthMonotone | app.py:106 | a larger number never has a shorter numeral |
| Itinerary.Fragments | app.py:103 | the reply split at every `"Day "`; `Split`'s contract gives that the fragments are marker-free and rejoin to the reply, and `FragmentsUnique` that they are the only such cut |
| Itinerary.Matches | app.py:106 | the search condition, the stripped fragment starting with the day's numeral (a definition; `MatchedFragmentNonEmpty`, `LongerNumeralMatchesShorter`, `CollisionNeedsTwoDigits` and `NoCollisionBelowTen` state its consequences) |
| Itinerary.FirstWhere | app.py:106 | the index of the earliest fragment passing the test, or `None` exactly when no fragment passes it |
| Itinerary.FirstMatch | app.py:106 | the index of the earliest fragment whose stripped text starts with the day's numeral, or `None` exactly when there is none |
| Itinerary.AfterFirstLine | app.py:108 | the text kept after the heading line is a piece of the fragment, and is the whole fragment when it has no newline |
| Itinerary.AfterFirstNewline | app.py:108 | when the first newline is at position `k`, the kept text is everything after position `k` |
| Itinerary.Body | app.py:108 | the body has no whitespace at either end and is a piece of its fragment |
| Itinerary.Heading | app.py:109-110 | the rebuilt heading `Day i` (a definition; `HeadingNamesDay` states its meaning) |
| Itinerary.HeadingNamesDay | app.py:109-110 | the heading is the marker followed by digits only, and those digits read back as the day |
| Itinerary.DayEntry | app.py:106-112 | one day's entry (a definition; `SplitDaysAt` places it in the result, `DayFoundIff` says when it is found and `FirstMatchWins` what it holds) |
| Itinerary.ForEachDay | app.py:105 | exactly one value per day, with day `i`'s value at position `i - 1` |
| Itinerary.SplitDays | app.py:103-112 | exactly one entry per requested day |
| Itinerary.SplitDaysAt | app.py:105-112 | entry `i - 1` is the entry of day `i`, so the days come in ascending order |
| Itinerary.SplitDaysSnoc | app.py:105 | asking for one more day appends that day's entry and leaves the earlier entries unchanged |
| Itinerary.MatchedFragmentNonEmpty | app.py:107 | a fragment that matches a day is never empty, so the truthiness test never turns a match into "not found" |
| Itinerary.DayFoundIff | app.py:106-112 | day `i` is found if and only if some fragment, the leading one included, starts with the numeral of `i` once stripped |
| Itinerary.FirstMatchWins | app.py:106-110 | the section of day `i` is the body of the earliest matching fragment, under the heading `Day i` |
| Itinerary.SectionShape | app.py:108-110 | every found section has heading `Day i`, and its body has no edge whitespace and is a piece of the output |
| Itinerary.EmptyOutputAllAbsent | app.py:103-112 | an empty reply leaves every day not found |
| Itinerary.DayIndependentOfCount | app.py:105-106 | the entry of day `i` does not depend on how many days were requested |
| Itinerary.LongerNumeralMatchesShorter | app.py:106 | a fragment that matches day `10 * n + d` also matches day `n`, which is the prefix collision |
| Itinerary.NoCollisionBelowTen | app.py:106 | among days 0 to 9 a fragment matches at most one day |
| Itinerary.CollisionNeedsTwoDigits | app.py:106 | when one fragment matches two different days, the day with the numeral at least as long is 10 or more |
| Itinerary.EarlierTeenTakesDayOne | app.py:106-110 | when a "Day 1x" fragment comes before every fragment matching day 1, day 1 shows that fragment's body |
| Itinerary.MarkerOccurrencesApart | app.py:103 | two occurrences of `"Day "` never overlap |
| Itinerary.FragmentsUnique | app.py:103 | splitting is the only way to cut the text into marker-free pieces that rejoin to it |
| Itinerary.LeadingFragmentKept | app.py:103 | fragment 0 is the text before the first marker, and it is kept |
| Itinerary.BodyAfterHeadingLine | app.py:108 | the body of `heading + "\n" + rest` is `rest` stripped, when the heading has no newline |
| Itinerary.BodyWithoutNewline | app.py:108 | a fragment without a newline is its own body once stripped, heading text included |
| Itinerary.EarlierPageMissesLaterDay | app.py:106 | the page `"j: title..."` of an earlier day never matches a later day, even past day 9 |
| Itinerary.WellFormedDay | app.py:106-108 | in a well-formed itinerary, day `i`'s page is the first fragment matching `i`, and its body is `i`'s stripped body text |
| Itinerary.WellFormedAllFound | app.py:103-110 | an itinerary with an introduction and then pages for days 1 to n in order gives every day its own stripped body |
| Planner.FindFirst | app.py:106 | the scan that stops at the first passing fragment returns `FirstWhere` |
| Planner.FindDay | app.py:106 | the lookup for one day returns `FirstMatch` |
| Planner.EntryFor | app.py:106-112 | one round of the display loop produces that day's entry |
| Planner.ShowDays | app.py:103-112 | the display loop produces exactly the entries `SplitDays` specifies |
| Planner.FormComplete | app.py:67 | the guard passes exactly when source, destination and preferences are all non-empty (a definition; `Generate`'s contract uses it) |
| Planner.Generate | app.py:66-112 | the error is reported exactly when a field is empty; otherwise the result is the per-day split of the stripped reply |
| ItineraryExamples.TwoDaysInOrder | app.py:103-112 | a reply with an introduction and days 1 and 2 in order gives both days, with the title lines dropped from the bodies |
| ItineraryExamples.MissingDaysAbsent | app.py:111-112 | when three days are requested and only day 1 appears, days 2 and 3 are not found |
| ItineraryExamples.TeenTakesDayOne | app.py:106 | with "Day 10" written before "Day 1", day 1 shows the body written under "Day 10" |
| ItineraryExamples.TeenKeepsDayTen | app.py:106 | in the same text, day 10 still shows its own body |
| ItineraryExamples.HeadingOnlyBody | app.py:108 | a day with no newline after its heading shows the heading text `1: Rest day` as its body |

## Left out

- Streamlit page setup, styling, sidebar widgets, the spinner and the success, warning and error widgets are display only. The model returns one `Option<Section>` per day instead of rendering it.
- The emoji and bold markdown around the rebuilt heading are display only. The model keeps the plain heading `Day i`.
- The Lottie animation download is network I/O and is not modelled.
- The text-generation client, its configuration and the `generate_content` call are a foreign library and network call. Their reply text is the `reply` parameter of `Planner.Generate`.
- The prompt text is plain string interpolation. The reply is unconstrained, so the prompt adds nothing the model could use.
- The catch-all `except` is not modelled, because nothing inside the model raises.
- Planner.Generate: accepts any natural number of days. The slider's bounds of 1 to 30 are a widget setting that the splitter does not check.
- Characters are Dafny `char` values, treated as Unicode code points. `strip()` removes the code points for which Python's `str.isspace()` holds. Other Unicode handling, such as normalisation or surrogates, is not modelled.
