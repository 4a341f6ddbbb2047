# Chat booking assistant: intent rules and replies

A Dafny model of the chat endpoint of a single-page doctor booking assistant
(`app/api/chat/route.ts`). The endpoint takes a free-text message and the
caller's appointment list. It classifies the message with an ordered keyword
rule table (`analyzeIntent`) and renders a canned reply (`generateResponse`).
Exactly one case of the reply also tells the caller to add an appointment
(`action = 'book_appointment'` with an `appointmentData` payload).

Layout, one module per concept:

- `wrappers.dfy` — `Option`, standing for `undefined` / `null`.
- `text.dfy` — ASCII `toLowerCase` / `toUpperCase`, and `includes`.
  `includes` is an executable leftmost search, proved equal to "is a
  substring". Also `join`, decimal rendering of counts, and the
  capitalise-first-letter idiom.
- `patterns.dfy` — the three regular expressions of the booking rule. Each is
  given twice: as the set of strings it matches, and as an executable matcher
  anchored at one position that follows the regex engine's backtracking order.
  The two are proved to agree. Also the leftmost search that `match` (without
  `g`) performs.
- `roster.dfy` — `Doctor`, `Appointment` and the constant `MOCK_DOCTORS`
  roster.
- `classifier.dfy` — the `Intent` datatype (tag plus per-tag details) and the
  rule table. `Classify` takes the lower-cased message and a roster.
  `AnalyzeIntent` applies it to `MOCK_DOCTORS`.
- `responder.dfy` — `GenerateResponse` and the reply templates. Also the
  lemmas that connect the classifier to the responder.

Facts the proofs establish about the rules as written:

- The view-appointments rule can never fire. Both of its keywords
  ("my appointment", "my booking") contain a booking keyword, and the booking
  rule is tried first (`Classifier.ViewAppointmentsUnreachable`).
- Naming a doctor does not guarantee booking that doctor. The roster is
  searched in order for a name OR a specialty, so a booking message that
  mentions the specialty of entry `i` books entry `i` or an earlier one
  (`Classifier.EarlierRosterEntryWins`). With `i = 0`, a message that names
  Dr. Michael Chen and also mentions "general physician" books
  Dr. Sarah Johnson.
- The booking confirmation reply prints the date as extracted ("monday").
  The payload carries it capitalised ("Monday").

JavaScript truthiness is modelled where the source relies on it.
`details.time`, `details.date` and `details.specialty` are `Option<string>`.
`Some("")` counts as absent, as an empty string is falsy in `a && b` and `a || b`.

## Model

| member | source | states |
|---|---|---|
| `Roster.SpecialtiesDistinct` | app/api/chat/route.ts:11-16 | no two roster doctors share a specialty |
| `Text.ToLower` | app/api/chat/route.ts:19 | lower-casing keeps the length, maps each character independently, and leaves no upper-case ASCII letter |
| `Text.ToLowerIdempotent` | app/api/chat/route.ts:19 | lower-casing an already lower-cased message changes nothing |
| `Text.IndexFrom` | app/api/chat/route.ts:22 | the search returns the leftmost index at which the keyword occurs, or none when it occurs nowhere |
| `Text.Contains` | app/api/chat/route.ts:22 | `includes` is true exactly when the keyword is a substring of the message |
| `Text.OccursTransitive` | app/api/chat/route.ts:57 | a substring of a substring is a substring |
| `Classifier.ContainsAny` | app/api/chat/route.ts:44 | a chain of `includes` tests joined by `||` is true exactly when some keyword of the list is a substring |
| `Classifier.FindFrom` | app/api/chat/route.ts:23-26 | the roster scan stops at the first entry that fits, and every entry before it does not fit |
| `Classifier.Find` | app/api/chat/route.ts:45-47 | `find` returns the lowest-index roster entry that fits, and returns none exactly when no entry fits |
| `Patterns.SkipSpaces` | app/api/chat/route.ts:28 | greedy `\s*` stops at the first character that is not JavaScript whitespace |
| `Patterns.ClockAt` | app/api/chat/route.ts:28 | anchored at a position, the clock pattern (one or two digits, colon, two digits, spaces, am or pm; two digits tried first) ends exactly where the one string of that language starting there ends |
| `Patterns.HourAt` | app/api/chat/route.ts:29 | the same for the hour pattern (one or two digits, spaces, am or pm) |
| `Patterns.DayWordAt` | app/api/chat/route.ts:31 | the same for the nine-word day alternation, tried left to right |
| `Patterns.DayWordAtUnique` | app/api/chat/route.ts:31 | at most one day word fits at any position, so the order of the alternatives does not matter |
| `Patterns.MatchAtStartIsUnique` | app/api/chat/route.ts:28-31 | two matches of one pattern starting at the same index are the same match |
| `Patterns.FirstMatchFrom` | app/api/chat/route.ts:28-31 | the scan returns the first start position that has a match, and no match starts before it |
| `Patterns.Search` | app/api/chat/route.ts:28-31 | `match(...)[0]` is the leftmost match's text, is absent iff the pattern matches nowhere, and is a substring of the message |
| `Patterns.NoHourMatchBeforeColon` | app/api/chat/route.ts:29 | no hour match starts at a digit followed by a colon |
| `Classifier.TimeSlot` | app/api/chat/route.ts:28-29 | the time is the leftmost clock match, or the leftmost hour match only when no clock match exists; it is absent iff neither matches, and otherwise a non-empty substring of the message |
| `Classifier.DateSlot` | app/api/chat/route.ts:31 | the date is the leftmost day word, absent iff none occurs, and otherwise a non-empty substring of the message |
| `Classifier.ClockTimeExample` | app/api/chat/route.ts:28 | in "at 2:30 pm" the time is "2:30 pm" |
| `Classifier.HourPatternAloneTakesMinutes` | app/api/chat/route.ts:29 | the hour pattern alone would pick "30 pm" out of "at 2:30 pm", which is why the clock pattern goes first |
| `Classifier.HourTimeExample` | app/api/chat/route.ts:29 | in "at 2 pm" the time is "2 pm" |
| `Classifier.Classify` | app/api/chat/route.ts:18-62 | rules in order, first match wins: book iff a booking keyword occurs; availability iff none of those but an availability keyword; and so on; general iff no keyword of any rule occurs. For book, the doctor is the first roster entry whose lower-cased name or specialty occurs, and the time and date are the slots. For availability, the specialty is that of the first roster entry whose lower-cased specialty occurs, or none |
| `Classifier.LowerCaseDecides` | app/api/chat/route.ts:18-19 | two messages that lower-case alike get the same intent and details |
| `Classifier.AnalyzeLoweredMessage` | app/api/chat/route.ts:19 | classifying the lower-cased message gives the same result as classifying the message |
| `Classifier.AnalyzeIntent` | app/api/chat/route.ts:18-62 | with the message lower-cased and `MOCK_DOCTORS` as the roster: book iff a booking keyword occurs; availability iff none of those but an availability keyword; list iff neither of those but a list keyword; general iff none of the three; view-appointments never |
| `Classifier.ViewAppointmentsUnreachable` | app/api/chat/route.ts:22-58 | for any lower-cased message and any roster, the rule table never yields view-appointments |
| `Classifier.EarlierRosterEntryWins` | app/api/chat/route.ts:22-26 | a lower-cased message with a booking keyword that mentions the specialty of roster entry `i` is a booking for entry `i` or an earlier entry, whatever other doctor it names |
| `Classifier.ExtractedSpecialtyIsOnRoster` | app/api/chat/route.ts:44-48 | a lower-cased message with an availability keyword and no booking keyword is an availability request, and any specialty it extracts is some roster doctor's specialty |
| `Classifier.EmptyMessageIsGeneral` | app/api/chat/route.ts:61 | the empty message falls through to the general intent |
| `Text.Capitalize` | app/api/chat/route.ts:75 | capitalising keeps the length and the tail and upper-cases only the first character |
| `Text.CapitalizeKeepsLetters` | app/api/chat/route.ts:75 | capitalising changes case only |
| `Text.Join` | app/api/chat/route.ts:81 | `join` of an empty list is empty; otherwise the result is as long as the elements together plus one separator between each pair of neighbours |
| `Text.JoinedElementAt` | app/api/chat/route.ts:81 | element `i` of a joined list occurs in the result at its offset: after the joined first `i` elements and one separator |
| `Text.JoinKeepsOrder` | app/api/chat/route.ts:114-116 | joined elements appear in list order without overlapping |
| `Text.NatToString` | app/api/chat/route.ts:102 | `${n}` for a count is a non-empty string of decimal digits with no leading zero |
| `Text.NatToStringRoundTrip` | app/api/chat/route.ts:114 | the rendered count reads back as the number |
| `Responder.GenerateResponse` | app/api/chat/route.ts:64-124 | the action and the payload are present together, and present iff the intent is book with a doctor and a non-empty time. The payload copies the doctor's name and specialty and the time, and carries the date capitalised or "Tomorrow". General gets the help menu. An empty appointment list gets the fixed no-appointments reply |
| `Responder.BookingActionIffDoctorAndTime` | app/api/chat/route.ts:67-78 | for any message, the booking action is emitted iff it is classified book with a doctor and a time. The payload's time is a substring of the lower-cased message, and its date is the capitalised day word, or "Tomorrow" |
| `Responder.BookingDateExamples` | app/api/chat/route.ts:68-75 | no date gives "Tomorrow", and "monday" gives "Monday" |
| `Responder.BookingWithoutTimeOffersSlots` | app/api/chat/route.ts:79-82 | a booking with a doctor but no time emits no action and offers every slot of that doctor |
| `Responder.BookingWithoutDoctorListsRoster` | app/api/chat/route.ts:83-86 | a booking with no doctor lists every roster doctor in roster order |
| `Responder.FilterBySpecialty` | app/api/chat/route.ts:90-92 | the filter keeps exactly the doctors with that specialty |
| `Responder.AvailableDoctors` | app/api/chat/route.ts:90-92 | with a non-empty specialty, the listed doctors are exactly the roster doctors with that specialty; with none or the empty string, the whole roster |
| `Responder.FilterKeepsOrder` | app/api/chat/route.ts:91 | filtering distributes over concatenation, so the kept doctors stay in roster order |
| `Responder.FilterSingle` | app/api/chat/route.ts:91 | when one doctor alone has the specialty, the filter yields just that doctor |
| `Responder.RosterFilterBySpecialty` | app/api/chat/route.ts:90-92 | filtering the roster by one of its specialties yields the one doctor who has it |
| `Responder.ClassifiedAvailabilityLists` | app/api/chat/route.ts:90-92 | for a lower-cased message the rules route to availability, the listed doctors are the whole roster (no specialty) or exactly one roster doctor, never none |
| `Responder.AvailabilityShowsDoctor` | app/api/chat/route.ts:94-98 | every filtered-in doctor's name and slot line appears in the reply |
| `Responder.AvailabilityListedInOrder` | app/api/chat/route.ts:95-97 | the filtered-in doctors appear in roster order |
| `Responder.DirectoryListedInOrder` | app/api/chat/route.ts:100-105 | the directory reply shows every roster doctor in roster order |
| `Responder.AppointmentCountOpensReply` | app/api/chat/route.ts:113-114 | with appointments on file the reply opens with their count |
| `Responder.AppointmentLineShowsFields` | app/api/chat/route.ts:115 | an appointment's entry shows its date, time, doctor name, specialty and status |
| `Responder.AppointmentShownInReply` | app/api/chat/route.ts:113-116 | every appointment's date, time, doctor name, specialty and status appear in the reply |
| `Responder.AppointmentsListedInOrder` | app/api/chat/route.ts:114-116 | the appointments' entries appear in the caller's order, one after another |
| `Responder.EmptyMessageGetsHelpMenu` | app/api/chat/route.ts:119-122 | the empty message gets the fixed help menu and no action |

## Left out

- The `POST` handler (app/api/chat/route.ts:126-141) is HTTP plumbing: JSON parsing, the `appointments || []` default, and the try/catch that turns a fault into status 500 and an apology. The modelled functions are total, so no fault path exists in the model.
- `app/page.tsx` (the React client, its copy of the roster, and its appointment synthesis from `Date.now()`) is UI glue and is not part of this model.
- Text.ToLower: lower-cases ASCII letters only. JavaScript's `toLowerCase` also maps non-ASCII letters, and a few of them land on ASCII: U+212A KELVIN SIGN becomes `k`, and U+0130 becomes `i` followed by U+0307. A message such as "boo\u212A" is therefore lower-cased to "book" and booked by the source, while the model leaves it unchanged and classifies it as general. Every other non-ASCII letter lower-cases to a non-ASCII letter, which no keyword, name or pattern contains.
- Text.Capitalize: upper-cases an ASCII first letter only, for the same reason. Strings are modelled as sequences of Unicode scalar values, not UTF-16 code units, so `charAt(0)` on a surrogate pair is not modelled.
- Ratings are floating-point numbers in the source (4.8, …). The model keeps them as the text the templates print ("4.8") and proves nothing about them.
- Reply templates are reproduced exactly, but only structural facts about them are proved: which lines appear, in what order, and whether an action is present.
- `generateResponse` receives its intent as a string, and an unknown string falls to the help menu. The model's `Intent` is a closed datatype, so every non-listed tag is the `General` case.
- The view-appointments replies are modelled and proved, although the classifier can never produce that intent.
