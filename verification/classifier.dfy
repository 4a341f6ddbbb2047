/**
 * `analyzeIntent`: an ordered, first-match-wins keyword rule table over the
 * lower-cased message, with slot extraction for the booking rule (doctor,
 * time, date) and the availability rule (specialty).
 */
module Classifier {
  import opened Wrappers
  import opened Text
  import opened Patterns
  import opened Roster

  /** The intent tag together with the details the rule extracted. */
  datatype Intent =
    | Book(doctor: Option<Doctor>, time: Option<string>, date: Option<string>)
    | CheckAvailability(specialty: Option<string>)
    | ListDoctors
    | ViewAppointments
    | General

  /** Trigger keywords of the four rules, in the order the rules are tried. */
  const BookTriggers: seq<string> := ["book", "schedule", "appointment"]
  const AvailabilityTriggers: seq<string> := ["available", "availability", "free"]
  const ListTriggers: seq<string> := ["list", "show me", "who are"]
  const ViewTriggers: seq<string> := ["my appointment", "my booking"]

  /** Some keyword of `keys` is a substring of `s`. */
  ghost predicate Mentions(s: string, keys: seq<string>) {
    exists k :: 0 <= k < |keys| && Occurs(s, keys[k])
  }

  /** `keys.some(k => s.includes(k))`, written as the chain of `||` in the source. */
  function ContainsAny(s: string, keys: seq<string>): (b: bool)
    ensures b <==> Mentions(s, keys)
  {
    if |keys| == 0 then false
    else
      assert forall k :: 1 <= k < |keys| ==> keys[k] == keys[1..][k - 1];
      Contains(s, keys[0]) || ContainsAny(s, keys[1..])
  }

  // ---------------------------------------------------------------------
  // Choosing a roster entry (`MOCK_DOCTORS.find`)
  // ---------------------------------------------------------------------

  /** The two `find` callbacks: the booking rule accepts name or specialty, the availability rule specialty only. */
  datatype Criterion = NameOrSpecialty | SpecialtyOnly

  predicate Fits(c: Criterion, lower: string, d: Doctor) {
    match c
    case NameOrSpecialty => Contains(lower, ToLower(d.name)) || Contains(lower, ToLower(d.specialty))
    case SpecialtyOnly => Contains(lower, ToLower(d.specialty))
  }

  /** `ds[k]` fits and no earlier entry does. */
  ghost predicate IsFirstFit(c: Criterion, lower: string, ds: seq<Doctor>, k: int) {
    0 <= k < |ds| && Fits(c, lower, ds[k]) && forall j :: 0 <= j < k ==> !Fits(c, lower, ds[j])
  }

  /** `o` is what `find` must return: the first fitting entry, or nothing when none fits. */
  ghost predicate IsFindResult(c: Criterion, lower: string, ds: seq<Doctor>, o: Option<Doctor>) {
    && (o.None? <==> forall k :: 0 <= k < |ds| ==> !Fits(c, lower, ds[k]))
    && (o.Some? ==> exists k :: IsFirstFit(c, lower, ds, k) && o.value == ds[k])
  }

  /** Index of the first entry at or after `from` that fits. */
  function FindFrom(c: Criterion, lower: string, ds: seq<Doctor>, from: nat): (r: Option<nat>)
    requires from <= |ds|
    ensures r.Some? ==> from <= r.value < |ds| && Fits(c, lower, ds[r.value])
    ensures forall k :: from <= k < |ds| && (r.None? || k < r.value) ==> !Fits(c, lower, ds[k])
    decreases |ds| - from
  {
    if from == |ds| then None
    else if Fits(c, lower, ds[from]) then Some(from)
    else FindFrom(c, lower, ds, from + 1)
  }

  /** `ds.find(...)` with the callback chosen by `c`. */
  function Find(c: Criterion, lower: string, ds: seq<Doctor>): (r: Option<Doctor>)
    ensures IsFindResult(c, lower, ds, r)
  {
    match FindFrom(c, lower, ds, 0)
    case Some(k) => assert IsFirstFit(c, lower, ds, k); Some(ds[k])
    case None => None
  }

  // ---------------------------------------------------------------------
  // Time and date slots
  // ---------------------------------------------------------------------

  /** `o` is what `s.match(p)?.[0] ?? null` yields: the leftmost match's text. */
  ghost predicate IsLeftmostText(p: Pattern, s: string, o: Option<string>) {
    && (o.None? <==> !HasMatch(p, s))
    && (o.Some? ==> exists i, j :: IsLeftmost(p, s, i, j) && o.value == s[i..j])
  }

  /** The time slot: the leftmost Clock match, or, only when there is none, the leftmost Hour match. */
  function TimeSlot(lower: string): (r: Option<string>)
    ensures HasMatch(Clock, lower) ==> IsLeftmostText(Clock, lower, r)
    ensures !HasMatch(Clock, lower) ==> IsLeftmostText(Hour, lower, r)
    ensures r.None? <==> !HasMatch(Clock, lower) && !HasMatch(Hour, lower)
    ensures r.Some? ==> Occurs(lower, r.value) && |r.value| > 0
  {
    match Search(Clock, lower)
    case Some(t) => Some(t)
    case None => Search(Hour, lower)
  }

  /** The date slot: the leftmost day word. */
  function DateSlot(lower: string): (r: Option<string>)
    ensures IsLeftmostText(DayWord, lower, r)
    ensures r.Some? ==> Occurs(lower, r.value) && |r.value| > 0
  {
    Search(DayWord, lower)
  }

  // ---------------------------------------------------------------------
  // The rule table
  // ---------------------------------------------------------------------

  /**
   * The rule table applied to an already lower-cased message and a roster:
   * the first rule whose trigger the message mentions decides the intent.
   */
  function Classify(lower: string, roster: seq<Doctor>): (r: Intent)
    ensures r.Book? <==> Mentions(lower, BookTriggers)
    ensures r.CheckAvailability? <==> !Mentions(lower, BookTriggers) && Mentions(lower, AvailabilityTriggers)
    ensures r.ListDoctors? <==>
      !Mentions(lower, BookTriggers) && !Mentions(lower, AvailabilityTriggers) && Mentions(lower, ListTriggers)
    ensures r.ViewAppointments? <==>
      !Mentions(lower, BookTriggers) && !Mentions(lower, AvailabilityTriggers)
      && !Mentions(lower, ListTriggers) && Mentions(lower, ViewTriggers)
    ensures r.General? <==>
      !Mentions(lower, BookTriggers) && !Mentions(lower, AvailabilityTriggers)
      && !Mentions(lower, ListTriggers) && !Mentions(lower, ViewTriggers)
    ensures r.Book? ==> IsFindResult(NameOrSpecialty, lower, roster, r.doctor)
    ensures r.Book? ==> r.time == TimeSlot(lower) && r.date == DateSlot(lower)
    ensures r.CheckAvailability? ==>
      (r.specialty.None? <==> forall k :: 0 <= k < |roster| ==> !Fits(SpecialtyOnly, lower, roster[k]))
    ensures r.CheckAvailability? && r.specialty.Some? ==>
      exists k :: IsFirstFit(SpecialtyOnly, lower, roster, k) && r.specialty.value == roster[k].specialty
  {
    if ContainsAny(lower, BookTriggers) then
      Book(Find(NameOrSpecialty, lower, roster), TimeSlot(lower), DateSlot(lower))
    else if ContainsAny(lower, AvailabilityTriggers) then
      var found := Find(SpecialtyOnly, lower, roster);
      CheckAvailability(if found.Some? then Some(found.value.specialty) else None)
    else if ContainsAny(lower, ListTriggers) then
      ListDoctors
    else if ContainsAny(lower, ViewTriggers) then
      ViewAppointments
    else
      General
  }

  /**
   * `analyzeIntent`: the rule table applied to the lower-cased message, with
   * `MOCK_DOCTORS` as the roster. The view-appointments rule never fires.
   */
  function AnalyzeIntent(message: string): (r: Intent)
    ensures r.Book? <==> Mentions(ToLower(message), BookTriggers)
    ensures r.CheckAvailability? <==>
      !Mentions(ToLower(message), BookTriggers) && Mentions(ToLower(message), AvailabilityTriggers)
    ensures r.ListDoctors? <==>
      !Mentions(ToLower(message), BookTriggers) && !Mentions(ToLower(message), AvailabilityTriggers)
      && Mentions(ToLower(message), ListTriggers)
    ensures r.General? <==>
      !Mentions(ToLower(message), BookTriggers) && !Mentions(ToLower(message), AvailabilityTriggers)
      && !Mentions(ToLower(message), ListTriggers)
    ensures !r.ViewAppointments?
  {
    ViewAppointmentsUnreachable(ToLower(message), MockDoctors);
    Classify(ToLower(message), MockDoctors)
  }

  /** No match of a time pattern starts at a non-digit. */
  lemma NoTimeMatchAt(p: Pattern, s: string, i: nat)
    requires p != DayWord && i < |s| && !IsDigit(s[i])
    ensures forall j :: i <= j <= |s| ==> !Matches(p, s[i..j])
  {
    forall j | i <= j <= |s| && Matches(p, s[i..j])
      ensures false
    {
      TimeMatchStartsWithDigit(p, s[i..j]);
    }
  }

  /** "2:30 pm" is taken whole, as a clock time. */
  lemma ClockTimeExample()
    ensures TimeSlot("at 2:30 pm") == Some("2:30 pm")
  {
    var s := "at 2:30 pm";
    var w := s[3..10];
    assert w == "2:30 pm";
    assert ClockShape(w, 1) by {
      assert w[..1] == "2" && w[2..4] == "30" && w[4..5] == " " && w[5..] == "pm";
    }
    NoTimeMatchAt(Clock, s, 0);
    NoTimeMatchAt(Clock, s, 1);
    NoTimeMatchAt(Clock, s, 2);
    assert IsLeftmost(Clock, s, 3, 10);
  }

  /**
   * Without the clock pattern tried first, the hour pattern would take the
   * minutes of "2:30 pm" for the hour.
   */
  lemma HourPatternAloneTakesMinutes()
    ensures Search(Hour, "at 2:30 pm") == Some("30 pm")
  {
    var s := "at 2:30 pm";
    var w := s[5..10];
    assert w == "30 pm";
    assert HourShape(w, 2) by {
      assert w[..2] == "30" && w[2..3] == " " && w[3..] == "pm";
    }
    NoTimeMatchAt(Hour, s, 0);
    NoTimeMatchAt(Hour, s, 1);
    NoTimeMatchAt(Hour, s, 2);
    NoTimeMatchAt(Hour, s, 4);
    NoHourMatchBeforeColon(s, 3);
    assert IsLeftmost(Hour, s, 5, 10);
  }

  /** With no clock time present, the bare hour "2 pm" is the time. */
  lemma HourTimeExample()
    ensures TimeSlot("at 2 pm") == Some("2 pm")
  {
    var s := "at 2 pm";
    forall i, j | 0 <= i <= j <= |s| && Matches(Clock, s[i..j])
      ensures false
    {
      ClockMatchHasColon(s[i..j]);
    }
    var w := s[3..7];
    assert w == "2 pm";
    assert HourShape(w, 1) by {
      assert w[..1] == "2" && w[1..2] == " " && w[2..] == "pm";
    }
    NoTimeMatchAt(Hour, s, 0);
    NoTimeMatchAt(Hour, s, 1);
    NoTimeMatchAt(Hour, s, 2);
    assert IsLeftmost(Hour, s, 3, 7);
  }

  /** Classification sees only the lower-cased message. */
  lemma LowerCaseDecides(m1: string, m2: string)
    requires ToLower(m1) == ToLower(m2)
    ensures AnalyzeIntent(m1) == AnalyzeIntent(m2)
  {
  }

  /** Lower-casing the message first changes nothing. */
  lemma AnalyzeLoweredMessage(message: string)
    ensures AnalyzeIntent(ToLower(message)) == AnalyzeIntent(message)
  {
    ToLowerIdempotent(message);
  }

  /**
   * The view-appointments rule never fires: each of its keywords contains a
   * booking keyword, so the booking rule, tried first, always wins.
   */
  lemma ViewAppointmentsUnreachable(lower: string, roster: seq<Doctor>)
    ensures !Classify(lower, roster).ViewAppointments?
  {
    if Mentions(lower, ViewTriggers) {
      var k :| 0 <= k < |ViewTriggers| && Occurs(lower, ViewTriggers[k]);
      if k == 0 {
        OccursInConcat("my ", "appointment", "");
        assert "my appointment" == "my " + "appointment" + "";
        OccursTransitive(lower, "my appointment", "appointment");
        assert Occurs(lower, BookTriggers[2]);
      } else {
        OccursInConcat("my ", "book", "ing");
        assert "my booking" == "my " + "book" + "ing";
        OccursTransitive(lower, "my booking", "book");
        assert Occurs(lower, BookTriggers[0]);
      }
    }
  }

  /**
   * A message that names a doctor does not necessarily book that doctor: a
   * booking message that mentions the specialty of roster entry `i` gets
   * entry `i` or an earlier one, whichever other doctor it also names.
   */
  lemma EarlierRosterEntryWins(lower: string, roster: seq<Doctor>, i: nat)
    requires i < |roster|
    requires Mentions(lower, BookTriggers)
    requires Occurs(lower, ToLower(roster[i].specialty))
    ensures Classify(lower, roster).Book?
    ensures exists k :: 0 <= k <= i && Classify(lower, roster).doctor == Some(roster[k])
  {
    var r := Classify(lower, roster);
    assert Fits(NameOrSpecialty, lower, roster[i]);
    var k :| IsFirstFit(NameOrSpecialty, lower, roster, k) && r.doctor.value == roster[k];
    assert k <= i;
    assert r.doctor == Some(roster[k]);
  }

  /** A specialty the availability rule extracts is the specialty of some roster doctor. */
  lemma ExtractedSpecialtyIsOnRoster(lower: string, roster: seq<Doctor>)
    requires !Mentions(lower, BookTriggers) && Mentions(lower, AvailabilityTriggers)
    ensures Classify(lower, roster).CheckAvailability?
    ensures Classify(lower, roster).specialty.Some? ==>
      exists k :: 0 <= k < |roster| && roster[k].specialty == Classify(lower, roster).specialty.value
  {
    var r := Classify(lower, roster);
    if r.specialty.Some? {
      var k :| IsFirstFit(SpecialtyOnly, lower, roster, k) && r.specialty.value == roster[k].specialty;
    }
  }

  /** No keyword list with non-empty keywords is mentioned by the empty string. */
  lemma EmptyMentionsNothing(keys: seq<string>)
    requires forall k :: 0 <= k < |keys| ==> |keys[k]| > 0
    ensures !Mentions("", keys)
  {
    forall k | 0 <= k < |keys|
      ensures !Occurs("", keys[k])
    {
      NothingOccursInEmpty(keys[k]);
    }
  }

  /** An empty message falls through every rule. */
  lemma EmptyMessageIsGeneral()
    ensures AnalyzeIntent("") == General
  {
    assert ToLower("") == "";
    EmptyMentionsNothing(BookTriggers);
    EmptyMentionsNothing(AvailabilityTriggers);
    EmptyMentionsNothing(ListTriggers);
    EmptyMentionsNothing(ViewTriggers);
  }
}
