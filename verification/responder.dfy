/**
 * `generateResponse`: a case split on the intent that renders the reply and,
 * on exactly one branch, asks the caller to add an appointment.
 */
module Responder {
  import opened Wrappers
  import opened Text
  import opened Roster
  import opened Classifier

  /** The structured payload of the `book_appointment` action. */
  datatype AppointmentData = AppointmentData(doctorName: string, specialty: string, date: string, time: string)

  /** The only action the endpoint emits. */
  datatype Action = BookAppointment

  /** The JSON body `{reply, action?, appointmentData?}`. */
  datatype Response = Response(reply: string, action: Option<Action>, appointmentData: Option<AppointmentData>)

  /** JavaScript truthiness of an optional string: present and not empty. */
  predicate IsTruthy(o: Option<string>) {
    o.Some? && o.value != ""
  }

  /** `details.date || 'Tomorrow'`. */
  function DateOrTomorrow(date: Option<string>): string {
    if IsTruthy(date) then date.value else "Tomorrow"
  }

  const HelpMenu: string :=
    "I can help you with:\n\U{2022} Booking doctor appointments\n\U{2022} Checking doctor availability\n"
    + "\U{2022} Viewing your scheduled appointments\n\U{2022} Finding specialists\n\nWhat would you like to do?"

  const NoAppointmentsReply: string :=
    "You don't have any appointments scheduled yet. Would you like to book one?"

  // ---------------------------------------------------------------------
  // One line per listed doctor or appointment
  // ---------------------------------------------------------------------

  /** A roster entry in the "which doctor" booking reply. */
  function RosterLine(d: Doctor): string {
    "\U{2022} " + d.name + " - " + d.specialty + " (Rating: " + d.rating + ")"
  }

  /** A doctor and the doctor's open slots, in the availability reply. */
  function AvailabilityLine(d: Doctor): string {
    d.name + ": " + Join(d.availability, ", ")
  }

  /** A roster entry in the doctor directory reply. */
  function DirectoryLine(d: Doctor): string {
    "\U{2022} " + d.name + " - " + d.specialty + "\n  Rating: " + d.rating + "/5 | "
    + NatToString(|d.availability|) + " slots available"
  }

  /** One of the caller's appointments in the appointment-list reply. */
  function AppointmentLine(a: Appointment): string {
    "\U{2022} " + a.date + " at " + a.time + "\n  " + a.doctorName + " - " + a.specialty + "\n  Status: " + a.status
  }

  /** The opening of the appointment-list reply: the number of appointments. */
  function AppointmentsHeader(count: nat): string {
    "You have " + NatToString(count) + " appointment(s):\n\n"
  }

  function RosterLines(ds: seq<Doctor>): (r: seq<string>)
    ensures |r| == |ds| && forall i :: 0 <= i < |ds| ==> r[i] == RosterLine(ds[i])
  {
    seq(|ds|, i requires 0 <= i < |ds| => RosterLine(ds[i]))
  }

  function AvailabilityLines(ds: seq<Doctor>): (r: seq<string>)
    ensures |r| == |ds| && forall i :: 0 <= i < |ds| ==> r[i] == AvailabilityLine(ds[i])
  {
    seq(|ds|, i requires 0 <= i < |ds| => AvailabilityLine(ds[i]))
  }

  function DirectoryLines(ds: seq<Doctor>): (r: seq<string>)
    ensures |r| == |ds| && forall i :: 0 <= i < |ds| ==> r[i] == DirectoryLine(ds[i])
  {
    seq(|ds|, i requires 0 <= i < |ds| => DirectoryLine(ds[i]))
  }

  function AppointmentLines(apps: seq<Appointment>): (r: seq<string>)
    ensures |r| == |apps| && forall i :: 0 <= i < |apps| ==> r[i] == AppointmentLine(apps[i])
  {
    seq(|apps|, i requires 0 <= i < |apps| => AppointmentLine(apps[i]))
  }

  // ---------------------------------------------------------------------
  // Filtering the roster by specialty
  // ---------------------------------------------------------------------

  /** `ds.filter(d => d.specialty === specialty)`. */
  function FilterBySpecialty(ds: seq<Doctor>, specialty: string): (r: seq<Doctor>)
    ensures |r| <= |ds|
    ensures forall d :: d in r <==> d in ds && d.specialty == specialty
  {
    if |ds| == 0 then []
    else (if ds[0].specialty == specialty then [ds[0]] else []) + FilterBySpecialty(ds[1..], specialty)
  }

  /** Filtering a concatenation filters each part and keeps them in order. */
  lemma {:induction false} FilterKeepsOrder(xs: seq<Doctor>, ys: seq<Doctor>, specialty: string)
    ensures FilterBySpecialty(xs + ys, specialty) == FilterBySpecialty(xs, specialty) + FilterBySpecialty(ys, specialty)
    decreases |xs|
  {
    if |xs| > 0 {
      assert (xs + ys)[1..] == xs[1..] + ys;
      FilterKeepsOrder(xs[1..], ys, specialty);
    } else {
      assert xs + ys == ys;
    }
  }

  /** When only `ds[k]` has the specialty, filtering yields exactly that doctor. */
  lemma {:induction false} FilterSingle(ds: seq<Doctor>, k: nat)
    requires k < |ds|
    requires forall j :: 0 <= j < |ds| && ds[j].specialty == ds[k].specialty ==> j == k
    ensures FilterBySpecialty(ds, ds[k].specialty) == [ds[k]]
  {
    var sp := ds[k].specialty;
    assert ds == ds[..k] + [ds[k]] + ds[k + 1..];
    FilterKeepsOrder(ds[..k] + [ds[k]], ds[k + 1..], sp);
    FilterKeepsOrder(ds[..k], [ds[k]], sp);
    assert FilterBySpecialty([ds[k]], sp) == [ds[k]] by {
      assert [ds[k]][1..] == [];
    }
    FilterNone(ds[..k], sp);
    FilterNone(ds[k + 1..], sp);
  }

  /** Filtering keeps nothing when no doctor has the specialty. */
  lemma {:induction false} FilterNone(ds: seq<Doctor>, specialty: string)
    requires forall j :: 0 <= j < |ds| ==> ds[j].specialty != specialty
    ensures FilterBySpecialty(ds, specialty) == []
  {
    if |ds| > 0 {
      FilterNone(ds[1..], specialty);
    }
  }

  /**
   * The doctors the availability reply lists for `specialty`: the roster
   * doctors with exactly that specialty when one was given (a non-empty
   * string), otherwise the whole roster.
   */
  function AvailableDoctors(specialty: Option<string>): (r: seq<Doctor>)
    ensures IsTruthy(specialty) ==>
      forall d :: d in r <==> d in MockDoctors && d.specialty == specialty.value
    ensures !IsTruthy(specialty) ==> r == MockDoctors
  {
    if IsTruthy(specialty) then FilterBySpecialty(MockDoctors, specialty.value) else MockDoctors
  }

  // ---------------------------------------------------------------------
  // The responder
  // ---------------------------------------------------------------------

  /** `generateResponse`: the reply, and the booking action on a complete booking request. */
  function GenerateResponse(intent: Intent, appointments: seq<Appointment>): (r: Response)
    ensures r.action.Some? <==> intent.Book? && intent.doctor.Some? && IsTruthy(intent.time)
    ensures r.appointmentData.Some? <==> r.action.Some?
    ensures r.appointmentData.Some? ==>
      && r.appointmentData.value.doctorName == intent.doctor.value.name
      && r.appointmentData.value.specialty == intent.doctor.value.specialty
      && r.appointmentData.value.time == intent.time.value
      && r.appointmentData.value.date == (if IsTruthy(intent.date) then Capitalize(intent.date.value) else "Tomorrow")
    ensures intent.General? ==> r.reply == HelpMenu
    ensures intent.ViewAppointments? && |appointments| == 0 ==> r.reply == NoAppointmentsReply
  {
    match intent
    case Book(doctor, time, date) =>
      if doctor.Some? && IsTruthy(time) then
        var d := doctor.value;
        var day := DateOrTomorrow(date);
        Response(
          "Perfect! I'm booking an appointment with " + d.name + " (" + d.specialty + ") for " + day
          + " at " + time.value + ". You'll receive a confirmation shortly.",
          Some(BookAppointment),
          Some(AppointmentData(d.name, d.specialty, Capitalize(day), time.value)))
      else if doctor.Some? then
        Response(
          "I can help you book with " + doctor.value.name + ". They have availability at: "
          + Join(doctor.value.availability, ", ") + ". Which time works best for you?",
          None, None)
      else
        Response(
          "I can help you book an appointment. Here are our available doctors:\n\n"
          + Join(RosterLines(MockDoctors), "\n") + "\n\nWhich doctor would you like to see?",
          None, None)
    case CheckAvailability(specialty) =>
      Response(
        "Here's the availability for " + (if IsTruthy(specialty) then specialty.value else "all doctors") + ":\n\n"
        + Join(AvailabilityLines(AvailableDoctors(specialty)), "\n\n") + "\n\nWould you like to book an appointment?",
        None, None)
    case ListDoctors =>
      Response(
        "We have " + NatToString(|MockDoctors|) + " excellent doctors available:\n\n"
        + Join(DirectoryLines(MockDoctors), "\n\n") + "\n\nWho would you like to book with?",
        None, None)
    case ViewAppointments =>
      if |appointments| == 0 then
        Response(NoAppointmentsReply, None, None)
      else
        Response(
          AppointmentsHeader(|appointments|) + Join(AppointmentLines(appointments), "\n\n"),
          None, None)
    case General =>
      Response(HelpMenu, None, None)
  }

  // ---------------------------------------------------------------------
  // What the replies list, and in which order
  // ---------------------------------------------------------------------

  /** Line `i` of a joined list sits at a known offset inside a reply that embeds the list. */
  lemma ListedAt(head: string, lines: seq<string>, sep: string, tail: string, i: nat)
    requires i < |lines|
    ensures OccursAt(head + Join(lines, sep) + tail, lines[i], |head| + JoinOffset(lines, sep, i))
  {
    JoinedElementAt(lines, sep, i);
    OccursShift(head, Join(lines, sep), tail, lines[i], JoinOffset(lines, sep, i));
  }

  /** In a reply that embeds a joined list, line `i` comes before line `j` whenever `i < j`. */
  lemma ListedInOrder(head: string, lines: seq<string>, sep: string, tail: string, i: nat, j: nat)
    requires i < j < |lines|
    ensures exists p, q ::
      && OccursAt(head + Join(lines, sep) + tail, lines[i], p)
      && OccursAt(head + Join(lines, sep) + tail, lines[j], q)
      && p + |lines[i]| <= q
  {
    ListedAt(head, lines, sep, tail, i);
    ListedAt(head, lines, sep, tail, j);
    JoinKeepsOrder(lines, sep, i, j);
  }

  /** Each field of a line assembled as `b + f1 + q1 + f2 + q2 + f3 + q3 + f4 + q4 + f5` occurs in it. */
  lemma FieldsOccur(b: string, f1: string, q1: string, f2: string, q2: string, f3: string, q3: string,
                    f4: string, q4: string, f5: string)
    ensures var line := b + f1 + q1 + f2 + q2 + f3 + q3 + f4 + q4 + f5;
      Occurs(line, f1) && Occurs(line, f2) && Occurs(line, f3) && Occurs(line, f4) && Occurs(line, f5)
  {
    OccursAtEnd(b, f1);
    OccursExtend(b + f1, q1, f1);
    OccursExtend(b + f1 + q1, f2, f1);
    OccursAtEnd(b + f1 + q1, f2);
    OccursExtend(b + f1 + q1 + f2, q2, f1);
    OccursExtend(b + f1 + q1 + f2, q2, f2);
    OccursExtend(b + f1 + q1 + f2 + q2, f3, f1);
    OccursExtend(b + f1 + q1 + f2 + q2, f3, f2);
    OccursAtEnd(b + f1 + q1 + f2 + q2, f3);
    OccursExtend(b + f1 + q1 + f2 + q2 + f3, q3, f1);
    OccursExtend(b + f1 + q1 + f2 + q2 + f3, q3, f2);
    OccursExtend(b + f1 + q1 + f2 + q2 + f3, q3, f3);
    OccursExtend(b + f1 + q1 + f2 + q2 + f3 + q3, f4, f1);
    OccursExtend(b + f1 + q1 + f2 + q2 + f3 + q3, f4, f2);
    OccursExtend(b + f1 + q1 + f2 + q2 + f3 + q3, f4, f3);
    OccursAtEnd(b + f1 + q1 + f2 + q2 + f3 + q3, f4);
    OccursExtend(b + f1 + q1 + f2 + q2 + f3 + q3 + f4, q4, f1);
    OccursExtend(b + f1 + q1 + f2 + q2 + f3 + q3 + f4, q4, f2);
    OccursExtend(b + f1 + q1 + f2 + q2 + f3 + q3 + f4, q4, f3);
    OccursExtend(b + f1 + q1 + f2 + q2 + f3 + q3 + f4, q4, f4);
    OccursExtend(b + f1 + q1 + f2 + q2 + f3 + q3 + f4 + q4, f5, f1);
    OccursExtend(b + f1 + q1 + f2 + q2 + f3 + q3 + f4 + q4, f5, f2);
    OccursExtend(b + f1 + q1 + f2 + q2 + f3 + q3 + f4 + q4, f5, f3);
    OccursExtend(b + f1 + q1 + f2 + q2 + f3 + q3 + f4 + q4, f5, f4);
    OccursAtEnd(b + f1 + q1 + f2 + q2 + f3 + q3 + f4 + q4, f5);
  }

  /** An appointment's entry shows its date, time, doctor, specialty and status. */
  lemma AppointmentLineShowsFields(a: Appointment)
    ensures var line := AppointmentLine(a);
      Occurs(line, a.date) && Occurs(line, a.time) && Occurs(line, a.doctorName)
      && Occurs(line, a.specialty) && Occurs(line, a.status)
  {
    FieldsOccur("\U{2022} ", a.date, " at ", a.time, "\n  ", a.doctorName, " - ", a.specialty, "\n  Status: ", a.status);
  }

  /**
   * With appointments on file the reply opens with their count and lists
   * every appointment, each with all its fields, in the caller's order.
   */
  lemma AppointmentsListedInOrder(apps: seq<Appointment>, i: nat, j: nat)
    requires i < j < |apps|
    ensures var reply := GenerateResponse(ViewAppointments, apps).reply;
      exists p, q ::
        && OccursAt(reply, AppointmentLine(apps[i]), p)
        && OccursAt(reply, AppointmentLine(apps[j]), q)
        && p + |AppointmentLine(apps[i])| <= q
  {
    var head := AppointmentsHeader(|apps|);
    var lines := AppointmentLines(apps);
    assert GenerateResponse(ViewAppointments, apps).reply == head + Join(lines, "\n\n") + "";
    ListedInOrder(head, lines, "\n\n", "", i, j);
  }

  /** With appointments on file the reply opens with their count. */
  lemma AppointmentCountOpensReply(apps: seq<Appointment>)
    requires |apps| > 0
    ensures OccursAt(GenerateResponse(ViewAppointments, apps).reply, AppointmentsHeader(|apps|), 0)
  {
    var head := AppointmentsHeader(|apps|);
    var body := Join(AppointmentLines(apps), "\n\n");
    assert GenerateResponse(ViewAppointments, apps).reply == head + body;
    OccursAtStart(head, body);
  }

  /** Every appointment's date, time, doctor, specialty and status appear in the reply. */
  lemma AppointmentShownInReply(apps: seq<Appointment>, i: nat)
    requires i < |apps|
    ensures var reply := GenerateResponse(ViewAppointments, apps).reply;
      && Occurs(reply, apps[i].date) && Occurs(reply, apps[i].time) && Occurs(reply, apps[i].doctorName)
      && Occurs(reply, apps[i].specialty) && Occurs(reply, apps[i].status)
  {
    var reply := GenerateResponse(ViewAppointments, apps).reply;
    var head := AppointmentsHeader(|apps|);
    var lines := AppointmentLines(apps);
    assert reply == head + Join(lines, "\n\n") + "";
    ListedAt(head, lines, "\n\n", "", i);
    var line := AppointmentLine(apps[i]);
    assert Occurs(reply, line);
    AppointmentLineShowsFields(apps[i]);
    OccursTransitive(reply, line, apps[i].date);
    OccursTransitive(reply, line, apps[i].time);
    OccursTransitive(reply, line, apps[i].doctorName);
    OccursTransitive(reply, line, apps[i].specialty);
    OccursTransitive(reply, line, apps[i].status);
  }

  /** The availability reply shows every doctor it filtered in, in roster order. */
  lemma AvailabilityListedInOrder(specialty: Option<string>, apps: seq<Appointment>, i: nat, j: nat)
    requires i < j < |AvailableDoctors(specialty)|
    ensures var reply := GenerateResponse(CheckAvailability(specialty), apps).reply;
      var ds := AvailableDoctors(specialty);
      exists p, q ::
        && OccursAt(reply, AvailabilityLine(ds[i]), p)
        && OccursAt(reply, AvailabilityLine(ds[j]), q)
        && p + |AvailabilityLine(ds[i])| <= q
  {
    var head := "Here's the availability for " + (if IsTruthy(specialty) then specialty.value else "all doctors") + ":\n\n";
    var lines := AvailabilityLines(AvailableDoctors(specialty));
    ListedInOrder(head, lines, "\n\n", "\n\nWould you like to book an appointment?", i, j);
  }

  /** Every doctor the availability reply filtered in is shown with the doctor's slots. */
  lemma AvailabilityShowsDoctor(specialty: Option<string>, apps: seq<Appointment>, i: nat)
    requires i < |AvailableDoctors(specialty)|
    ensures Occurs(GenerateResponse(CheckAvailability(specialty), apps).reply, AvailabilityLine(AvailableDoctors(specialty)[i]))
  {
    var head := "Here's the availability for " + (if IsTruthy(specialty) then specialty.value else "all doctors") + ":\n\n";
    var lines := AvailabilityLines(AvailableDoctors(specialty));
    ListedAt(head, lines, "\n\n", "\n\nWould you like to book an appointment?", i);
  }

  /** Filtering the roster by one of its specialties yields exactly the doctor who has it. */
  lemma RosterFilterBySpecialty(k: nat)
    requires k < |MockDoctors|
    ensures AvailableDoctors(Some(MockDoctors[k].specialty)) == [MockDoctors[k]]
  {
    assert |MockDoctors[k].specialty| > 0;
    forall j | 0 <= j < |MockDoctors| && MockDoctors[j].specialty == MockDoctors[k].specialty
      ensures j == k
    {
      SpecialtiesDistinct(j, k);
    }
    FilterSingle(MockDoctors, k);
  }

  /**
   * For a message the classifier routes to the availability rule, the listed
   * doctors are the whole roster when no specialty was named, and otherwise
   * exactly the one roster doctor with that specialty.
   */
  lemma ClassifiedAvailabilityLists(lower: string)
    requires !Mentions(lower, BookTriggers) && Mentions(lower, AvailabilityTriggers)
    ensures Classify(lower, MockDoctors).CheckAvailability?
    ensures var sp := Classify(lower, MockDoctors).specialty;
      && (sp.None? ==> AvailableDoctors(sp) == MockDoctors)
      && (sp.Some? ==> exists k :: 0 <= k < |MockDoctors| && MockDoctors[k].specialty == sp.value
                                   && AvailableDoctors(sp) == [MockDoctors[k]])
  {
    ExtractedSpecialtyIsOnRoster(lower, MockDoctors);
    var sp := Classify(lower, MockDoctors).specialty;
    if sp.Some? {
      var k :| 0 <= k < |MockDoctors| && MockDoctors[k].specialty == sp.value;
      RosterFilterBySpecialty(k);
    }
  }

  /** The doctor directory reply shows all roster doctors, in roster order. */
  lemma DirectoryListedInOrder(apps: seq<Appointment>, i: nat, j: nat)
    requires i < j < |MockDoctors|
    ensures var reply := GenerateResponse(ListDoctors, apps).reply;
      exists p, q ::
        && OccursAt(reply, DirectoryLine(MockDoctors[i]), p)
        && OccursAt(reply, DirectoryLine(MockDoctors[j]), q)
        && p + |DirectoryLine(MockDoctors[i])| <= q
  {
    var head := "We have " + NatToString(|MockDoctors|) + " excellent doctors available:\n\n";
    ListedInOrder(head, DirectoryLines(MockDoctors), "\n\n", "\n\nWho would you like to book with?", i, j);
  }

  /** Without a matched doctor, the booking reply lists every roster doctor, in roster order. */
  lemma BookingWithoutDoctorListsRoster(time: Option<string>, date: Option<string>, apps: seq<Appointment>, i: nat, j: nat)
    requires i < j < |MockDoctors|
    ensures var reply := GenerateResponse(Book(None, time, date), apps).reply;
      exists p, q ::
        && OccursAt(reply, RosterLine(MockDoctors[i]), p)
        && OccursAt(reply, RosterLine(MockDoctors[j]), q)
        && p + |RosterLine(MockDoctors[i])| <= q
  {
    var head := "I can help you book an appointment. Here are our available doctors:\n\n";
    ListedInOrder(head, RosterLines(MockDoctors), "\n", "\n\nWhich doctor would you like to see?", i, j);
  }

  /** With a doctor but no time, the booking reply offers each of that doctor's slots. */
  lemma BookingWithoutTimeOffersSlots(d: Doctor, time: Option<string>, date: Option<string>, apps: seq<Appointment>, i: nat)
    requires !IsTruthy(time) && i < |d.availability|
    ensures var r := GenerateResponse(Book(Some(d), time, date), apps);
      r.action.None? && Occurs(r.reply, d.availability[i])
  {
    var head := "I can help you book with " + d.name + ". They have availability at: ";
    ListedAt(head, d.availability, ", ", ". Which time works best for you?", i);
  }

  // ---------------------------------------------------------------------
  // Classifier and responder together
  // ---------------------------------------------------------------------

  /**
   * For any message, the booking action is emitted exactly when the message
   * is a booking request in which both a doctor and a time were found; the
   * payload then carries that doctor, the extracted time, and the extracted
   * day word capitalised (or "Tomorrow").
   */
  lemma BookingActionIffDoctorAndTime(message: string, apps: seq<Appointment>)
    ensures var intent := AnalyzeIntent(message);
      var r := GenerateResponse(intent, apps);
      && (r.action.Some? <==> intent.Book? && intent.doctor.Some? && intent.time.Some?)
      && (r.action.Some? ==>
            var lower := ToLower(message);
            var date := DateSlot(lower);
            && r.appointmentData.value.time == intent.time.value
            && Occurs(lower, r.appointmentData.value.time)
            && r.appointmentData.value.date == (if date.Some? then Capitalize(date.value) else "Tomorrow"))
  {
    var lower := ToLower(message);
    var _ := TimeSlot(lower);
    var _ := DateSlot(lower);
  }

  /** An empty message gets the help menu and no action. */
  lemma EmptyMessageGetsHelpMenu(apps: seq<Appointment>)
    ensures GenerateResponse(AnalyzeIntent(""), apps) == Response(HelpMenu, None, None)
  {
    EmptyMessageIsGeneral();
  }

  /** The booking payload's date: a day word capitalised, or "Tomorrow" when none was given. */
  lemma BookingDateExamples(d: Doctor)
    ensures GenerateResponse(Book(Some(d), Some("3:00 PM"), None), []).appointmentData
         == Some(AppointmentData(d.name, d.specialty, "Tomorrow", "3:00 PM"))
    ensures GenerateResponse(Book(Some(d), Some("3:00 PM"), Some("monday")), []).appointmentData.value.date == "Monday"
  {
    assert Capitalize("monday") == [UpperChar('m')] + "onday";
  }
}
