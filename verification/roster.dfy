/** The entities the chat endpoint works with and its fixed doctor roster. */
module Roster {

  /** A doctor; `rating` is kept in the form the reply templates print it. */
  datatype Doctor = Doctor(
    id: string,
    name: string,
    specialty: string,
    availability: seq<string>,
    rating: string)

  /** An appointment as the caller sends it back in its appointment list. */
  datatype Appointment = Appointment(
    id: string,
    doctorName: string,
    specialty: string,
    date: string,
    time: string,
    status: string)

  /** `MOCK_DOCTORS`: the constant four-doctor roster, in declaration order. */
  const MockDoctors: seq<Doctor> := [
    Doctor("1", "Dr. Sarah Johnson", "General Physician", ["9:00 AM", "11:00 AM", "2:00 PM", "4:00 PM"], "4.8"),
    Doctor("2", "Dr. Michael Chen", "Cardiologist", ["10:00 AM", "1:00 PM", "3:00 PM"], "4.9"),
    Doctor("3", "Dr. Emily Rodriguez", "Dermatologist", ["9:30 AM", "11:30 AM", "2:30 PM", "4:30 PM"], "4.7"),
    Doctor("4", "Dr. James Wilson", "Pediatrician", ["8:00 AM", "10:00 AM", "1:00 PM", "3:00 PM"], "4.9")
  ]

  /** No two roster doctors share a specialty. */
  lemma SpecialtiesDistinct(k1: nat, k2: nat)
    requires k1 < |MockDoctors| && k2 < |MockDoctors|
    requires MockDoctors[k1].specialty == MockDoctors[k2].specialty
    ensures k1 == k2
  {
  }
}
