/** The records the store holds: users, time slots and bookings. */
module Records {
  import opened Wrappers

  datatype Role = Patient | Admin

  /** An account: `id` and `email` identify it, `role` decides what it may cancel. */
  datatype User = User(id: string, email: string, name: string, role: Role)

  /** A bookable hour. `patientId` and `patientName` are set while the slot is taken. */
  datatype Slot = Slot(
    id: string,
    date: string,
    time: string,
    available: bool,
    patientId: Option<string>,
    patientName: Option<string>)

  datatype Status = Confirmed | Cancelled

  /** A reservation; patient and slot fields are copies taken when it was made. */
  datatype Booking = Booking(
    id: string,
    slotId: string,
    patientId: string,
    patientName: string,
    patientEmail: string,
    date: string,
    time: string,
    status: Status,
    createdAt: string)
}
