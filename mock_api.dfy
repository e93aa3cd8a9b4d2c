/** `MockAPI`: the in-memory store and its operations, updating its three collections in place.

    Each mutating method is proved to perform the transition of the same name in `Ledger`,
    and to keep `Valid()` whenever that transition keeps `Consistent`. */
module MockApi {
  import opened Wrappers
  import opened Records
  import opened Calendar
  import opened Session
  import opened Ledger

  class MockAPI {
    var users: seq<User>
    var slots: seq<Slot>
    var bookings: seq<Booking>

    /** The three collections as one value. */
    function State(): Store
      reads this
    {
      Store(users, slots, bookings)
    }

    /** Slots agree with the ledger, and no two accounts share an email. */
    ghost predicate Valid()
      reads this
    {
      Consistent(State()) && UniqueEmails(users)
    }

    /** `constructor` and `initializeData` for an empty local store: the default admin, the
        generated calendar, no bookings. `days` is the window the calendar code computes. */
    constructor (days: seq<CalendarDay>)
      requires |days| == WindowDays
      ensures users == [DefaultAdmin] && slots == WindowSlots(days) && bookings == []
      ensures WellFormedWindow(days) ==> Valid()
    {
      users := [DefaultAdmin];
      var generated := GenerateSlots(days);
      slots := generated;
      bookings := [];
      new;
      if WellFormedWindow(days) {
        InitialStoreConsistent(days);
      }
    }

    /** `generateAvailableSlots`: replaces the slot list by a freshly generated calendar. */
    method GenerateAvailableSlots(days: seq<CalendarDay>)
      requires |days| == WindowDays
      modifies this
      ensures slots == WindowSlots(days) && users == old(users) && bookings == old(bookings)
    {
      var generated := GenerateSlots(days);
      slots := generated;
    }

    /** `login`. Changes nothing; throws where `btoa` cannot encode the account. */
    method Login(email: string, password: string, now: nat) returns (r: Result<AuthSession, LoginError>)
      ensures r == Ledger.Login(State(), email, password, now)
    {
      var k := UserByEmail(users, email);
      if k.None? || password == [] {
        return Err(InvalidCredentials);
      }
      var user := users[k.value];
      var token := GenerateToken(user, now);
      if token.None? {
        return Err(LoginThrows);
      }
      r := Ok(AuthSession(token.value, user));
    }

    /** `register`: the account is saved before the token is generated, so a call that
        throws in `btoa` still leaves it saved. */
    method Register(name: string, email: string, password: string, role: Role, now: nat)
      returns (r: Result<AuthSession, RegisterError>)
      modifies this
      ensures State() == Ledger.Register(old(State()), name, email, password, role, now).0
      ensures r == Ledger.Register(old(State()), name, email, password, role, now).1
      ensures old(Valid()) ==> Valid()
    {
      if UniqueEmails(users) {
        RegisterKeepsEmailsUnique(State(), name, email, password, role, now);
      }
      if UserByEmail(users, email).Some? {
        return Err(EmailExists);
      }
      if name == [] || email == [] || password == [] {
        return Err(MissingFields);
      }
      var user := User(UserIdAt(now), email, name, role);
      users := users + [user];
      var token := GenerateToken(user, now);
      if token.None? {
        return Err(RegisterThrows);
      }
      r := Ok(AuthSession(token.value, user));
    }

    /** `getSlots`. */
    function GetSlots(): seq<Slot>
      reads this
    {
      AvailableSlots(slots)
    }

    /** `getMyBookings`. */
    function GetMyBookings(patientId: string): seq<Booking>
      reads this
    {
      MyBookings(bookings, patientId)
    }

    /** `getAllBookings`. */
    function GetAllBookings(): seq<Booking>
      reads this
    {
      AllBookings(bookings)
    }

    /** `bookSlot`: takes the slot and appends a confirmed booking, or reports why not. */
    method BookSlot(slotId: string, patientId: string, now: nat, createdAt: string)
      returns (r: Result<Booking, BookError>)
      modifies this
      ensures State() == Book(old(State()), slotId, patientId, now, createdAt).0
      ensures r == Book(old(State()), slotId, patientId, now, createdAt).1
      ensures old(Valid()) ==> Valid()
    {
      if Consistent(State()) {
        BookPreservesConsistency(State(), slotId, patientId, now, createdAt);
      }
      var si := SlotById(slots, slotId);
      var pi := UserById(users, patientId);
      if si.None? || pi.None? {
        return Err(SlotOrPatientNotFound);
      }
      var slot, patient := slots[si.value], users[pi.value];
      if !slot.available {
        return Err(SlotUnavailable);
      }
      slots := slots[si.value := Taken(slot, patient)];
      var booking := Booking(BookingIdAt(now), slot.id, patient.id, patient.name, patient.email,
                             slot.date, slot.time, Confirmed, createdAt);
      bookings := bookings + [booking];
      r := Ok(booking);
    }

    /** `cancelBooking`: marks the booking cancelled and reopens its slot. Validity is kept only
        when the booking found is still confirmed; the operation itself does not check that. */
    method CancelBooking(bookingId: string, userId: string) returns (r: Outcome<CancelError>)
      modifies this
      ensures State() == Cancel(old(State()), bookingId, userId).0
      ensures r == Cancel(old(State()), bookingId, userId).1
      ensures old(Valid()) && (BookingById(old(bookings), bookingId).Some? ==>
                               old(bookings)[BookingById(old(bookings), bookingId).value].status == Confirmed)
              ==> Valid()
    {
      if Consistent(State()) && (BookingById(bookings, bookingId).Some? ==>
                                 bookings[BookingById(bookings, bookingId).value].status == Confirmed) {
        CancelConfirmedPreservesConsistency(State(), bookingId, userId);
      }
      var bi := BookingById(bookings, bookingId);
      if bi.None? {
        return Fail(BookingNotFound);
      }
      var booking := bookings[bi.value];
      var ui := UserById(users, userId);
      if ui.None? || (users[ui.value].role == Patient && booking.patientId != userId) {
        return Fail(Unauthorized);
      }
      bookings := bookings[bi.value := booking.(status := Cancelled)];
      var si := SlotById(slots, booking.slotId);
      if si.Some? {
        slots := slots[si.value := Reopened(slots[si.value])];
      }
      r := Pass;
    }
  }
}
