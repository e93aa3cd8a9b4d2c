/** The reservation engine's state and its transitions, as functions of the store.

    `Store` holds the three collections of `MockAPI`; each mutating operation is a function
    from the store before to the store after plus what the call returns, and the class in
    `mock_api.dfy` is proved to perform exactly these transitions. */
module Ledger {
  import opened Wrappers
  import opened Seqs
  import opened Text
  import opened Records
  import opened Session
  import opened Calendar

  datatype Store = Store(users: seq<User>, slots: seq<Slot>, bookings: seq<Booking>)

  /** The account a fresh store starts with. */
  const DefaultAdmin: User := User("admin-1", "admin@clinic.com", "Dr. Admin", Admin)

  /** A login failure. `LoginThrows` is no error response: the call rejects because `btoa`
      throws an `InvalidCharacterError` while generating the token. */
  datatype LoginError = InvalidCredentials | LoginThrows
  {
    function Message(): string
    {
      match this
      case InvalidCredentials => "Invalid email or password"
      case LoginThrows => "InvalidCharacterError"
    }
  }

  /** A registration failure. `RegisterThrows` is no error response: the call rejects because
      `btoa` throws an `InvalidCharacterError`, after the new account has been saved. */
  datatype RegisterError = EmailExists | MissingFields | RegisterThrows
  {
    function Message(): string
    {
      match this
      case EmailExists => "Email already exists"
      case MissingFields => "All fields are required"
      case RegisterThrows => "InvalidCharacterError"
    }
  }

  datatype BookError = SlotOrPatientNotFound | SlotUnavailable
  {
    function Message(): string
    {
      match this
      case SlotOrPatientNotFound => "Slot or patient not found"
      case SlotUnavailable => "Slot is no longer available"
    }
  }

  datatype CancelError = BookingNotFound | Unauthorized
  {
    function Message(): string
    {
      match this
      case BookingNotFound => "Booking not found"
      case Unauthorized => "Unauthorized to cancel this booking"
    }
  }

  /** What a successful login or registration hands back. */
  datatype AuthSession = AuthSession(token: string, user: User)

  // ---------------------------------------------------------------------------
  // Lookups: `find` by exact field equality, first match wins.

  function HasEmail(email: string): User -> bool { (u: User) => u.email == email }
  function HasUserId(id: string): User -> bool { (u: User) => u.id == id }
  function HasSlotId(id: string): Slot -> bool { (s: Slot) => s.id == id }
  function HasBookingId(id: string): Booking -> bool { (b: Booking) => b.id == id }

  function UserByEmail(users: seq<User>, email: string): Option<nat> { FirstIndex(users, HasEmail(email)) }
  function UserById(users: seq<User>, id: string): Option<nat> { FirstIndex(users, HasUserId(id)) }
  function SlotById(slots: seq<Slot>, id: string): Option<nat> { FirstIndex(slots, HasSlotId(id)) }
  function BookingById(bookings: seq<Booking>, id: string): Option<nat> { FirstIndex(bookings, HasBookingId(id)) }

  /** `user-<now>` and `booking-<now>`: ids taken from the clock. */
  function UserIdAt(now: nat): string { "user-" + DecimalString(now) }
  function BookingIdAt(now: nat): string { "booking-" + DecimalString(now) }

  // ---------------------------------------------------------------------------
  // Read-only views.

  predicate IsAvailable(s: Slot) { s.available }
  predicate IsConfirmed(b: Booking) { b.status == Confirmed }
  function ConfirmedFor(patientId: string): Booking -> bool { (b: Booking) => b.patientId == patientId && b.status == Confirmed }

  /** `getSlots`: the open slots, in store order. */
  function AvailableSlots(slots: seq<Slot>): (r: seq<Slot>)
    ensures forall s :: s in r <==> s in slots && s.available
    ensures |r| <= |slots|
  {
    Filter(slots, IsAvailable)
  }

  /** `getMyBookings`: the patient's confirmed bookings, in ledger order. */
  function MyBookings(bookings: seq<Booking>, patientId: string): (r: seq<Booking>)
    ensures forall b :: b in r <==> b in bookings && b.patientId == patientId && b.status == Confirmed
    ensures |r| <= |bookings|
  {
    Filter(bookings, ConfirmedFor(patientId))
  }

  /** `getAllBookings`: every confirmed booking, in ledger order. */
  function AllBookings(bookings: seq<Booking>): (r: seq<Booking>)
    ensures forall b :: b in r <==> b in bookings && b.status == Confirmed
    ensures |r| <= |bookings|
  {
    Filter(bookings, IsConfirmed)
  }

  // ---------------------------------------------------------------------------
  // Accounts.

  /** `login`: any non-empty password is accepted for an existing email; the call throws
      when the account's text cannot be put into a token. */
  function Login(st: Store, email: string, password: string, now: nat): (r: Result<AuthSession, LoginError>)
    ensures r == Err(InvalidCredentials) <==>
              password == [] || forall k :: 0 <= k < |st.users| ==> st.users[k].email != email
    ensures r == Err(LoginThrows) <==>
              password != [] && UserByEmail(st.users, email).Some?
              && !Encodable(st.users[UserByEmail(st.users, email).value])
    ensures r.Ok? ==> r.value.user in st.users && r.value.user.email == email
    ensures r.Ok? ==> UserByEmail(st.users, email).Some? && r.value.user == st.users[UserByEmail(st.users, email).value]
    ensures r.Ok? ==> GenerateToken(r.value.user, now) == Some(r.value.token)
  {
    match UserByEmail(st.users, email)
    case None => Err(InvalidCredentials)
    case Some(k) =>
      if password == [] then Err(InvalidCredentials)
      else
        match GenerateToken(st.users[k], now)
        case None => Err(LoginThrows)
        case Some(token) => Ok(AuthSession(token, st.users[k]))
  }

  /** A `user-<now>` id is plain ASCII. */
  lemma UserIdAtLatin1(now: nat)
    ensures Latin1(UserIdAt(now))
  {
    var id := UserIdAt(now);
    forall i | 0 <= i < |id| ensures id[i] <= '\U{FF}' {
      if i >= 5 {
        assert id[i] == DecimalString(now)[i - 5];
      }
    }
  }

  /** `register`: the duplicate-email check comes before the empty-field check, and the new
      account is saved before its token is generated, so a token that `btoa` cannot encode
      fails the call with the account already saved. */
  function Register(st: Store, name: string, email: string, password: string, role: Role, now: nat)
    : (r: (Store, Result<AuthSession, RegisterError>))
    ensures r.1 == Err(EmailExists) <==> exists k :: 0 <= k < |st.users| && st.users[k].email == email
    ensures r.1 == Err(EmailExists) || r.1 == Err(MissingFields) ==> r.0 == st
    ensures r.1 == Err(MissingFields) <==>
              (forall k :: 0 <= k < |st.users| ==> st.users[k].email != email)
              && (name == [] || email == [] || password == [])
    ensures r.1 == Err(RegisterThrows) <==>
              (forall k :: 0 <= k < |st.users| ==> st.users[k].email != email)
              && name != [] && email != [] && password != []
              && !(Latin1(email) && Latin1(name))
    ensures r.1.Ok? || r.1 == Err(RegisterThrows) ==>
              r.0 == st.(users := st.users + [User(UserIdAt(now), email, name, role)])
    ensures r.1.Ok? ==>
              && r.1.value.user == User(UserIdAt(now), email, name, role)
              && GenerateToken(r.1.value.user, now) == Some(r.1.value.token)
  {
    if UserByEmail(st.users, email).Some? then (st, Err(EmailExists))
    else if name == [] || email == [] || password == [] then (st, Err(MissingFields))
    else
      var u := User(UserIdAt(now), email, name, role);
      UserIdAtLatin1(now);
      match GenerateToken(u, now)
      case None => (st.(users := st.users + [u]), Err(RegisterThrows))
      case Some(token) => (st.(users := st.users + [u]), Ok(AuthSession(token, u)))
  }

  /** A successful login hands back a token that verifies to the account for the next
      24 hours, up to and including the last instant, and to nothing after. */
  lemma LoginTokenLasts(st: Store, email: string, password: string, now: nat, later: nat)
    requires Login(st, email, password, now).Ok?
    ensures var s := Login(st, email, password, now).value;
            VerifyToken(s.token, later) == if now + TokenLifetime < later then None else Some(s.user)
  {
    var s := Login(st, email, password, now).value;
    IssuedTokenVerifies(s.user, now, later);
  }

  predicate UniqueEmails(users: seq<User>)
  {
    forall i, j :: 0 <= i < j < |users| ==> users[i].email != users[j].email
  }

  /** Registration never lets two accounts share an email. */
  lemma RegisterKeepsEmailsUnique(st: Store, name: string, email: string, password: string, role: Role, now: nat)
    requires UniqueEmails(st.users)
    ensures UniqueEmails(Register(st, name, email, password, role, now).0.users)
  {
  }

  /** A second registration with the same email is refused and changes nothing. */
  lemma RegisterTwiceRefused(st: Store, name: string, email: string, password: string, role: Role, now: nat,
                             name': string, password': string, role': Role, now': nat)
    requires Register(st, name, email, password, role, now).1.Ok?
    ensures var st' := Register(st, name, email, password, role, now).0;
            Register(st', name', email, password', role', now') == (st', Err(EmailExists))
  {
    var st' := Register(st, name, email, password, role, now).0;
    assert st'.users[|st.users|].email == email;
  }

  /** After registering, logging in with the same email and any non-empty password
      returns the new account. */
  lemma RegisterThenLogin(st: Store, name: string, email: string, password: string, role: Role, now: nat,
                          password': string, now': nat)
    requires Register(st, name, email, password, role, now).1.Ok? && password' != []
    ensures var r := Register(st, name, email, password, role, now);
            Login(r.0, email, password', now') == Ok(AuthSession(GenerateToken(r.1.value.user, now').value, r.1.value.user))
  {
    var r := Register(st, name, email, password, role, now);
    var users := r.0.users;
    assert users[|st.users|].email == email;
    assert UserByEmail(users, email) == Some(|st.users|);
  }

  /** An account whose registration threw is saved all the same: registering the email
      again is refused, and every login with it throws. */
  lemma RegisterThrowsLocksOut(st: Store, name: string, email: string, password: string, role: Role, now: nat,
                               name': string, password': string, role': Role, now': nat)
    requires Register(st, name, email, password, role, now).1 == Err(RegisterThrows)
    ensures var st' := Register(st, name, email, password, role, now).0;
            && Register(st', name', email, password', role', now') == (st', Err(EmailExists))
            && (password' != [] ==> Login(st', email, password', now') == Err(LoginThrows))
  {
    var st' := Register(st, name, email, password, role, now).0;
    assert st'.users[|st.users|].email == email;
    assert UserByEmail(st'.users, email) == Some(|st.users|);
  }

  // ---------------------------------------------------------------------------
  // Booking and cancelling.

  /** The slot as a booking leaves it: taken, with the occupant stamped. */
  function Taken(s: Slot, patient: User): Slot
  {
    s.(available := false, patientId := Some(patient.id), patientName := Some(patient.name))
  }

  /** The slot as a cancellation leaves it: open, occupant cleared. */
  function Reopened(s: Slot): Slot
  {
    s.(available := true, patientId := None, patientName := None)
  }

  /** `bookSlot`. */
  function Book(st: Store, slotId: string, patientId: string, now: nat, createdAt: string)
    : (r: (Store, Result<Booking, BookError>))
    ensures r.1 == Err(SlotOrPatientNotFound) <==>
              (forall i :: 0 <= i < |st.slots| ==> st.slots[i].id != slotId)
              || (forall k :: 0 <= k < |st.users| ==> st.users[k].id != patientId)
    ensures r.1 == Err(SlotUnavailable) <==>
              SlotById(st.slots, slotId).Some? && UserById(st.users, patientId).Some?
              && !st.slots[SlotById(st.slots, slotId).value].available
    ensures r.1.Err? ==> r.0 == st
    ensures r.1.Ok? ==>
              var i := SlotById(st.slots, slotId).value;
              var patient := st.users[UserById(st.users, patientId).value];
              var b := r.1.value;
              && st.slots[i].id == slotId && st.slots[i].available && patient.id == patientId
              && b == Booking(BookingIdAt(now), slotId, patientId, patient.name, patient.email,
                              st.slots[i].date, st.slots[i].time, Confirmed, createdAt)
              && r.0 == Store(st.users, st.slots[i := Taken(st.slots[i], patient)], st.bookings + [b])
  {
    match (SlotById(st.slots, slotId), UserById(st.users, patientId))
    case (Some(i), Some(k)) =>
      var slot, patient := st.slots[i], st.users[k];
      if !slot.available then (st, Err(SlotUnavailable))
      else
        var b := Booking(BookingIdAt(now), slot.id, patient.id, patient.name, patient.email,
                         slot.date, slot.time, Confirmed, createdAt);
        (st.(slots := st.slots[i := Taken(slot, patient)], bookings := st.bookings + [b]), Ok(b))
    case _ => (st, Err(SlotOrPatientNotFound))
  }

  /** Whether `userId` may cancel `b`: a known admin, or the patient who owns it. */
  predicate MayCancel(users: seq<User>, userId: string, b: Booking)
  {
    match UserById(users, userId)
    case None => false
    case Some(k) => users[k].role == Admin || b.patientId == userId
  }

  /** `cancelBooking`. It does not look at the booking's status. */
  function Cancel(st: Store, bookingId: string, userId: string): (r: (Store, Outcome<CancelError>))
    ensures r.1 == Fail(BookingNotFound) <==> forall j :: 0 <= j < |st.bookings| ==> st.bookings[j].id != bookingId
    ensures r.1 == Fail(Unauthorized) <==>
              BookingById(st.bookings, bookingId).Some?
              && !MayCancel(st.users, userId, st.bookings[BookingById(st.bookings, bookingId).value])
    ensures r.1.Fail? ==> r.0 == st
    ensures r.1.Pass? ==>
              var j := BookingById(st.bookings, bookingId).value;
              var b := st.bookings[j];
              && b.id == bookingId
              && r.0.users == st.users
              && r.0.bookings == st.bookings[j := b.(status := Cancelled)]
              && r.0.slots == match SlotById(st.slots, b.slotId)
                              case None => st.slots
                              case Some(i) => st.slots[i := Reopened(st.slots[i])]
  {
    match BookingById(st.bookings, bookingId)
    case None => (st, Fail(BookingNotFound))
    case Some(j) =>
      var b := st.bookings[j];
      if !MayCancel(st.users, userId, b) then (st, Fail(Unauthorized))
      else
        var bookings := st.bookings[j := b.(status := Cancelled)];
        match SlotById(st.slots, b.slotId)
        case None => (st.(bookings := bookings), Pass)
        case Some(i) => (st.(slots := st.slots[i := Reopened(st.slots[i])], bookings := bookings), Pass)
  }

  // ---------------------------------------------------------------------------
  // The consistency invariant: a slot is taken exactly when one confirmed booking holds it.

  function HoldsSlot(slotId: string): Booking -> bool { (b: Booking) => b.slotId == slotId && b.status == Confirmed }

  /** The confirmed bookings that hold slot `slotId`. */
  function Holders(bookings: seq<Booking>, slotId: string): seq<Booking> { Filter(bookings, HoldsSlot(slotId)) }

  /** A slot agrees with the ledger: at most one confirmed booking holds it, it is taken exactly
      when one does, and its occupant fields name that booking's patient. */
  predicate SlotAgrees(s: Slot, bookings: seq<Booking>)
  {
    var held := Holders(bookings, s.id);
    && |held| <= 1
    && (s.available <==> held == [])
    && (s.available ==> s.patientId.None? && s.patientName.None?)
    && (!s.available ==> held != [] && s.patientId == Some(held[0].patientId) && s.patientName == Some(held[0].patientName))
  }

  predicate UniqueSlotIds(slots: seq<Slot>)
  {
    forall i, j :: 0 <= i < j < |slots| ==> slots[i].id != slots[j].id
  }

  /** Every confirmed booking holds a slot that exists. */
  predicate BookingsHoldSlots(st: Store)
  {
    forall k :: 0 <= k < |st.bookings| && st.bookings[k].status == Confirmed ==>
      exists i :: 0 <= i < |st.slots| && st.slots[i].id == st.bookings[k].slotId
  }

  predicate Consistent(st: Store)
  {
    && UniqueSlotIds(st.slots)
    && (forall i :: 0 <= i < |st.slots| ==> SlotAgrees(st.slots[i], st.bookings))
    && BookingsHoldSlots(st)
  }

  /** The store the engine starts with (one admin, the generated calendar, no bookings) is consistent. */
  lemma InitialStoreConsistent(days: seq<CalendarDay>)
    requires WellFormedWindow(days)
    ensures Consistent(Store([DefaultAdmin], WindowSlots(days), []))
  {
    CalendarIdsUnique(days);
    CalendarSlots(days);
    var slots := WindowSlots(days);
    forall i | 0 <= i < |slots| ensures SlotAgrees(slots[i], []) {
      assert slots[i] in slots;
    }
  }

  /** Adding a booking for another slot, or a booking that is not confirmed, leaves a slot's holders alone. */
  lemma HoldersSnoc(bookings: seq<Booking>, b: Booking, slotId: string)
    ensures Holders(bookings + [b], slotId) == Holders(bookings, slotId) + (if HoldsSlot(slotId)(b) then [b] else [])
  {
    FilterSnoc(bookings, b, HoldsSlot(slotId));
  }

  /** A booking keeps the store consistent. */
  lemma BookPreservesConsistency(st: Store, slotId: string, patientId: string, now: nat, createdAt: string)
    requires Consistent(st)
    ensures Consistent(Book(st, slotId, patientId, now, createdAt).0)
  {
    var r := Book(st, slotId, patientId, now, createdAt);
    if r.1.Ok? {
      var i := SlotById(st.slots, slotId).value;
      var patient := st.users[UserById(st.users, patientId).value];
      var b := r.1.value;
      var st' := Store(st.users, st.slots[i := Taken(st.slots[i], patient)], st.bookings + [b]);
      assert r.0 == st';
      assert UniqueSlotIds(st'.slots) by {
        forall t | 0 <= t < |st.slots| ensures st'.slots[t].id == st.slots[t].id {
        }
      }
      assert forall t :: 0 <= t < |st'.slots| ==> SlotAgrees(st'.slots[t], st'.bookings) by {
        forall t | 0 <= t < |st'.slots| ensures SlotAgrees(st'.slots[t], st'.bookings) {
          BookKeepsSlotAgreement(st, i, patient, b, t);
        }
      }
      BookKeepsBookingsHoldSlots(st, i, patient, b);
    }
  }

  /** Taking open slot `i` for `patient` and appending confirmed booking `b` of it keeps every
      slot in agreement. */
  lemma BookKeepsSlotAgreement(st: Store, i: nat, patient: User, b: Booking, t: nat)
    requires Consistent(st)
    requires i < |st.slots| && st.slots[i].available && t < |st.slots|
    requires b.slotId == st.slots[i].id && b.status == Confirmed
    requires b.patientId == patient.id && b.patientName == patient.name
    ensures SlotAgrees(st.slots[i := Taken(st.slots[i], patient)][t], st.bookings + [b])
  {
    HoldersSnoc(st.bookings, b, st.slots[t].id);
    assert SlotAgrees(st.slots[t], st.bookings);
    if t != i {
      assert st.slots[t].id != st.slots[i].id by {
        assert !(i < t && st.slots[i].id == st.slots[t].id);
        assert !(t < i && st.slots[t].id == st.slots[i].id);
      }
    }
  }

  /** Appending a booking of existing slot `i` keeps every confirmed booking on an existing slot. */
  lemma BookKeepsBookingsHoldSlots(st: Store, i: nat, patient: User, b: Booking)
    requires BookingsHoldSlots(st)
    requires i < |st.slots| && b.slotId == st.slots[i].id
    ensures BookingsHoldSlots(Store(st.users, st.slots[i := Taken(st.slots[i], patient)], st.bookings + [b]))
  {
    var st' := Store(st.users, st.slots[i := Taken(st.slots[i], patient)], st.bookings + [b]);
    forall k | 0 <= k < |st'.bookings| && st'.bookings[k].status == Confirmed
      ensures exists i' :: 0 <= i' < |st'.slots| && st'.slots[i'].id == st'.bookings[k].slotId
    {
      if k < |st.bookings| {
        assert st'.bookings[k] == st.bookings[k];
        var i' :| 0 <= i' < |st.slots| && st.slots[i'].id == st.bookings[k].slotId;
        assert st'.slots[i'].id == st.slots[i'].id;
      } else {
        assert st'.slots[i].id == st'.bookings[k].slotId;
      }
    }
  }

  /** Cancelling keeps the store consistent PROVIDED the booking it finds is still confirmed
      (or it finds none). Without that proviso it does not: see `CancelTwiceReopensTakenSlot`. */
  lemma CancelConfirmedPreservesConsistency(st: Store, bookingId: string, userId: string)
    requires Consistent(st)
    requires BookingById(st.bookings, bookingId).Some? ==>
               st.bookings[BookingById(st.bookings, bookingId).value].status == Confirmed
    ensures Consistent(Cancel(st, bookingId, userId).0)
  {
    var r := Cancel(st, bookingId, userId);
    if r.1.Pass? {
      var j := BookingById(st.bookings, bookingId).value;
      var b := st.bookings[j];
      assert SlotById(st.slots, b.slotId).Some? by {
        var i' :| 0 <= i' < |st.slots| && st.slots[i'].id == b.slotId;
      }
      var i := SlotById(st.slots, b.slotId).value;
      assert r.0 == Store(st.users, st.slots[i := Reopened(st.slots[i])], st.bookings[j := b.(status := Cancelled)]);
      ReleasedStoreConsistent(st, j, i);
    }
  }

  /** Releasing confirmed booking `j` and reopening its slot `i` keeps the store consistent. */
  lemma ReleasedStoreConsistent(st: Store, j: nat, i: nat)
    requires Consistent(st)
    requires j < |st.bookings| && st.bookings[j].status == Confirmed
    requires i < |st.slots| && st.slots[i].id == st.bookings[j].slotId
    ensures Consistent(Store(st.users, st.slots[i := Reopened(st.slots[i])],
                             st.bookings[j := st.bookings[j].(status := Cancelled)]))
  {
    var st' := Store(st.users, st.slots[i := Reopened(st.slots[i])],
                     st.bookings[j := st.bookings[j].(status := Cancelled)]);
    assert UniqueSlotIds(st'.slots) by {
      forall t | 0 <= t < |st.slots| ensures st'.slots[t].id == st.slots[t].id {
      }
    }
    assert forall t :: 0 <= t < |st'.slots| ==> SlotAgrees(st'.slots[t], st'.bookings) by {
      forall t | 0 <= t < |st'.slots| ensures SlotAgrees(st'.slots[t], st'.bookings) {
        CancelKeepsSlotAgreement(st, j, i, t);
      }
    }
    CancelKeepsBookingsHoldSlots(st, j, i);
  }

  /** Releasing confirmed booking `j` and reopening its slot `i` keeps every slot in agreement. */
  lemma CancelKeepsSlotAgreement(st: Store, j: nat, i: nat, t: nat)
    requires Consistent(st)
    requires j < |st.bookings| && st.bookings[j].status == Confirmed
    requires i < |st.slots| && st.slots[i].id == st.bookings[j].slotId && t < |st.slots|
    ensures SlotAgrees(st.slots[i := Reopened(st.slots[i])][t],
                       st.bookings[j := st.bookings[j].(status := Cancelled)])
  {
    var b' := st.bookings[j].(status := Cancelled);
    var id := st.slots[t].id;
    assert SlotAgrees(st.slots[t], st.bookings);
    if t == i {
      FilterUpdateDrops(st.bookings, j, b', HoldsSlot(id));
    } else {
      assert id != st.bookings[j].slotId by {
        assert !(i < t && st.slots[i].id == st.slots[t].id);
        assert !(t < i && st.slots[t].id == st.slots[i].id);
      }
      FilterUpdateOutside(st.bookings, j, b', HoldsSlot(id));
    }
  }

  /** Releasing booking `j` and reopening slot `i` keeps every confirmed booking on an existing slot. */
  lemma CancelKeepsBookingsHoldSlots(st: Store, j: nat, i: nat)
    requires BookingsHoldSlots(st)
    requires j < |st.bookings| && i < |st.slots|
    ensures BookingsHoldSlots(Store(st.users, st.slots[i := Reopened(st.slots[i])],
                                    st.bookings[j := st.bookings[j].(status := Cancelled)]))
  {
    var st' := Store(st.users, st.slots[i := Reopened(st.slots[i])],
                     st.bookings[j := st.bookings[j].(status := Cancelled)]);
    forall k | 0 <= k < |st'.bookings| && st'.bookings[k].status == Confirmed
      ensures exists i2 :: 0 <= i2 < |st'.slots| && st'.slots[i2].id == st'.bookings[k].slotId
    {
      assert k != j && st'.bookings[k] == st.bookings[k];
      var i2 :| 0 <= i2 < |st.slots| && st.slots[i2].id == st.bookings[k].slotId;
      assert st'.slots[i2].id == st.slots[i2].id;
    }
  }

  /** Two books of the same slot cannot both succeed: whoever comes second is told the slot is
      no longer available, and nothing changes. */
  lemma NoDoubleBooking(st: Store, slotId: string, patientId: string, now: nat, createdAt: string,
                        patientId': string, now': nat, createdAt': string)
    requires Book(st, slotId, patientId, now, createdAt).1.Ok?
    requires UserById(st.users, patientId').Some?
    ensures var st' := Book(st, slotId, patientId, now, createdAt).0;
            Book(st', slotId, patientId', now', createdAt') == (st', Err(SlotUnavailable))
  {
    var st' := Book(st, slotId, patientId, now, createdAt).0;
    var i := SlotById(st.slots, slotId).value;
    assert st'.slots[i].id == slotId;
    assert SlotById(st'.slots, slotId) == Some(i) by {
      forall t | 0 <= t < i ensures st'.slots[t].id != slotId {
        assert st'.slots[t] == st.slots[t];
      }
    }
  }

  /** A successful booking takes its slot off the available list, shortening it by one. */
  lemma BookTakesSlotOffList(st: Store, slotId: string, patientId: string, now: nat, createdAt: string)
    requires UniqueSlotIds(st.slots)
    requires Book(st, slotId, patientId, now, createdAt).1.Ok?
    ensures var st' := Book(st, slotId, patientId, now, createdAt).0;
            && |AvailableSlots(st'.slots)| == |AvailableSlots(st.slots)| - 1
            && forall s :: s in AvailableSlots(st'.slots) ==> s.id != slotId
  {
    var st' := Book(st, slotId, patientId, now, createdAt).0;
    var i := SlotById(st.slots, slotId).value;
    FilterUpdateDrops(st.slots, i, st'.slots[i], IsAvailable);
    forall s | s in AvailableSlots(st'.slots) ensures s.id != slotId {
      var t :| 0 <= t < |st'.slots| && st'.slots[t] == s;
      if t != i {
        assert st.slots[t].id != st.slots[i].id;
      }
    }
  }

  /** Booking a slot and then cancelling that booking as the same patient, in a consistent store
      and with a booking id not used before, succeeds and undoes the booking everywhere except in
      the ledger: the slots are as before, the booking stays on record as cancelled, and neither the
      patient's view nor the full view shows it. */
  lemma BookThenCancel(st: Store, slotId: string, patientId: string, now: nat, createdAt: string)
    requires Consistent(st)
    requires forall k :: 0 <= k < |st.bookings| ==> st.bookings[k].id != BookingIdAt(now)
    requires Book(st, slotId, patientId, now, createdAt).1.Ok?
    ensures var (st1, r1) := Book(st, slotId, patientId, now, createdAt);
            var (st2, r2) := Cancel(st1, BookingIdAt(now), patientId);
            && r2 == Pass
            && st2.users == st.users
            && st2.slots == st.slots
            && st2.bookings == st.bookings + [r1.value.(status := Cancelled)]
            && MyBookings(st2.bookings, patientId) == MyBookings(st.bookings, patientId)
            && AllBookings(st2.bookings) == AllBookings(st.bookings)
            && AvailableSlots(st2.slots) == AvailableSlots(st.slots)
  {
    var (st1, r1) := Book(st, slotId, patientId, now, createdAt);
    var n := |st.bookings|;
    var b := r1.value;
    assert st1.bookings == st.bookings + [b];
    BookingByIdAppended(st.bookings, b);
    var i := SlotById(st.slots, slotId).value;
    SlotByIdKept(st.slots, i, st1.slots[i], slotId);
    var k := UserById(st.users, patientId).value;
    assert MayCancel(st1.users, patientId, b);
    var (st2, r2) := Cancel(st1, BookingIdAt(now), patientId);
    assert st2.slots == st.slots by {
      assert SlotAgrees(st.slots[i], st.bookings);
      assert st2.slots[i] == st.slots[i];
    }
    assert st2.bookings == st.bookings + [b.(status := Cancelled)];
    assert MyBookings(st2.bookings, patientId) == MyBookings(st.bookings, patientId) by {
      FilterSnoc(st.bookings, b.(status := Cancelled), ConfirmedFor(patientId));
    }
    assert AllBookings(st2.bookings) == AllBookings(st.bookings) by {
      FilterSnoc(st.bookings, b.(status := Cancelled), IsConfirmed);
    }
  }

  /** A booking appended under a fresh id is what a lookup of that id finds. */
  lemma BookingByIdAppended(bookings: seq<Booking>, b: Booking)
    requires forall k :: 0 <= k < |bookings| ==> bookings[k].id != b.id
    ensures BookingById(bookings + [b], b.id) == Some(|bookings|)
  {
    var all := bookings + [b];
    assert all[|bookings|] == b;
    forall t | 0 <= t < |bookings| ensures all[t].id != b.id {
      assert all[t] == bookings[t];
    }
    FirstIndexAt(all, HasBookingId(b.id), |bookings|);
  }

  /** Replacing the slot a lookup finds by one with the same id keeps the lookup where it was. */
  lemma SlotByIdKept(slots: seq<Slot>, i: nat, x: Slot, id: string)
    requires SlotById(slots, id) == Some(i) && x.id == id
    ensures SlotById(slots[i := x], id) == Some(i)
  {
    var all := slots[i := x];
    forall t | 0 <= t < i ensures all[t].id != id {
      assert all[t] == slots[t];
    }
    FirstIndexAt(all, HasSlotId(id), i);
  }

  /** Cancelling a booking that is already cancelled, when its slot is meanwhile held by another
      confirmed booking, is accepted and always leaves the store inconsistent: the slot is reopened
      while that other booking still holds it. */
  lemma StaleCancelBreaksConsistency(st: Store, bookingId: string, userId: string, other: nat)
    requires BookingById(st.bookings, bookingId).Some?
    requires var b := st.bookings[BookingById(st.bookings, bookingId).value];
             && b.status == Cancelled && MayCancel(st.users, userId, b)
             && SlotById(st.slots, b.slotId).Some?
             && other < |st.bookings| && st.bookings[other].slotId == b.slotId
             && st.bookings[other].status == Confirmed
    ensures Cancel(st, bookingId, userId).1 == Pass
    ensures !Consistent(Cancel(st, bookingId, userId).0)
    ensures Cancel(st, bookingId, userId).0.bookings == st.bookings
    ensures st.bookings[other] in AllBookings(st.bookings)
  {
    var j := BookingById(st.bookings, bookingId).value;
    var b := st.bookings[j];
    var i := SlotById(st.slots, b.slotId).value;
    var st' := Cancel(st, bookingId, userId).0;
    assert st'.bookings == st.bookings;
    assert st'.slots[i].available;
    assert st.bookings[other] in Holders(st'.bookings, st'.slots[i].id);
    assert !SlotAgrees(st'.slots[i], st'.bookings);
    assert st.bookings[other] in AllBookings(st.bookings);
  }

  /** The run that reaches that state from any consistent store: a patient books a slot and
      cancels it, another user books the same slot, and the first patient cancels the old
      booking once more. The second cancel succeeds and the store is no longer consistent: the
      slot is listed as available while the second booking is still confirmed. */
  lemma CancelTwiceReopensTakenSlot(st: Store, slotId: string, alice: string, bob: string,
                                    t1: nat, t2: nat, c1: string, c2: string)
    requires Consistent(st)
    requires t1 != t2
    requires forall k :: 0 <= k < |st.bookings| ==> st.bookings[k].id != BookingIdAt(t1) && st.bookings[k].id != BookingIdAt(t2)
    requires Book(st, slotId, alice, t1, c1).1.Ok?
    requires UserById(st.users, bob).Some?
    ensures var rebook := Book(Cancel(Book(st, slotId, alice, t1, c1).0, BookingIdAt(t1), alice).0, slotId, bob, t2, c2);
            var recancel := Cancel(rebook.0, BookingIdAt(t1), alice);
            && Consistent(rebook.0) && rebook.1.Ok?
            && recancel.1 == Pass && !Consistent(recancel.0)
            && rebook.1.value in AllBookings(recancel.0.bookings)
            && exists s :: s in AvailableSlots(recancel.0.slots) && s.id == slotId
  {
    var booked := Book(st, slotId, alice, t1, c1);
    BookThenCancel(st, slotId, alice, t1, c1);
    var st2 := Cancel(booked.0, BookingIdAt(t1), alice).0;
    var cancelled := booked.1.value.(status := Cancelled);
    assert st2 == st.(bookings := st.bookings + [cancelled]);
    CancelledEntryIsInert(st, cancelled);
    BookPreservesConsistency(st2, slotId, bob, t2, c2);
    RecancelAfterRebook(st, cancelled, slotId, alice, bob, t1, t2, c2);
  }

  /** The last two steps of that run: the slot is booked again by `bob` after `alice`'s booking
      of it was cancelled, then `alice` cancels her old booking once more. */
  lemma RecancelAfterRebook(st: Store, cancelled: Booking, slotId: string, alice: string, bob: string,
                            t1: nat, t2: nat, c2: string)
    requires t1 != t2
    requires forall k :: 0 <= k < |st.bookings| ==> st.bookings[k].id != BookingIdAt(t1)
    requires cancelled.id == BookingIdAt(t1) && cancelled.patientId == alice && cancelled.slotId == slotId
    requires cancelled.status == Cancelled && UserById(st.users, alice).Some?
    requires SlotById(st.slots, slotId).Some? && st.slots[SlotById(st.slots, slotId).value].available
    requires UserById(st.users, bob).Some?
    ensures var rebook := Book(st.(bookings := st.bookings + [cancelled]), slotId, bob, t2, c2);
            var recancel := Cancel(rebook.0, BookingIdAt(t1), alice);
            && rebook.1.Ok? && recancel.1 == Pass && !Consistent(recancel.0)
            && rebook.1.value in AllBookings(recancel.0.bookings)
            && exists s :: s in AvailableSlots(recancel.0.slots) && s.id == slotId
  {
    var n := |st.bookings|;
    var i := SlotById(st.slots, slotId).value;
    var st2 := st.(bookings := st.bookings + [cancelled]);
    var (st3, r3) := Book(st2, slotId, bob, t2, c2);
    assert r3.Ok?;
    var b2 := r3.value;
    assert st3.bookings == st.bookings + [cancelled, b2];
    DecimalDistinct(t1, t2);
    assert BookingById(st3.bookings, BookingIdAt(t1)) == Some(n) by {
      assert st3.bookings[n] == cancelled;
      forall t | 0 <= t < n ensures st3.bookings[t].id != BookingIdAt(t1) {
        assert st3.bookings[t] == st.bookings[t];
      }
      FirstIndexAt(st3.bookings, HasBookingId(BookingIdAt(t1)), n);
    }
    SlotByIdKept(st.slots, i, st3.slots[i], slotId);
    StaleCancelBreaksConsistency(st3, BookingIdAt(t1), alice, n + 1);
    assert st3.bookings[n] == cancelled && st3.bookings[n + 1] == b2;
    CancelReopensSlot(st3, BookingIdAt(t1), alice);
  }

  /** A successful cancel leaves the booking's slot, when it exists, on the available list. */
  lemma CancelReopensSlot(st: Store, bookingId: string, userId: string)
    requires Cancel(st, bookingId, userId).1 == Pass
    requires SlotById(st.slots, st.bookings[BookingById(st.bookings, bookingId).value].slotId).Some?
    ensures var slotId := st.bookings[BookingById(st.bookings, bookingId).value].slotId;
            exists s :: s in AvailableSlots(Cancel(st, bookingId, userId).0.slots) && s.id == slotId
  {
    var b := st.bookings[BookingById(st.bookings, bookingId).value];
    var i := SlotById(st.slots, b.slotId).value;
    var slots := Cancel(st, bookingId, userId).0.slots;
    assert slots[i] in AvailableSlots(slots);
  }

  /** In a consistent store, a successful cancel of a confirmed booking lengthens the
      open-slot list by exactly one: the booking's slot was taken and is now open. */
  lemma CancelLengthensOpenList(st: Store, bookingId: string, userId: string)
    requires Consistent(st) && Cancel(st, bookingId, userId).1 == Pass
    requires st.bookings[BookingById(st.bookings, bookingId).value].status == Confirmed
    ensures |AvailableSlots(Cancel(st, bookingId, userId).0.slots)| == |AvailableSlots(st.slots)| + 1
  {
    var j := BookingById(st.bookings, bookingId).value;
    var b := st.bookings[j];
    assert SlotById(st.slots, b.slotId).Some? by {
      var i' :| 0 <= i' < |st.slots| && st.slots[i'].id == b.slotId;
    }
    var i := SlotById(st.slots, b.slotId).value;
    assert !st.slots[i].available by {
      assert b in Holders(st.bookings, b.slotId);
      assert SlotAgrees(st.slots[i], st.bookings);
    }
    FilterUpdateAdds(st.slots, i, Reopened(st.slots[i]), IsAvailable);
  }

  /** A cancelled entry at the end of the ledger holds no slot, so it does not affect consistency. */
  lemma CancelledEntryIsInert(st: Store, b: Booking)
    requires Consistent(st) && b.status == Cancelled
    ensures Consistent(st.(bookings := st.bookings + [b]))
  {
    var st' := st.(bookings := st.bookings + [b]);
    forall i | 0 <= i < |st.slots| ensures SlotAgrees(st.slots[i], st'.bookings) {
      HoldersSnoc(st.bookings, b, st.slots[i].id);
      assert SlotAgrees(st.slots[i], st.bookings);
    }
    forall k | 0 <= k < |st'.bookings| && st'.bookings[k].status == Confirmed
      ensures exists i :: 0 <= i < |st'.slots| && st'.slots[i].id == st'.bookings[k].slotId
    {
      assert st'.bookings[k] == st.bookings[k];
    }
  }

  /** Booking ids taken at different instants differ. */
  lemma DecimalDistinct(t1: nat, t2: nat)
    requires t1 != t2
    ensures BookingIdAt(t1) != BookingIdAt(t2)
  {
    if BookingIdAt(t1) == BookingIdAt(t2) {
      assert BookingIdAt(t1)[8..] == DecimalString(t1);
      assert BookingIdAt(t2)[8..] == DecimalString(t2);
      DecimalInjective(t1, t2);
    }
  }
}
