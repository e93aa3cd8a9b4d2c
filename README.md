# Clinic booking engine — a Dafny model

This project models the engine of a small clinic appointment app. The `MockAPI` class keeps
three in-memory collections: users, hourly time slots and bookings. On top of them it offers
login and registration with expiring session tokens, a calendar of open slots for the
coming week, and booking and cancelling of slots. The model also covers the reporting the two
dashboards do over what the engine returns:

- the admin dashboard's today, upcoming and distinct-patient counts, and its date sort;
- the patient dashboard's grouping of slots by date.

Modules, one per file:

- `Wrappers` (`wrappers.dfy`): `Option`, `Result`, `Outcome`.
- `Seqs` (`seqs.dfy`): `filter` and `find`/`findIndex` with first-match semantics, and the facts
  about them that the rest uses.
- `Text` (`text.dfy`): non-negative `toString`, `padStart(2, '0')`, and JavaScript's `<` on
  strings.
- `Records` (`records.dfy`): `User`, `TimeSlot` (here `Slot`), `Booking`, roles and booking status.
- `Calendar` (`calendar.dfy`): `generateAvailableSlots`, as a method with nested loops proved
  equal to the function `WindowSlots`, plus the shape of the calendar.
- `Session` (`session.dfy`): `generateToken` and `verifyToken`.
- `Ledger` (`ledger.dfy`): every store operation as a function from one `Store` value to the
  next, with its result. It also holds the consistency invariant and the lemmas about it.
- `MockApi` (`mock_api.dfy`): the class `MockAPI`. Its fields are the three collections. Each
  method updates them in place and is proved to perform a `Ledger` transition: `Login` and
  `Register` perform the functions of the same name, `BookSlot` performs `Ledger.Book` and
  `CancelBooking` performs `Ledger.Cancel`.
- `AdminReports` (`admin_reports.dfy`) and `SlotGroups` (`slot_groups.dfy`): the dashboard
  computations.

The central invariant is `Ledger.Consistent`. It says that slot ids are unique, that a slot is
taken exactly when one confirmed booking holds it, and that its occupant fields name that
booking's patient. The store starts consistent, and `bookSlot` keeps it consistent.
`cancelBooking` does not look at the booking's status. It therefore keeps the invariant only
when the booking it finds is still confirmed. `Ledger.CancelTwiceReopensTakenSlot` gives a
run that breaks it: a patient books and cancels, a second patient books the same slot, and
the first patient cancels the old booking again. The run starts from any consistent store in
which the slot is open, both patients are known accounts, and the two booking instants give
ids no existing booking has. After that run the
slot is listed as open while the second booking is still confirmed.

Inputs the engine reads from its environment are parameters here:

- the clock (`Date.now()`) is `now: nat`, in milliseconds;
- the booking's `createdAt` timestamp is a string;
- the seven calendar days are given with their weekday;
- the admin dashboard's "today" is a string;
- the date-to-time conversion used by the sort is a function `timeOf`.

The model keeps these behaviours of the code:

- A missing slot and a missing patient give one error, "Slot or patient not found", not two.
- The all-bookings list is returned in ledger order, not sorted by date. The admin dashboard
  sorts it.
- A token stays valid up to and including its expiry instant (`exp < now` rejects it).
- The duplicate-email check comes before the empty-field check, so a duplicate empty email
  is reported as "Email already exists".
- `btoa` throws on any character above U+00FF, and `JSON.stringify` leaves such characters
  as they are. A login for an account whose email or name holds one therefore throws.
  `register` saves the new account before it generates the token, so for such an account it
  throws with the account already saved: the email is taken from then on, and every login
  with it throws.

## Model

| member | source | states |
|---|---|---|
| Seqs.Filter | src/lib/mockAPI.ts:181 | the result is no longer than the input and holds exactly the input's elements that satisfy the predicate |
| Seqs.FilterConcat | src/lib/mockAPI.ts:227 | filtering distributes over concatenation, so a filtered view keeps the input's order |
| Seqs.FilterExclusiveLengths | src/pages/AdminDashboard.tsx:70-78 | two filters whose predicates never hold together have lengths that add up to at most the input's |
| Seqs.FilterAllKept | src/lib/mockAPI.ts:233 | filtering with a predicate every element meets returns the input unchanged |
| Seqs.FilterUpdateDrops | src/lib/mockAPI.ts:200 | replacing a kept element by one that is not kept shortens the filtered view by exactly one |
| Seqs.FilterUpdateAdds | src/lib/mockAPI.ts:256 | replacing an element that is not kept by one that is lengthens the filtered view by exactly one |
| Seqs.FilterUpdateOutside | src/lib/mockAPI.ts:251 | replacing an element by another, when the filter keeps neither, leaves the filtered view unchanged |
| Seqs.FirstIndex | src/lib/mockAPI.ts:141 | `find`: a found index is in range, its element matches, and no earlier element does; nothing is found exactly when no element matches |
| Text.DecimalString | src/lib/mockAPI.ts:165 | the decimal text of a clock reading is non-empty and made of digits only |
| Text.DecimalRoundTrip | src/lib/mockAPI.ts:206 | reading the decimal text of `n` back gives `n` |
| Text.DecimalInjective | src/lib/mockAPI.ts:206 | different clock readings give different decimal texts, so ids taken at different instants differ |
| Text.PadStart2 | src/lib/mockAPI.ts:95 | the hour is left-padded with zeros to two characters and is unchanged when it already has two |
| Text.LexLessIrreflexive | src/pages/AdminDashboard.tsx:72-77 | no date string is below itself |
| Calendar.GenerateSlots | src/lib/mockAPI.ts:80-107 | the nested day and hour loops build exactly the calendar `WindowSlots` of the seven given days |
| Calendar.CalendarSize | src/lib/mockAPI.ts:85-94 | the calendar has nine slots for each working day and none for Saturdays or Sundays |
| Calendar.CalendarSlots | src/lib/mockAPI.ts:96-101 | every generated slot is open, has no occupant, and is the slot `slot-<date>-<hour>` / `HH:00` of a working day at an hour from 9 to 17 |
| Calendar.SlotIdInjective | src/lib/mockAPI.ts:97 | two slot ids with dates of equal length coincide only for the same date and hour |
| Calendar.CalendarIdsUnique | src/lib/mockAPI.ts:97 | in a window of distinct ten-character dates, no two generated slots share an id |
| Calendar.DaySlotIdsUnique | src/lib/mockAPI.ts:94-97 | the nine slots of one day have distinct ids |
| Calendar.SlotsPerDate | src/lib/mockAPI.ts:90-103 | in such a window each working day's date labels exactly nine slots and a weekend day's none |
| Calendar.CalendarDates | src/lib/mockAPI.ts:98 | every generated slot carries the date of one of the window's days |
| Session.ParseRole | src/lib/mockAPI.ts:131 | a role read back from a token is one whose name is the text read |
| Session.LeadingDigits | src/lib/mockAPI.ts:127 | the digit prefix of a token is all digits and is followed by a non-digit or the end |
| Session.ReadFieldOf | src/lib/mockAPI.ts:127 | an encoded field followed by anything reads back as that field and the same remainder |
| Session.ReadFieldsOf | src/lib/mockAPI.ts:127 | a run of encoded fields reads back as the same fields |
| Session.EncodeDecode | src/lib/mockAPI.ts:122-127 | decoding an encoded token gives back exactly the user's fields and expiry that were encoded |
| Session.GenerateToken | src/lib/mockAPI.ts:121-123 | a token exists exactly when the account's id, email and name hold no character above U+00FF, and it decodes to the account's fields with expiry `now` + 24 hours |
| Session.VerifyToken | src/lib/mockAPI.ts:125-135 | a token verifies exactly when it decodes and its expiry is not before `now`, and then to the user with the id, email, name and role it carries |
| Session.IssuedTokenVerifies | src/lib/mockAPI.ts:121-135 | a token issued at `t` for an account `btoa` can encode verifies to the same user at every instant up to `t` + 24 hours and to nothing after |
| Ledger.AvailableSlots | src/lib/mockAPI.ts:178-182 | the open-slot list holds exactly the open slots of the store, and no more than the store has |
| Ledger.MyBookings | src/lib/mockAPI.ts:224-228 | the list holds exactly the patient's confirmed bookings |
| Ledger.AllBookings | src/lib/mockAPI.ts:230-234 | the list holds exactly the confirmed bookings |
| Ledger.Login | src/lib/mockAPI.ts:137-150 | "Invalid email or password" exactly for an unknown email or an empty password; the call throws exactly when the account found holds a character `btoa` rejects; success returns the first account with that email, as `find` does, with the token `generateToken` issues for it at `now` |
| Ledger.LoginTokenLasts | src/lib/mockAPI.ts:121-150 | the token a successful login returns verifies to that account up to and including 24 hours later, and to nothing after |
| Ledger.Register | src/lib/mockAPI.ts:152-176 | "Email already exists" exactly when the email is taken, checked first; "All fields are required" exactly when the email is new and a field is empty; these refusals change nothing; otherwise `user-<now>` with the given fields is appended, and the call throws exactly when the email or name holds a character `btoa` rejects, or else returns the account with the token `generateToken` issues for it at `now` |
| Ledger.RegisterKeepsEmailsUnique | src/lib/mockAPI.ts:156-171 | registration never lets two accounts share an email |
| Ledger.RegisterTwiceRefused | src/lib/mockAPI.ts:156-158 | after a successful registration, any registration with the same email is refused and changes nothing |
| Ledger.RegisterThenLogin | src/lib/mockAPI.ts:141-149 | after registering, a login with that email and any non-empty password returns the new account |
| Ledger.RegisterThrowsLocksOut | src/lib/mockAPI.ts:141-174 | after a registration that throws, registering the same email again is refused and every login with it and a non-empty password throws |
| Ledger.Book | src/lib/mockAPI.ts:184-222 | "Slot or patient not found" exactly when no slot or no user has the id; "Slot is no longer available" exactly when both exist and the slot is taken; a refusal changes nothing; success takes the slot for the patient and appends the confirmed booking `booking-<now>` with the slot's date and time |
| Ledger.Cancel | src/lib/mockAPI.ts:236-265 | "Booking not found" exactly when no booking has the id; "Unauthorized" exactly when the user is unknown or is a patient who does not own it; a refusal changes nothing; success marks the first booking with the id cancelled and reopens its slot if one exists, whatever the booking's status was |
| Ledger.InitialStoreConsistent | src/lib/mockAPI.ts:48-78 | the store the engine starts with (the default admin, the generated calendar, no bookings) is consistent |
| Ledger.HoldersSnoc | src/lib/mockAPI.ts:217 | appending a booking adds it to a slot's holders exactly when it is confirmed and for that slot |
| Ledger.BookPreservesConsistency | src/lib/mockAPI.ts:195-217 | booking keeps the store consistent |
| Ledger.CancelConfirmedPreservesConsistency | src/lib/mockAPI.ts:240-259 | cancelling keeps the store consistent when the booking it finds is still confirmed |
| Ledger.ReleasedStoreConsistent | src/lib/mockAPI.ts:251-258 | marking a confirmed booking cancelled and reopening its slot keeps the store consistent |
| Ledger.NoDoubleBooking | src/lib/mockAPI.ts:195-197 | once a slot is booked, any other booking of it by a known user is refused as no longer available and changes nothing (an unknown user gets "Slot or patient not found", as `Ledger.Book` states) |
| Ledger.BookTakesSlotOffList | src/lib/mockAPI.ts:181 | with unique slot ids, a successful booking removes its slot from the open-slot list and shortens that list by one |
| Ledger.CancelLengthensOpenList | src/lib/mockAPI.ts:251-258 | in a consistent store, a successful cancel of a confirmed booking lengthens the open-slot list by exactly one |
| Ledger.BookThenCancel | src/lib/mockAPI.ts:184-265 | in a consistent store where no booking already has the new booking's id, a successful booking cancelled by its patient succeeds and restores the slots and every view, leaving only the cancelled entry in the ledger |
| Ledger.StaleCancelBreaksConsistency | src/lib/mockAPI.ts:240-259 | cancelling an already cancelled booking whose slot another confirmed booking holds succeeds and leaves the store inconsistent |
| Ledger.CancelTwiceReopensTakenSlot | src/lib/mockAPI.ts:184-265 | from a consistent store in which the first booking succeeds, the second user is known, the two instants differ and no booking already has either new id, book, cancel, rebook by the second user and cancel again ends with the slot listed open while the second booking is still confirmed |
| Ledger.RecancelAfterRebook | src/lib/mockAPI.ts:184-265 | the last two steps of that run: the rebooking succeeds and the repeated cancel reopens the slot it took |
| Ledger.CancelReopensSlot | src/lib/mockAPI.ts:254-259 | after a successful cancel the booking's slot, when it exists, is on the open-slot list |
| Ledger.CancelledEntryIsInert | src/lib/mockAPI.ts:251 | a cancelled booking holds no slot, so it does not affect consistency |
| Ledger.DecimalDistinct | src/lib/mockAPI.ts:206 | bookings made at different instants get different ids |
| MockApi.MockAPI.constructor | src/lib/mockAPI.ts:44-78 | the fresh store holds only the default admin, the generated calendar and no bookings, and it is valid for a well-formed window |
| MockApi.MockAPI.GenerateAvailableSlots | src/lib/mockAPI.ts:80-107 | the slot list becomes the generated calendar; users and bookings are unchanged |
| MockApi.MockAPI.Login | src/lib/mockAPI.ts:137-150 | the method returns what `Ledger.Login` specifies, including the call that throws, and changes nothing |
| MockApi.MockAPI.Register | src/lib/mockAPI.ts:152-176 | the fields and result are those of `Ledger.Register`, so a call that throws leaves the account saved, and validity is kept |
| MockApi.MockAPI.BookSlot | src/lib/mockAPI.ts:184-222 | the fields and result are those of `Ledger.Book`, and validity is kept |
| MockApi.MockAPI.CancelBooking | src/lib/mockAPI.ts:236-265 | the fields and result are those of `Ledger.Cancel`, and validity is kept when the booking found is still confirmed |
| AdminReports.ViewsSelect | src/pages/AdminDashboard.tsx:70-78 | both views keep input order: the views of a concatenation are the concatenations of the views |
| AdminReports.TodayAndUpcomingDisjoint | src/pages/AdminDashboard.tsx:70-78 | no booking is in both views, so their sizes add up to at most the number of bookings |
| AdminReports.TodayBookings | src/pages/AdminDashboard.tsx:70-73 | the view holds exactly the bookings dated today |
| AdminReports.UpcomingBookings | src/pages/AdminDashboard.tsx:75-78 | the view holds exactly the bookings whose date string is above today's |
| AdminReports.UniquePatients | src/pages/AdminDashboard.tsx:80-83 | the count is the size of the set of patient ids, at most the number of bookings, and zero exactly when there are none |
| AdminReports.PatientIds | src/pages/AdminDashboard.tsx:81 | the set holds exactly the patient ids that occur in the bookings |
| AdminReports.PatientIdsBounds | src/pages/AdminDashboard.tsx:80-83 | there are at most as many distinct patient ids as bookings, and none exactly when there are no bookings |
| AdminReports.InsertByDateSorts | src/pages/AdminDashboard.tsx:217 | inserting into a date-sorted list keeps it sorted and adds exactly the one booking |
| AdminReports.InsertByDateStable | src/pages/AdminDashboard.tsx:217 | among bookings with the same date time, the inserted one goes first and the rest keep their order |
| AdminReports.SortByDate | src/pages/AdminDashboard.tsx:217 | the sorted list is in ascending date order and is a permutation of the input |
| AdminReports.SortByDateStable | src/pages/AdminDashboard.tsx:217 | bookings with the same date time keep their input order, as the stable sort guarantees |
| SlotGroups.DistinctDatesSpec | src/pages/PatientDashboard.tsx:111-119 | the keys are exactly the dates that occur among the slots, each once |
| SlotGroups.GroupsOpen | src/pages/PatientDashboard.tsx:113-116 | a slot with a new date adds that date as the last key with a group holding only that slot |
| SlotGroups.GroupsPush | src/pages/PatientDashboard.tsx:116 | a slot whose date has a group is pushed onto the end of that group |
| SlotGroups.GroupSlotsByDate | src/pages/PatientDashboard.tsx:111-119 | the keys are the distinct dates in order of first appearance; each group holds exactly that date's slots in input order; every slot is in its date's group; group sizes add up to the number of slots; there are no keys exactly when there are no slots |
| SlotGroups.SlotsInOwnGroup | src/pages/PatientDashboard.tsx:187 | each slot's date is a key and the slot is in that date's group; there are no keys exactly when there are no slots |
| SlotGroups.GroupSizesTotal | src/pages/PatientDashboard.tsx:196-200 | the group sizes over the distinct dates add up to the number of slots |

## Left out

- Persistence in `localStorage` is left out: `saveUsers`, `saveSlots`, `saveBookings` and the reload in `initializeData`. The model starts from the empty-storage case.
- The simulated network delays (`setTimeout`, `async`/`await`) are left out. Every operation happens in one atomic step.
- `btoa`/`atob` and `JSON.stringify`/`JSON.parse` of the token are replaced by a length-prefixed field encoding with a proved round trip. What is kept of `btoa` is that it throws on characters above U+00FF. A token that would parse as JSON but lack fields, or hold an unknown role, is treated as invalid. Base64 text and the exact exception object are not modelled.
- Session.VerifyToken: the source copies whatever `role` text the token holds; the model accepts only `patient` or `admin`.
- `Date.now()` and `new Date().toISOString()` are parameters, as is the admin dashboard's "today". Two bookings made in the same millisecond would get the same id in the source; the lemmas that need distinct ids require them.
- The date arithmetic of `generateAvailableSlots` (`setDate`, `getDay`, `toISOString().split('T')[0]`) is left out. The seven days arrive as dates with their weekday. The local-time weekday versus UTC date mismatch of `toISOString` is not modelled.
- The calendar code steps through local days with `setDate` but labels each slot with the UTC date from `toISOString`. On a week whose clocks go forward on a working day, two consecutive working days can then get the same date, and the source starts with nine repeated slot ids and so an inconsistent store. `Ledger.InitialStoreConsistent` and the `MockApi.MockAPI.constructor` validity clause hold only for windows with distinct dates, which they require.
- `new Date(a.date).getTime()` in the admin sort is the parameter `timeOf`. `NaN` comparisons for unparsable dates are not modelled.
- The admin sort reorders the React state array in place; the model returns a sorted copy.
- `Object.keys` order of the grouped record is modelled as insertion order. That holds for date-shaped keys, which are not integer-like.
- SlotGroups.GroupSlotsByDate: the model assumes date-shaped keys. A date naming an `Object.prototype` member, such as `constructor` or `toString`, finds an inherited value in the fresh record, and the `push` on it throws; the model treats it like any other new date.
- Aliasing of the slot and booking objects returned by `find` is modelled as value updates of the collections at the found index. The source also hands the same objects to callers, and later changes show through them; this is not modelled.
- MockApi.MockAPI.GetSlots, MockApi.MockAPI.GetMyBookings, MockApi.MockAPI.GetAllBookings: these forward to `Ledger.AvailableSlots`, `Ledger.MyBookings` and `Ledger.AllBookings`. What the views hold is stated once, by the contracts of those three functions.
- Passwords are never checked or stored by the source, apart from being non-empty, so no password is kept.
- The user interface, the login and registration pages, the landing page, the authentication context, the layout and the route guard are left out. They do not compute on the store.
