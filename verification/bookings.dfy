/** The `bookings` collection: the reservation record, its status select
    and the hook that stamps `createdAt`. */
module Bookings {
  import opened Common

  /** The four values of the `status` select. */
  datatype Status = Pending | Confirmed | Cancelled | Completed

  const DefaultStatus := Pending

  function StatusValue(s: Status): string {
    match s
    case Pending => "pending"
    case Confirmed => "confirmed"
    case Cancelled => "cancelled"
    case Completed => "completed"
  }

  /** Reads a stored status; only the four option values are statuses. */
  function ParseStatus(v: string): (r: Option<Status>)
    ensures r.Some? ==> StatusValue(r.value) == v
  {
    if v == "pending" then Some(Pending)
    else if v == "confirmed" then Some(Confirmed)
    else if v == "cancelled" then Some(Cancelled)
    else if v == "completed" then Some(Completed)
    else None
  }

  lemma StatusValueRoundTrip(s: Status)
    ensures ParseStatus(StatusValue(s)) == Some(s)
  {
  }

  /** A stored reservation. `date` is a day number (days since 1970-01-01);
      `createdAt` is a timestamp. */
  datatype Booking = Booking(
    date: int,
    timeSlot: string,
    partySize: int,
    name: string,
    email: string,
    phone: string,
    notes: Option<string>,
    status: Status,
    createdAt: Option<int>)

  /** What a write sends for an optional field: nothing (on an update the
      stored value is kept), an explicit `null`, or a value. Update access is
      open and `readOnly` only affects the admin form, so an update may send
      any of them, `createdAt` included. */
  datatype Sent<+T> = Omitted | SentNull | SentValue(v: T)

  /** The value a write leaves for the field: the stored one when the write
      omits it, otherwise what the write sends. */
  function Incoming<T>(stored: Option<T>, sent: Sent<T>): (r: Option<T>)
    ensures sent.Omitted? ==> r == stored
    ensures sent.SentNull? ==> r.None?
    ensures sent.SentValue? ==> r == Some(sent.v)
  {
    match sent
    case Omitted => stored
    case SentNull => None
    case SentValue(v) => Some(v)
  }

  /** A stored optional value, sent again. */
  function Resend<T>(o: Option<T>): (r: Sent<T>)
    ensures Incoming(None, r) == o
  {
    if o.Some? then SentValue(o.value) else SentNull
  }

  /** A reservation as submitted: every field may be missing, and the
      optional `notes` and `createdAt` may also be sent as `null`. */
  datatype BookingInput = BookingInput(
    date: Option<int>,
    timeSlot: Option<string>,
    partySize: Option<int>,
    name: Option<string>,
    email: Option<string>,
    phone: Option<string>,
    notes: Sent<string>,
    status: Option<string>,
    createdAt: Sent<int>)

  datatype Operation = Create | Update

  datatype BookingError =
    | MissingField(field: string)
    | PartySizeBelowMinimum(size: int)
    | UnknownStatus(status: string)

  /** The `createdAt` beforeChange hook: a create without a value is stamped
      with the current time; every other call keeps the value it is given. */
  function CreatedAtHook(value: Option<int>, op: Operation, now: int): (r: Option<int>)
    ensures r.Some?
      <==> value.Some? || op == Create
    ensures value.Some? ==> r == value
    ensures op == Create && value.None? ==> r == Some(now)
  {
    if op == Create && value.None? then Some(now) else value
  }

  /** An update of an existing booking: what it sends and when it runs. */
  datatype Edit = Edit(sent: Sent<int>, now: int)

  /** The value stored when the booking is created at time `t`. */
  function CreatedValue(sent: Sent<int>, t: int): (r: Option<int>)
    ensures sent.SentValue? ==> r == Some(sent.v)
    ensures !sent.SentValue? ==> r == Some(t)
  {
    CreatedAtHook(Incoming(None, sent), Create, t)
  }

  /** The value stored after the hook runs for each update, in order. */
  function AfterUpdates(stored: Option<int>, us: seq<Edit>): Option<int>
    decreases |us|
  {
    if |us| == 0 then stored
    else AfterUpdates(CreatedAtHook(Incoming(stored, us[0].sent), Update, us[0].now), us[1..])
  }

  /** The reference: the value sent by the last update that sends one, or
      the value stored before the updates when none does. */
  function LastSent(stored: Option<int>, us: seq<Edit>): Option<int>
    decreases |us|
  {
    if |us| == 0 then stored
    else if us[|us| - 1].sent.Omitted? then LastSent(stored, us[..|us| - 1])
    else Incoming(None, us[|us| - 1].sent)
  }

  /** Running one more update acts on the value the earlier ones left. */
  lemma {:induction false} AfterUpdatesSnoc(stored: Option<int>, us: seq<Edit>, u: Edit)
    ensures AfterUpdates(stored, us + [u]) ==
      CreatedAtHook(Incoming(AfterUpdates(stored, us), u.sent), Update, u.now)
    decreases |us|
  {
    if |us| > 0 {
      var next := CreatedAtHook(Incoming(stored, us[0].sent), Update, us[0].now);
      assert (us + [u])[1..] == us[1..] + [u];
      AfterUpdatesSnoc(next, us[1..], u);
    }
  }

  /** Updates never stamp the time: the stored value is the one the last
      update sending `createdAt` sent (`null` clears it), or the value from
      before when no update sends it. */
  lemma {:induction false} UpdatesKeepLastSent(stored: Option<int>, us: seq<Edit>)
    ensures AfterUpdates(stored, us) == LastSent(stored, us)
    decreases |us|
  {
    if |us| > 0 {
      var n := |us| - 1;
      UpdatesKeepLastSent(stored, us[..n]);
      assert us == us[..n] + [us[n]];
      AfterUpdatesSnoc(stored, us[..n], us[n]);
    }
  }

  /** After a create at time `t` and any updates: with no update sending
      `createdAt` it holds the value the create sent, or `t` when it sent
      none; otherwise it holds what the last sending update sent. It is
      never the time of an update. */
  lemma CreatedAtAfterUpdates(sent: Sent<int>, t: int, us: seq<Edit>)
    ensures (forall i :: 0 <= i < |us| ==> us[i].sent.Omitted?) ==>
      AfterUpdates(CreatedValue(sent, t), us) == CreatedValue(sent, t)
    ensures AfterUpdates(CreatedValue(sent, t), us) == CreatedValue(sent, t)
      || exists i :: 0 <= i < |us| && !us[i].sent.Omitted?
           && AfterUpdates(CreatedValue(sent, t), us) == Incoming(None, us[i].sent)
  {
    UpdatesKeepLastSent(CreatedValue(sent, t), us);
    LastSentSource(CreatedValue(sent, t), us);
  }

  /** The reference value is the starting value or the value some update
      sent, and it is the starting value when no update sends one. */
  lemma {:induction false} LastSentSource(stored: Option<int>, us: seq<Edit>)
    ensures (forall i :: 0 <= i < |us| ==> us[i].sent.Omitted?) ==> LastSent(stored, us) == stored
    ensures LastSent(stored, us) == stored
      || exists i :: 0 <= i < |us| && !us[i].sent.Omitted? && LastSent(stored, us) == Incoming(None, us[i].sent)
    decreases |us|
  {
    if |us| > 0 {
      var n := |us| - 1;
      LastSentSource(stored, us[..n]);
      if us[n].sent.Omitted? {
        if LastSent(stored, us[..n]) != stored {
          var i :| 0 <= i < n && !us[..n][i].sent.Omitted? && LastSent(stored, us[..n]) == Incoming(None, us[..n][i].sent);
          assert us[i] == us[..n][i];
        }
        if forall i :: 0 <= i < |us| ==> us[i].sent.Omitted? {
          assert forall i :: 0 <= i < n ==> us[..n][i] == us[i];
        }
      }
    }
  }

  /** A required text field is given and non-empty. */
  predicate Given(s: Option<string>) {
    s.Some? && |s.value| > 0
  }

  /** A write to the collection: a create when nothing is stored, otherwise
      an update of the stored booking. */
  function OperationOf(stored: Option<Booking>): Operation {
    if stored.None? then Create else Update
  }

  /** The stored optional fields; nothing on a create. */
  function StoredNotes(stored: Option<Booking>): Option<string> {
    if stored.Some? then stored.value.notes else None
  }

  function StoredCreatedAt(stored: Option<Booking>): Option<int> {
    if stored.Some? then stored.value.createdAt else None
  }

  /** What Payload validates on a write: on an update every required field
      or status the input leaves out is taken from the stored booking; on a
      create the input alone. The optional `notes` and `createdAt` pass
      through and are resolved against the stored value by `Incoming`. */
  function Merged(input: BookingInput, stored: Option<Booking>): BookingInput {
    if stored.None? then input
    else
      var b := stored.value;
      BookingInput(
        Some(input.date.GetOr(b.date)),
        Some(input.timeSlot.GetOr(b.timeSlot)),
        Some(input.partySize.GetOr(b.partySize)),
        Some(input.name.GetOr(b.name)),
        Some(input.email.GetOr(b.email)),
        Some(input.phone.GetOr(b.phone)),
        input.notes,
        Some(input.status.GetOr(StatusValue(b.status))),
        input.createdAt)
  }

  /** Stores a submitted reservation: the required fields of the merged input
      are checked in declaration order, `partySize` has minimum 1, a create
      without a status gets `pending`, and the `createdAt` hook runs. */
  function Validate(input: BookingInput, stored: Option<Booking>, now: int): (r: Result<Booking, BookingError>)
    ensures var m := Merged(input, stored);
      r.Success? <==>
      && m.date.Some? && Given(m.timeSlot) && m.partySize.Some?
      && Given(m.name) && Given(m.email) && Given(m.phone)
      && m.partySize.value >= 1
      && (m.status.Some? ==> ParseStatus(m.status.value).Some?)
    ensures var m := Merged(input, stored);
      r.Success? ==>
      && r.value.date == m.date.value
      && r.value.timeSlot == m.timeSlot.value
      && r.value.partySize == m.partySize.value
      && r.value.name == m.name.value
      && r.value.email == m.email.value
      && r.value.phone == m.phone.value
      && r.value.notes == Incoming(StoredNotes(stored), input.notes)
      && (m.status.None? ==> r.value.status == Pending)
      && (m.status.Some? ==> StatusValue(r.value.status) == m.status.value)
      && r.value.createdAt ==
           CreatedAtHook(Incoming(StoredCreatedAt(stored), input.createdAt), OperationOf(stored), now)
  {
    var m := Merged(input, stored);
    if m.date.None? then Failure(MissingField("date"))
    else if !Given(m.timeSlot) then Failure(MissingField("timeSlot"))
    else if m.partySize.None? then Failure(MissingField("partySize"))
    else if m.partySize.value < 1 then Failure(PartySizeBelowMinimum(m.partySize.value))
    else if !Given(m.name) then Failure(MissingField("name"))
    else if !Given(m.email) then Failure(MissingField("email"))
    else if !Given(m.phone) then Failure(MissingField("phone"))
    else
      var status :=
        if m.status.None? then Some(DefaultStatus) else ParseStatus(m.status.value);
      if status.None? then Failure(UnknownStatus(m.status.value))
      else
        Success(Booking(m.date.value, m.timeSlot.value, m.partySize.value,
                        m.name.value, m.email.value, m.phone.value,
                        Incoming(StoredNotes(stored), input.notes), status.value,
                        CreatedAtHook(Incoming(StoredCreatedAt(stored), input.createdAt),
                                      OperationOf(stored), now)))
  }

  /** A booking the collection can hold: party size at least 1 and the
      required text fields non-empty. */
  predicate Storable(b: Booking) {
    b.partySize >= 1 && |b.timeSlot| > 0 && |b.name| > 0 && |b.email| > 0 && |b.phone| > 0
  }

  /** The input that sends every field of a booking. */
  function InputOf(b: Booking): BookingInput {
    BookingInput(Some(b.date), Some(b.timeSlot), Some(b.partySize), Some(b.name),
                 Some(b.email), Some(b.phone), Resend(b.notes), Some(StatusValue(b.status)),
                 Resend(b.createdAt))
  }

  /** The input that sends nothing. */
  const NoFields := BookingInput(None, None, None, None, None, None, Omitted, None, Omitted)

  /** Creating a booking from all of its fields stores exactly that booking,
      and only storable bookings are accepted. */
  lemma CreateRoundTrip(b: Booking, now: int)
    requires b.createdAt.Some?
    ensures Validate(InputOf(b), None, now).Success? <==> Storable(b)
    ensures Storable(b) ==> Validate(InputOf(b), None, now) == Success(b)
  {
    var r := Validate(InputOf(b), None, now);
    StatusValueRoundTrip(b.status);
    if r.Success? {
      StatusValueInjective(r.value.status, b.status);
    }
  }

  /** An update that sends no field stores the stored booking unchanged. */
  lemma EmptyUpdateKeepsBooking(b: Booking, now: int)
    requires Storable(b)
    ensures Validate(NoFields, Some(b), now) == Success(b)
  {
    var r := Validate(NoFields, Some(b), now);
    StatusValueRoundTrip(b.status);
    StatusValueInjective(r.value.status, b.status);
  }

  /** An update that sends only a status changes only the status; one that
      leaves the status out keeps the stored one. */
  lemma StatusOnlyUpdate(b: Booking, s: Status, now: int)
    requires Storable(b)
    ensures Validate(NoFields.(status := Some(StatusValue(s))), Some(b), now) == Success(b.(status := s))
    ensures forall input: BookingInput :: input.status.None? && Validate(input, Some(b), now).Success? ==>
      Validate(input, Some(b), now).value.status == b.status
  {
    var r := Validate(NoFields.(status := Some(StatusValue(s))), Some(b), now);
    StatusValueRoundTrip(s);
    StatusValueInjective(r.value.status, s);
    forall input: BookingInput | input.status.None? && Validate(input, Some(b), now).Success?
      ensures Validate(input, Some(b), now).value.status == b.status
    {
      StatusValueInjective(Validate(input, Some(b), now).value.status, b.status);
    }
  }

  /** Different statuses are stored as different values. */
  lemma StatusValueInjective(s: Status, t: Status)
    ensures StatusValue(s) == StatusValue(t) ==> s == t
  {
  }

  /** An update that sends `notes: null` clears the stored notes and changes
      nothing else. */
  lemma NullClearsNotes(b: Booking, now: int)
    requires Storable(b)
    ensures Validate(NoFields.(notes := SentNull), Some(b), now) == Success(b.(notes := None))
  {
    var r := Validate(NoFields.(notes := SentNull), Some(b), now);
    StatusValueRoundTrip(b.status);
    StatusValueInjective(r.value.status, b.status);
  }

  /** An accepted update stores the `createdAt` that one step of the update
      sequence model gives. */
  lemma ValidateAgreesWithUpdates(input: BookingInput, b: Booking, now: int)
    requires Validate(input, Some(b), now).Success?
    ensures Validate(input, Some(b), now).value.createdAt ==
      AfterUpdates(b.createdAt, [Edit(input.createdAt, now)])
  {
    assert [Edit(input.createdAt, now)][1..] == [];
  }
}
