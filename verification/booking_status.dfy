/**
  `updateBookingStatus` and `deleteBooking`. The status setter accepts any of
  four strings from the restaurant owner and applies it with no transition
  graph and no overlap re-check; "canceled" deletes the row. Deletion is scoped
  by role: a customer may delete only their own rows, anyone else only rows of
  a restaurant they own, whatever the row's status.
*/
module BookingStatus {
  import opened Common
  import opened BookingModel

  /** What an accepted status string asks for. */
  datatype StatusCommand = SetTo(status: Status) | Cancel

  /** The `allowed` list of the endpoint. */
  function ParseStatus(s: string): (r: Option<StatusCommand>)
    ensures r.Some? <==> s in ["pending", "confirmed", "canceled", "completed"]
    ensures r == Some(Cancel) <==> s == "canceled"
    ensures r == Some(SetTo(Pending)) <==> s == "pending"
    ensures r == Some(SetTo(Confirmed)) <==> s == "confirmed"
    ensures r == Some(SetTo(Completed)) <==> s == "completed"
  {
    if s == "pending" then Some(SetTo(Pending))
    else if s == "confirmed" then Some(SetTo(Confirmed))
    else if s == "canceled" then Some(Cancel)
    else if s == "completed" then Some(SetTo(Completed))
    else None
  }

  predicate HasId(id: Id, b: Booking) {
    b.id == id
  }

  predicate LacksId(id: Id, b: Booking) {
    b.id != id
  }

  /** The restaurant has an owner and it is `caller`. */
  predicate OwnsRestaurant(st: State, restaurant: Id, caller: Id) {
    restaurant in st.owners && st.owners[restaurant] == caller
  }

  /** Some booking with id `bookingId` belongs to a restaurant `caller` owns. */
  predicate OwnedBooking(st: State, bookingId: Id, caller: Id) {
    exists i :: 0 <= i < |st.bookings| && st.bookings[i].id == bookingId &&
      OwnsRestaurant(st, st.bookings[i].restaurant, caller)
  }

  function KeepOthers(id: Id): Booking -> bool {
    b => LacksId(id, b)
  }

  /** `DELETE FROM bookings WHERE id = ?` */
  function RemoveBooking(bookings: seq<Booking>, id: Id): (r: seq<Booking>)
    ensures forall b :: b in r <==> b in bookings && b.id != id
  {
    Filter(bookings, KeepOthers(id))
  }

  /** `UPDATE bookings SET status = ? WHERE id = ?` */
  function SetStatus(bookings: seq<Booking>, id: Id, s: Status): (r: seq<Booking>)
    ensures |r| == |bookings|
    ensures forall i :: 0 <= i < |r| ==>
      r[i] == if bookings[i].id == id then bookings[i].(status := s) else bookings[i]
  {
    seq(|bookings|, i requires 0 <= i < |bookings| =>
      if bookings[i].id == id then bookings[i].(status := s) else bookings[i])
  }

  /**
    `updateBookingStatus` by `caller`. `fault` is the index of the first
    storage statement that raises: 0 is the UPDATE or DELETE, 1 the
    notification insert. The statements do not run in a transaction, so a
    failing notification leaves the new status in place.
  */
  function UpdateBookingStatus(st: State, bookingId: Id, status: string, caller: Id, fault: Option<nat>): (r: Response<StatusCommand>)
    ensures r.outcome == Err(InvalidStatus) <==> ParseStatus(status).None?
    ensures r.outcome.Ok? ==> r.outcome.value == ParseStatus(status).value
    ensures r.outcome.Err? && r.outcome.error != DatabaseError ==> r.next == st
    ensures ParseStatus(status).Some? && !OwnedBooking(st, bookingId, caller) ==>
      r == Response(Err(NotAuthorized), st)
    ensures r.outcome.Ok? ==>
      exists i :: 0 <= i < |st.bookings| && st.bookings[i].id == bookingId &&
        OwnsRestaurant(st, st.bookings[i].restaurant, caller)
    ensures |r.next.notifications| ==
      |st.notifications| + (if r.outcome.Ok? && status == "confirmed" then 1 else 0)
    ensures r.next.notifications[..|st.notifications|] == st.notifications
    ensures r.next.tables == st.tables && r.next.menu == st.menu &&
            r.next.owners == st.owners && r.next.nextId == st.nextId
    ensures ParseStatus(status) == Some(Cancel) ==>
      r.next.bookings == st.bookings || r.next.bookings == RemoveBooking(st.bookings, bookingId)
    ensures ParseStatus(status).Some? && ParseStatus(status).value.SetTo? ==>
      r.next.bookings == st.bookings ||
      r.next.bookings == SetStatus(st.bookings, bookingId, ParseStatus(status).value.status)
  {
    match ParseStatus(status)
    case None => Response(Err(InvalidStatus), st)
    case Some(cmd) =>
      match FirstIndex(st.bookings, b => HasId(bookingId, b))
      case None => Response(Err(NotAuthorized), st)
      case Some(i) =>
        var b := st.bookings[i];
        if !OwnsRestaurant(st, b.restaurant, caller) then Response(Err(NotAuthorized), st)
        else if fault == Some(0) then Response(Err(DatabaseError), st)
        else
          match cmd
          case Cancel =>
            Response(Ok(cmd), st.(bookings := RemoveBooking(st.bookings, bookingId)))
          case SetTo(s) =>
            var updated := st.(bookings := SetStatus(st.bookings, bookingId, s));
            if s != Confirmed then Response(Ok(cmd), updated)
            else if fault == Some(1) then Response(Err(DatabaseError), updated)
            else
              var note := Notification(b.customer, BookingConfirmed(b.date, b.start), ProfileLink);
              assert (st.notifications + [note])[..|st.notifications|] == st.notifications;
              Response(Ok(cmd), updated.(notifications := st.notifications + [note]))
  }

  /** The caller is allowed to delete row `b`: their own row as a customer, else a row of a restaurant they own. */
  predicate MayDelete(st: State, b: Booking, caller: Id, role: string) {
    if role == "customer" then b.customer == caller else OwnsRestaurant(st, b.restaurant, caller)
  }

  /** `b` is a row the DELETE statement of `deleteBooking` matches. */
  predicate Targeted(st: State, bookingId: Id, caller: Id, role: string, b: Booking) {
    b.id == bookingId && MayDelete(st, b, caller, role)
  }

  function Untargeted(st: State, bookingId: Id, caller: Id, role: string): Booking -> bool {
    b => !Targeted(st, bookingId, caller, role, b)
  }

  /**
    `deleteBooking` by `caller` with role `role`; answers the id it deleted.
    `fault` 0 is the DELETE statement raising. Zero affected rows is a 404.
  */
  function DeleteBooking(st: State, bookingId: Id, caller: Id, role: string, fault: Option<nat>): (r: Response<Id>)
    ensures r.outcome.Ok? <==>
      fault != Some(0) && exists b :: b in st.bookings && Targeted(st, bookingId, caller, role, b)
    ensures r.outcome.Ok? ==> r.outcome.value == bookingId
    ensures r.outcome.Err? ==> r.next == st
    ensures r.outcome.Err? ==> r.outcome.error == if fault == Some(0) then DatabaseError else NotFoundOrNotAuthorized
    ensures r.outcome.Ok? ==>
      forall b :: b in r.next.bookings <==> b in st.bookings && !Targeted(st, bookingId, caller, role, b)
    ensures r.next.notifications == st.notifications
    ensures r.next.tables == st.tables && r.next.menu == st.menu &&
            r.next.owners == st.owners && r.next.nextId == st.nextId
    ensures r.next.bookings == st.bookings ||
            r.next.bookings == Filter(st.bookings, Untargeted(st, bookingId, caller, role))
  {
    var hit := Filter(st.bookings, b => Targeted(st, bookingId, caller, role, b));
    assert (exists b :: b in st.bookings && Targeted(st, bookingId, caller, role, b)) ==> |hit| > 0 by {
      if exists b :: b in st.bookings && Targeted(st, bookingId, caller, role, b) {
        var b :| b in st.bookings && Targeted(st, bookingId, caller, role, b);
        assert b in hit;
      }
    }
    assert |hit| > 0 ==> hit[0] in hit;
    if fault == Some(0) then Response(Err(DatabaseError), st)
    else if |hit| == 0 then Response(Err(NotFoundOrNotAuthorized), st)
    else
      Response(Ok(bookingId),
        st.(bookings := Filter(st.bookings, Untargeted(st, bookingId, caller, role))))
  }

  /** The row with id `id`, when ids are unique. */
  lemma UniqueIdIndex(st: State, id: Id, i: nat)
    requires WellFormed(st)
    requires i < |st.bookings| && st.bookings[i].id == id
    ensures FirstIndex(st.bookings, b => HasId(id, b)) == Some(i)
  {
  }

  /**
    There is no transition graph: whatever status the row holds now, the
    restaurant's owner can set it to any stored status (for instance from
    `completed` back to `pending`), and only that row changes.
  */
  lemma AnyStatusOverwritesAny(st: State, i: nat, status: string, caller: Id)
    requires WellFormed(st)
    requires i < |st.bookings| && OwnsRestaurant(st, st.bookings[i].restaurant, caller)
    requires ParseStatus(status).Some? && ParseStatus(status).value.SetTo?
    ensures var r := UpdateBookingStatus(st, st.bookings[i].id, status, caller, None);
      var s := ParseStatus(status).value.status;
      && r.outcome == Ok(SetTo(s))
      && r.next.bookings == SetStatus(st.bookings, st.bookings[i].id, s)
      && r.next.bookings[i] == st.bookings[i].(status := s)
      && forall j :: 0 <= j < |st.bookings| && j != i ==> r.next.bookings[j] == st.bookings[j]
  {
    UniqueIdIndex(st, st.bookings[i].id, i);
  }

  /**
    For a valid status string and no storage fault, the request is refused
    with 403 exactly when no booking with that id belongs to a restaurant the
    caller owns; otherwise it succeeds with the parsed command.
  */
  lemma OwnerUpdateSucceeds(st: State, bookingId: Id, status: string, caller: Id)
    requires WellFormed(st)
    requires ParseStatus(status).Some?
    ensures var r := UpdateBookingStatus(st, bookingId, status, caller, None);
      && (r.outcome == Err(NotAuthorized) <==> !OwnedBooking(st, bookingId, caller))
      && (OwnedBooking(st, bookingId, caller) <==> r.outcome == Ok(ParseStatus(status).value))
  {
    if OwnedBooking(st, bookingId, caller) {
      var i :| 0 <= i < |st.bookings| && st.bookings[i].id == bookingId &&
        OwnsRestaurant(st, st.bookings[i].restaurant, caller);
      UniqueIdIndex(st, bookingId, i);
    }
  }

  /** The owner's "canceled" with no fault succeeds and removes exactly the rows with that id. */
  lemma OwnerCancelDeletes(st: State, i: nat, caller: Id)
    requires WellFormed(st)
    requires i < |st.bookings| && OwnsRestaurant(st, st.bookings[i].restaurant, caller)
    ensures var r := UpdateBookingStatus(st, st.bookings[i].id, "canceled", caller, None);
      && r.outcome == Ok(Cancel)
      && r.next.bookings == RemoveBooking(st.bookings, st.bookings[i].id)
      && st.bookings[i] !in r.next.bookings
  {
    UniqueIdIndex(st, st.bookings[i].id, i);
  }

  /** A successful "canceled" removes the row with that id and keeps every other row. */
  lemma CancelDeletesRow(st: State, bookingId: Id, caller: Id, fault: Option<nat>)
    requires UpdateBookingStatus(st, bookingId, "canceled", caller, fault).outcome.Ok?
    ensures var r := UpdateBookingStatus(st, bookingId, "canceled", caller, fault);
      && (forall b :: b in r.next.bookings <==> b in st.bookings && b.id != bookingId)
      && r.next.notifications == st.notifications
  {
  }

  /**
    A successful confirmation appends exactly one notification, addressed to
    the booking's customer and naming its date and start time.
  */
  lemma ConfirmNotifiesCustomer(st: State, i: nat, caller: Id, fault: Option<nat>)
    requires WellFormed(st) && i < |st.bookings|
    requires UpdateBookingStatus(st, st.bookings[i].id, "confirmed", caller, fault).outcome.Ok?
    ensures var r := UpdateBookingStatus(st, st.bookings[i].id, "confirmed", caller, fault);
      var b := st.bookings[i];
      && r.next.notifications ==
           st.notifications + [Notification(b.customer, BookingConfirmed(b.date, b.start), ProfileLink)]
      && r.next.bookings[i].status == Confirmed
  {
    UniqueIdIndex(st, st.bookings[i].id, i);
  }

  /**
    The UPDATE and the notification insert are separate statements: when the
    insert fails the caller gets a 500, yet the row is already confirmed and
    the customer is never notified.
  */
  lemma ConfirmWithoutNotification(st: State, i: nat, caller: Id)
    requires WellFormed(st)
    requires i < |st.bookings| && OwnsRestaurant(st, st.bookings[i].restaurant, caller)
    ensures var r := UpdateBookingStatus(st, st.bookings[i].id, "confirmed", caller, Some(1));
      && r.outcome == Err(DatabaseError)
      && r.next.bookings[i].status == Confirmed
      && r.next.notifications == st.notifications
  {
    UniqueIdIndex(st, st.bookings[i].id, i);
  }

  /** Any status update or cancellation keeps booking ids unique and bounded. */
  lemma UpdatePreservesWellFormed(st: State, bookingId: Id, status: string, caller: Id, fault: Option<nat>)
    requires WellFormed(st)
    ensures WellFormed(UpdateBookingStatus(st, bookingId, status, caller, fault).next)
  {
    FilterKeepsInvariants(st.bookings, KeepOthers(bookingId), st.nextId);
  }

  /**
    Setting a row to `pending` or `completed`, or cancelling it, can never
    make two confirmed rows overlap. Only a confirmation can.
  */
  lemma NonConfirmUpdatePreservesNoOverlap(st: State, bookingId: Id, status: string, caller: Id, fault: Option<nat>)
    requires NoConfirmedOverlap(st.bookings)
    requires status != "confirmed"
    ensures NoConfirmedOverlap(UpdateBookingStatus(st, bookingId, status, caller, fault).next.bookings)
  {
    var next := UpdateBookingStatus(st, bookingId, status, caller, fault).next.bookings;
    if ParseStatus(status) == Some(Cancel) {
      FilterKeepsInvariants(st.bookings, KeepOthers(bookingId), st.nextId);
    } else if next != st.bookings {
      forall i, j |
        0 <= i < |next| && 0 <= j < |next| && i != j &&
        next[i].status == Confirmed && next[j].status == Confirmed &&
        next[i].table == next[j].table && next[i].date == next[j].date
        ensures !Overlaps(next[i].start, next[i].end, next[j].start, next[j].end)
      {
        assert next[i] == st.bookings[i] && next[j] == st.bookings[j];
      }
    }
  }

  /** A customer only ever deletes their own rows; any other role only rows of restaurants it owns. */
  lemma DeleteIsRoleScoped(st: State, bookingId: Id, caller: Id, role: string, fault: Option<nat>)
    ensures var r := DeleteBooking(st, bookingId, caller, role, fault);
      forall b :: b in st.bookings && b !in r.next.bookings ==>
        && b.id == bookingId
        && (role == "customer" ==> b.customer == caller)
        && (role != "customer" ==> OwnsRestaurant(st, b.restaurant, caller))
  {
  }

  /** Rewriting statuses never changes which rows a DELETE of `deleteBooking` would match. */
  lemma SetStatusKeepsTargets(st: State, bookingId: Id, caller: Id, role: string, id: Id, s: Status)
    ensures var st' := st.(bookings := SetStatus(st.bookings, id, s));
      (exists b :: b in st.bookings && Targeted(st, bookingId, caller, role, b)) <==>
      (exists b :: b in st'.bookings && Targeted(st', bookingId, caller, role, b))
  {
    var st' := st.(bookings := SetStatus(st.bookings, id, s));
    if exists b :: b in st.bookings && Targeted(st, bookingId, caller, role, b) {
      var b :| b in st.bookings && Targeted(st, bookingId, caller, role, b);
      TargetAfterSetStatus(st, bookingId, caller, role, id, s, b);
    }
    if exists b :: b in st'.bookings && Targeted(st', bookingId, caller, role, b) {
      var b :| b in st'.bookings && Targeted(st', bookingId, caller, role, b);
      TargetBeforeSetStatus(st, bookingId, caller, role, id, s, b);
    }
  }

  /** The status of a row never decides whether the DELETE matches it. */
  lemma TargetedIgnoresStatus(st: State, st': State, bookingId: Id, caller: Id, role: string, b: Booking, s: Status)
    requires st'.owners == st.owners
    ensures Targeted(st', bookingId, caller, role, b.(status := s)) == Targeted(st, bookingId, caller, role, b)
    ensures Targeted(st', bookingId, caller, role, b) == Targeted(st, bookingId, caller, role, b)
  {
  }

  lemma TargetAfterSetStatus(st: State, bookingId: Id, caller: Id, role: string, id: Id, s: Status, b: Booking)
    requires b in st.bookings && Targeted(st, bookingId, caller, role, b)
    ensures var st' := st.(bookings := SetStatus(st.bookings, id, s));
      exists b' :: b' in st'.bookings && Targeted(st', bookingId, caller, role, b')
  {
    var st' := st.(bookings := SetStatus(st.bookings, id, s));
    var i :| 0 <= i < |st.bookings| && st.bookings[i] == b;
    TargetedIgnoresStatus(st, st', bookingId, caller, role, b, s);
    assert st'.bookings[i] in st'.bookings;
  }

  lemma TargetBeforeSetStatus(st: State, bookingId: Id, caller: Id, role: string, id: Id, s: Status, b: Booking)
    requires var st' := st.(bookings := SetStatus(st.bookings, id, s));
      b in st'.bookings && Targeted(st', bookingId, caller, role, b)
    ensures exists b' :: b' in st.bookings && Targeted(st, bookingId, caller, role, b')
  {
    var st' := st.(bookings := SetStatus(st.bookings, id, s));
    var i :| 0 <= i < |st'.bookings| && st'.bookings[i] == b;
    var a := st.bookings[i];
    TargetedIgnoresStatus(st, st', bookingId, caller, role, a, s);
    assert a in st.bookings;
  }

  /** Deletion has no status restriction: the row's status never changes the answer. */
  lemma DeleteIgnoresStatus(st: State, bookingId: Id, caller: Id, role: string, fault: Option<nat>, s: Status)
    ensures DeleteBooking(st, bookingId, caller, role, fault).outcome ==
            DeleteBooking(st.(bookings := SetStatus(st.bookings, bookingId, s)), bookingId, caller, role, fault).outcome
  {
    SetStatusKeepsTargets(st, bookingId, caller, role, bookingId, s);
  }

  /** Deleting rows keeps ids unique and bounded and cannot make confirmed rows overlap. */
  lemma DeletePreservesInvariants(st: State, bookingId: Id, caller: Id, role: string, fault: Option<nat>)
    ensures var next := DeleteBooking(st, bookingId, caller, role, fault).next;
      && (WellFormed(st) ==> WellFormed(next))
      && (NoConfirmedOverlap(st.bookings) ==> NoConfirmedOverlap(next.bookings))
  {
    FilterKeepsInvariants(st.bookings, Untargeted(st, bookingId, caller, role), st.nextId);
  }
}
