/**
  The booking engine's database, as an immutable value: booking rows,
  notifications, the table and menu directories, restaurant owners, and the
  next auto-increment booking id. Every operation of the controller is a pure
  function from a `State` and a request to an outcome and a new `State`.
*/
module BookingModel {
  import opened Common

  type Id = nat

  /** Wall-clock time as minutes since midnight. */
  type Minutes = nat

  /** A booking date; the controller only ever compares dates for equality. */
  type Date = string

  /** The statuses a stored row can hold. Cancellation deletes the row instead. */
  datatype Status = Pending | Confirmed | Completed

  /** One `{ id, quantity }` entry of `menu_items`; `quantity` is None when it is not an integer. */
  datatype ItemRequest = ItemRequest(id: Id, quantity: Option<int>)

  datatype Booking = Booking(
    id: Id,
    customer: Id,
    restaurant: Id,
    table: Id,
    date: Date,
    start: Minutes,
    end: Minutes,
    partySize: int,
    specialRequests: Option<string>,
    items: seq<ItemRequest>,
    status: Status)

  /** The text of a notification, kept as the data it is formatted from. */
  datatype Message =
    | NewRequest(date: Date, time: Minutes)
    | BookingConfirmed(date: Date, time: Minutes)

  datatype Notification = Notification(user: Id, message: Message, link: string)

  const SellerBookingsLink: string := "/seller/bookings"
  const ProfileLink: string := "/profile"

  datatype TableInfo = TableInfo(restaurant: Id, capacity: nat)

  datatype State = State(
    bookings: seq<Booking>,
    notifications: seq<Notification>,
    tables: map<Id, TableInfo>,       // restaurant_tables: id -> (restaurant, capacity)
    menu: map<Id, Id>,                // menu_items: id -> restaurant
    owners: map<Id, Id>,              // restaurants: id -> owner (absent: no row or no owner)
    nextId: Id)                       // next AUTO_INCREMENT value of bookings.id

  /** Every error response of the booking controller. */
  datatype Error =
    | MissingFields
    | EndNotAfterStart
    | InvalidPartySize
    | InvalidTables
    | NotEnoughSeats(seats: int, party: int)
    | TablesAlreadyBooked(tables: seq<Id>)
    | MenuItemsNotArray
    | InvalidMenuItems
    | InvalidQuantity(item: Id)
    | OwnerNotFound
    | DatabaseError
    | InvalidStatus
    | NotAuthorized
    | NotFoundOrNotAuthorized

  /** The HTTP status code each error is answered with. */
  function HttpStatus(e: Error): nat {
    match e
    case MissingFields => 400
    case EndNotAfterStart => 400
    case InvalidPartySize => 400
    case InvalidTables => 404
    case NotEnoughSeats(_, _) => 400
    case TablesAlreadyBooked(_) => 409
    case MenuItemsNotArray => 400
    case InvalidMenuItems => 404
    case InvalidQuantity(_) => 400
    case OwnerNotFound => 500
    case DatabaseError => 500
    case InvalidStatus => 400
    case NotAuthorized => 403
    case NotFoundOrNotAuthorized => 404
  }

  datatype Outcome<+T> = Ok(value: T) | Err(error: Error)

  /** An operation's answer together with the database it leaves behind. */
  datatype Response<+T> = Response(outcome: Outcome<T>, next: State)

  /**
    The conflict test of the controller: the existing window `[s1, e1)` and
    the new window `[s2, e2)` overlap unless one ends before the other starts.
    Touching windows (`e1 == s2`) do not overlap.
  */
  predicate Overlaps(s1: Minutes, e1: Minutes, s2: Minutes, e2: Minutes) {
    !(e1 <= s2 || s1 >= e2)
  }

  /** The database invariant the engine is meant to keep. */
  ghost predicate NoConfirmedOverlap(bookings: seq<Booking>) {
    forall i, j ::
      0 <= i < |bookings| && 0 <= j < |bookings| && i != j &&
      bookings[i].status == Confirmed && bookings[j].status == Confirmed &&
      bookings[i].table == bookings[j].table && bookings[i].date == bookings[j].date
      ==> !Overlaps(bookings[i].start, bookings[i].end, bookings[j].start, bookings[j].end)
  }

  predicate IsConfirmed(b: Booking) {
    b.status == Confirmed
  }

  /** The rows of `bookings` whose status is `Confirmed`, in order. */
  function ConfirmedRows(bookings: seq<Booking>): (r: seq<Booking>)
    ensures forall b :: b in r <==> b in bookings && b.status == Confirmed
  {
    Filter(bookings, IsConfirmed)
  }

  /** Appending rows none of which is confirmed leaves the confirmed rows as they were. */
  lemma ConfirmedRowsAppend(a: seq<Booking>, rows: seq<Booking>)
    requires forall i :: 0 <= i < |rows| ==> !IsConfirmed(rows[i])
    ensures ConfirmedRows(a + rows) == ConfirmedRows(a)
  {
    FilterAppend(a, rows, IsConfirmed);
    FilterAll(rows, IsConfirmed);
  }

  ghost predicate UniqueIds(bookings: seq<Booking>) {
    forall i, j :: 0 <= i < j < |bookings| ==> bookings[i].id != bookings[j].id
  }

  ghost predicate IdsBelow(bookings: seq<Booking>, n: Id) {
    forall i :: 0 <= i < |bookings| ==> bookings[i].id < n
  }

  /** Booking ids are unique and below the next auto-increment value. */
  ghost predicate WellFormed(st: State) {
    UniqueIds(st.bookings) && IdsBelow(st.bookings, st.nextId)
  }

  /** A row kept by a filter is a row of the input. */
  lemma FilteredRowIsRow(bookings: seq<Booking>, p: Booking -> bool, i: nat)
    requires i < |Filter(bookings, p)|
    ensures exists k :: 0 <= k < |bookings| && bookings[k] == Filter(bookings, p)[i]
  {
    assert Filter(bookings, p)[i] in Filter(bookings, p);
  }

  lemma FilterKeepsUniqueIds(bookings: seq<Booking>, p: Booking -> bool)
    requires UniqueIds(bookings)
    ensures UniqueIds(Filter(bookings, p))
  {
    var r := Filter(bookings, p);
    forall i, j | 0 <= i < j < |r| ensures r[i].id != r[j].id {
      FilterPairs(bookings, p, i, j);
      var i', j' :| 0 <= i' < j' < |bookings| && bookings[i'] == r[i] && bookings[j'] == r[j];
    }
  }

  lemma FilterKeepsIdsBelow(bookings: seq<Booking>, p: Booking -> bool, n: Id)
    requires IdsBelow(bookings, n)
    ensures IdsBelow(Filter(bookings, p), n)
  {
    var r := Filter(bookings, p);
    forall i | 0 <= i < |r| ensures r[i].id < n {
      FilteredRowIsRow(bookings, p, i);
    }
  }

  lemma FilterKeepsNoOverlap(bookings: seq<Booking>, p: Booking -> bool)
    requires NoConfirmedOverlap(bookings)
    ensures NoConfirmedOverlap(Filter(bookings, p))
  {
    var r := Filter(bookings, p);
    forall i, j | 0 <= i < |r| && 0 <= j < |r| && i != j &&
                  r[i].status == Confirmed && r[j].status == Confirmed &&
                  r[i].table == r[j].table && r[i].date == r[j].date
      ensures !Overlaps(r[i].start, r[i].end, r[j].start, r[j].end)
    {
      if i < j {
        FilterPairs(bookings, p, i, j);
        var i', j' :| 0 <= i' < j' < |bookings| && bookings[i'] == r[i] && bookings[j'] == r[j];
      } else {
        FilterPairs(bookings, p, j, i);
        var j', i' :| 0 <= j' < i' < |bookings| && bookings[j'] == r[j] && bookings[i'] == r[i];
      }
    }
  }

  /**
    Removing rows (any `DELETE ... WHERE`) keeps ids unique and bounded and
    cannot make two confirmed rows overlap.
  */
  lemma FilterKeepsInvariants(bookings: seq<Booking>, p: Booking -> bool, n: Id)
    ensures UniqueIds(bookings) ==> UniqueIds(Filter(bookings, p))
    ensures IdsBelow(bookings, n) ==> IdsBelow(Filter(bookings, p), n)
    ensures NoConfirmedOverlap(bookings) ==> NoConfirmedOverlap(Filter(bookings, p))
  {
    if UniqueIds(bookings) {
      FilterKeepsUniqueIds(bookings, p);
    }
    if IdsBelow(bookings, n) {
      FilterKeepsIdsBelow(bookings, p, n);
    }
    if NoConfirmedOverlap(bookings) {
      FilterKeepsNoOverlap(bookings, p);
    }
  }

  /** Minute `m` lies in the half-open window `[s, e)`. */
  predicate InWindow(m: Minutes, s: Minutes, e: Minutes) {
    s <= m < e
  }

  /**
    For proper windows the controller's test is exactly "some minute lies in
    both half-open windows".
  */
  lemma OverlapsIffSharedMinute(s1: Minutes, e1: Minutes, s2: Minutes, e2: Minutes)
    requires s1 < e1 && s2 < e2
    ensures Overlaps(s1, e1, s2, e2) <==> exists m: Minutes :: InWindow(m, s1, e1) && InWindow(m, s2, e2)
  {
    if Overlaps(s1, e1, s2, e2) {
      var m: Minutes := if s1 < s2 then s2 else s1;
      assert InWindow(m, s1, e1) && InWindow(m, s2, e2);
    }
  }
}
