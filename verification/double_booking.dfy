/**
  Why the engine does not keep "no two confirmed rows on one table overlap".
  Creation checks a new window only against confirmed rows and writes
  `pending` rows, and confirmation writes the status with no overlap check at
  all. So two customers can request overlapping windows on the same table,
  both requests pass, and the owner can confirm both.
*/
module DoubleBooking {
  import opened Common
  import opened BookingModel
  import opened Creation
  import opened BookingStatus

  const Restaurant: Id := 10
  const Owner: Id := 99
  const Table: Id := 1
  const Day: Date := "2024-06-01"

  /** One restaurant with one four-seat table, owned by `Owner`, and no bookings yet. */
  function Opening(): State {
    State([], [], map[Table := TableInfo(Restaurant, 4)], map[], map[Restaurant := Owner], 1)
  }

  /** A party of two asking for `Table` on `Day` from `start` to `end`, with no menu items. */
  function Ask(start: Minutes, end: Minutes): CreateRequest {
    CreateRequest(Some(Restaurant), Some(Table), None, Some(Day), Some(start), Some(end), Some(2), None, Some([]))
  }

  /**
    In the opening restaurant, a well-formed request is accepted exactly when
    no confirmed row on the table overlaps its window on that day.
  */
  lemma AskAcceptedIffFree(st: State, customer: Id, start: Minutes, end: Minutes)
    requires st.tables == Opening().tables && st.owners == Opening().owners && st.menu == Opening().menu
    requires start < end
    ensures CreateBooking(st, customer, Ask(start, end), None).outcome.Ok? <==>
      forall b :: b in st.bookings ==> !ConflictsWith(b, [Table], Day, start, end)
  {
    var req := Ask(start, end);
    assert TablesRequested(req) == [Table];
    assert ShapeValid(req);
    assert TablesValid(st, req);
    assert st.tables[Table].capacity == 4;
    assert Seats(st.tables, [Table]) == 4 + Seats(st.tables, [Table][1..]);
    assert [Table][1..] == [];
    assert RequestedSeats(st, req) == 4;
    assert TableError(st, req).None?;
    assert MenuError(st, req).None?;
  }

  /** In the opening restaurant, a request that overlaps a confirmed row on the table is answered 409 naming the table. */
  lemma AskRejectedWhenTaken(st: State, customer: Id, start: Minutes, end: Minutes, b: Booking)
    requires st.tables == Opening().tables && st.owners == Opening().owners && st.menu == Opening().menu
    requires start < end
    requires b in st.bookings && ConflictsWith(b, [Table], Day, start, end)
    ensures CreateBooking(st, customer, Ask(start, end), None).outcome == Err(TablesAlreadyBooked([Table]))
  {
    var req := Ask(start, end);
    assert TablesRequested(req) == [Table];
    assert ShapeValid(req);
    assert TablesValid(st, req);
    assert st.tables[Table].capacity == 4;
    assert Seats(st.tables, [Table]) == 4 + Seats(st.tables, [Table][1..]);
    assert [Table][1..] == [];
    assert RequestedSeats(st, req) == 4;
    assert TableError(st, req).None?;
    assert HasConflict(st, req);
    var c := ConflictError(st, req).value.tables;
    assert Table in c;
    assert forall t :: t in c ==> t == Table;
    OnlyElement(c, Table);
  }

  lemma FirstTwoDiffer(c: seq<Id>)
    ensures |c| > 1 ==> c[1] in c && (Distinct(c) ==> c[0] != c[1])
  {
  }

  /** A distinct sequence holding `x` and nothing else is `[x]`. */
  lemma OnlyElement(c: seq<Id>, x: Id)
    requires Distinct(c) && x in c
    requires forall t :: t in c ==> t == x
    ensures c == [x]
  {
    FirstTwoDiffer(c);
    assert c[0] in c;
  }

  /**
    The worked example of a 409: with 18:00-19:30 confirmed, a request for
    19:00-20:00 is refused, and a request for 19:30-20:30 is accepted because
    touching windows do not overlap.
  */
  lemma TouchingWindowsDoNotConflict(customer: Id)
    ensures var taken := Booking(1, 7, Restaurant, Table, Day, 1080, 1170, 2, None, [], Confirmed);
      var st := Opening().(bookings := [taken], nextId := 2);
      && CreateBooking(st, customer, Ask(1140, 1200), None).outcome == Err(TablesAlreadyBooked([Table]))
      && CreateBooking(st, customer, Ask(1170, 1230), None).outcome.Ok?
  {
    var taken := Booking(1, 7, Restaurant, Table, Day, 1080, 1170, 2, None, [], Confirmed);
    var st := Opening().(bookings := [taken], nextId := 2);
    AskRejectedWhenTaken(st, customer, 1140, 1200, taken);
    AskAcceptedIffFree(st, customer, 1170, 1230);
  }

  /**
    Confirming two rows that share a table and a date and whose windows
    overlap breaks the invariant, whatever else the database holds.
  */
  lemma ConfirmingBothBreaksInvariant(bookings: seq<Booking>, i: nat, j: nat)
    requires i < |bookings| && j < |bookings| && i != j
    requires bookings[i].id != bookings[j].id
    requires bookings[i].table == bookings[j].table && bookings[i].date == bookings[j].date
    requires Overlaps(bookings[i].start, bookings[i].end, bookings[j].start, bookings[j].end)
    ensures !NoConfirmedOverlap(
      SetStatus(SetStatus(bookings, bookings[i].id, Confirmed), bookings[j].id, Confirmed))
  {
    var after := SetStatus(SetStatus(bookings, bookings[i].id, Confirmed), bookings[j].id, Confirmed);
    assert after[i] == bookings[i].(status := Confirmed);
    assert after[j] == bookings[j].(status := Confirmed);
  }

  /** A row of the example, on `Table` on `Day` for a party of two. */
  function Row(id: Id, customer: Id, start: Minutes, end: Minutes, status: Status): Booking {
    Booking(id, customer, Restaurant, Table, Day, start, end, 2, None, [], status)
  }

  /** The database after an accepted `Ask`: one more pending row and one more notification to the owner. */
  function Asked(st: State, customer: Id, start: Minutes, end: Minutes): State {
    st.(bookings := st.bookings + [Row(st.nextId, customer, start, end, Pending)],
        notifications := st.notifications + [Notification(Owner, NewRequest(Day, start), SellerBookingsLink)],
        nextId := st.nextId + 1)
  }

  /** What an accepted request for a single table leaves behind: one more row, one more notification, the next id. */
  lemma SingleTableWrites(st: State, customer: Id, req: CreateRequest, t: Id)
    requires CreateBooking(st, customer, req, None).outcome.Ok? && TablesRequested(req) == [t]
    ensures var rid := req.restaurant.value;
      && rid in st.owners
      && CreateBooking(st, customer, req, None).next ==
         st.(bookings := st.bookings + [Booking(st.nextId, customer, rid, t, req.date.value, req.start.value,
                                                req.end.value, req.partySize.value, req.specialRequests,
                                                req.menuItems.GetOr([]), Pending)],
             notifications := st.notifications +
               [Notification(st.owners[rid], NewRequest(req.date.value, req.start.value), SellerBookingsLink)],
             nextId := st.nextId + 1)
  {
    var next := CreateBooking(st, customer, req, None).next;
    CreateSuccessWrites(st, customer, req, None);
    var n := |st.bookings|;
    assert next.bookings[n] == Booking(st.nextId, customer, req.restaurant.value, t, req.date.value, req.start.value,
                                       req.end.value, req.partySize.value, req.specialRequests,
                                       req.menuItems.GetOr([]), Pending);
    SnocOf(next.bookings, st.bookings, next.bookings[n]);
  }

  /** An `Ask` for a free window books the one table, four seats, and leaves exactly `Asked`. */
  lemma AskOutcome(st: State, customer: Id, start: Minutes, end: Minutes)
    requires st.tables == Opening().tables && st.owners == Opening().owners && st.menu == Opening().menu
    requires start < end
    requires forall b :: b in st.bookings ==> !ConflictsWith(b, [Table], Day, start, end)
    ensures CreateBooking(st, customer, Ask(start, end), None) ==
            Response(Ok(Created(1, 4)), Asked(st, customer, start, end))
  {
    AskBooksOneTable(st, customer, start, end);
    AskWrites(st, customer, start, end);
  }

  lemma AskBooksOneTable(st: State, customer: Id, start: Minutes, end: Minutes)
    requires st.tables == Opening().tables && st.owners == Opening().owners && st.menu == Opening().menu
    requires start < end
    requires forall b :: b in st.bookings ==> !ConflictsWith(b, [Table], Day, start, end)
    ensures CreateBooking(st, customer, Ask(start, end), None).outcome == Ok(Created(1, 4))
  {
    var req := Ask(start, end);
    assert TablesRequested(req) == [Table];
    AskAcceptedIffFree(st, customer, start, end);
    CreateSuccessChecks(st, customer, req, None);
    assert Seats(st.tables, [Table]) == 4 + Seats(st.tables, [Table][1..]);
    assert [Table][1..] == [];
  }

  lemma AskWrites(st: State, customer: Id, start: Minutes, end: Minutes)
    requires st.owners == Opening().owners
    requires CreateBooking(st, customer, Ask(start, end), None).outcome.Ok?
    ensures CreateBooking(st, customer, Ask(start, end), None).next == Asked(st, customer, start, end)
  {
    var req := Ask(start, end);
    assert TablesRequested(req) == [Table];
    SingleTableWrites(st, customer, req, Table);
    AskedIs(st, customer, start, end, CreateBooking(st, customer, req, None).next);
  }

  lemma AskedIs(st: State, customer: Id, start: Minutes, end: Minutes, next: State)
    requires st.owners == Opening().owners
    requires next ==
      st.(bookings := st.bookings + [Booking(st.nextId, customer, Restaurant, Table, Day, start, end, 2, None, [], Pending)],
          notifications := st.notifications +
            [Notification(st.owners[Restaurant], NewRequest(Day, start), SellerBookingsLink)],
          nextId := st.nextId + 1)
    ensures next == Asked(st, customer, start, end)
  {
    assert st.owners[Restaurant] == Owner;
  }

  function FirstAsked(): State {
    Asked(Opening(), 7, 1080, 1170)
  }

  function BothAsked(): State {
    Asked(FirstAsked(), 8, 1140, 1200)
  }

  /** Customer 7 asks for 18:00-19:30 in the empty restaurant; then customer 8 asks for the overlapping 19:00-20:00 and the pending row does not block it. */
  lemma BothAsksAccepted()
    ensures CreateBooking(Opening(), 7, Ask(1080, 1170), None) == Response(Ok(Created(1, 4)), FirstAsked())
    ensures CreateBooking(FirstAsked(), 8, Ask(1140, 1200), None) == Response(Ok(Created(1, 4)), BothAsked())
  {
    AskOutcome(Opening(), 7, 1080, 1170);
    var st := FirstAsked();
    assert st.bookings == [Row(1, 7, 1080, 1170, Pending)];
    AskOutcome(st, 8, 1140, 1200);
  }

  /** The owner confirms both pending rows; each confirmation succeeds, and the two confirmed rows overlap. */
  lemma BothConfirmed()
    ensures var s3 := UpdateBookingStatus(BothAsked(), 1, "confirmed", Owner, None);
      var s4 := UpdateBookingStatus(s3.next, 2, "confirmed", Owner, None);
      && s3.outcome.Ok? && s4.outcome.Ok?
      && !NoConfirmedOverlap(s4.next.bookings)
  {
    var st := BothAsked();
    var rows := st.bookings;
    assert rows == [Row(1, 7, 1080, 1170, Pending), Row(2, 8, 1140, 1200, Pending)];
    assert WellFormed(st);
    AnyStatusOverwritesAny(st, 0, "confirmed", Owner);
    UpdatePreservesWellFormed(st, 1, "confirmed", Owner, None);
    var s3 := UpdateBookingStatus(st, 1, "confirmed", Owner, None);
    assert s3.next.bookings[1] == rows[1];
    AnyStatusOverwritesAny(s3.next, 1, "confirmed", Owner);
    ConfirmingBothBreaksInvariant(rows, 0, 1);
  }

  /**
    The whole story, from an empty book: two customers ask for overlapping
    windows on the same table; both requests succeed because neither sees a
    confirmed row; the owner confirms both and both confirmations succeed; the
    database now holds two confirmed, overlapping rows on one table.
  */
  lemma OverlappingConfirmationsReachable()
    ensures var s1 := CreateBooking(Opening(), 7, Ask(1080, 1170), None);
      var s2 := CreateBooking(s1.next, 8, Ask(1140, 1200), None);
      var s3 := UpdateBookingStatus(s2.next, 1, "confirmed", Owner, None);
      var s4 := UpdateBookingStatus(s3.next, 2, "confirmed", Owner, None);
      && NoConfirmedOverlap(Opening().bookings)
      && s1.outcome.Ok? && s2.outcome.Ok? && s3.outcome.Ok? && s4.outcome.Ok?
      && !NoConfirmedOverlap(s4.next.bookings)
  {
    BothAsksAccepted();
    BothConfirmed();
  }
}
