/**
  `createBooking`: a customer asks for one or more tables of a restaurant for
  one date and time window. The request goes through an ordered chain of
  checks, each with its own error, and on success one `pending` row per table
  and one notification to the restaurant owner are committed together.
*/
module Creation {
  import opened Common
  import opened BookingModel

  /**
    The body of `POST /bookings` after JSON decoding. JavaScript truthiness is
    made explicit: an absent field is None, an id of 0 and an empty string are
    present but falsy. `tableIds` is None when it is absent or not an array,
    `partySize` is None when it is not an integer, and `menuItems` is None when
    it is present but not an array (an omitted list defaults to `Some([])`).
  */
  datatype CreateRequest = CreateRequest(
    restaurant: Option<Id>,
    tableId: Option<Id>,
    tableIds: Option<seq<Id>>,
    date: Option<Date>,
    start: Option<Minutes>,
    end: Option<Minutes>,
    partySize: Option<int>,
    specialRequests: Option<string>,
    menuItems: Option<seq<ItemRequest>>)

  /** The 201 body: how many tables were booked and how many seats they hold. */
  datatype Created = Created(tablesBooked: nat, totalSeats: int)

  /** Everything the commit needs once validation has passed. */
  datatype Plan = Plan(
    customer: Id,
    restaurant: Id,
    tables: seq<Id>,
    date: Date,
    start: Minutes,
    end: Minutes,
    partySize: int,
    specialRequests: Option<string>,
    items: seq<ItemRequest>,
    seats: int,
    owner: Id)

  predicate TruthyId(x: Option<Id>) {
    x.Some? && x.value != 0
  }

  /** A non-empty `table_ids` array wins over `table_id`; a falsy `table_id` gives no tables. */
  function TablesRequested(req: CreateRequest): (r: seq<Id>)
    ensures r == [] <==> (req.tableIds.None? || req.tableIds.value == []) && !TruthyId(req.tableId)
    ensures req.tableIds.Some? && req.tableIds.value != [] ==> r == req.tableIds.value
    ensures r != [] && r != req.tableIds.GetOr([]) ==> r == [req.tableId.value]
  {
    if req.tableIds.Some? && |req.tableIds.value| > 0 then req.tableIds.value
    else if TruthyId(req.tableId) then [req.tableId.value]
    else []
  }

  /** Whether table `t` is a row of `restaurant_tables` belonging to restaurant `rid`. */
  predicate TableOf(dir: map<Id, TableInfo>, rid: Id, t: Id) {
    t in dir && dir[t].restaurant == rid
  }

  /**
    The rows of `SELECT id, capacity FROM restaurant_tables WHERE id IN (ids)
    AND restaurant_id = rid`: each matching table once.
  */
  function ValidTables(dir: map<Id, TableInfo>, rid: Id, ids: seq<Id>): (r: seq<Id>)
    ensures Distinct(r)
    ensures forall t :: t in r <==> t in ids && TableOf(dir, rid, t)
  {
    Dedup(Filter(ids, t => TableOf(dir, rid, t)))
  }

  /** The table check passes exactly when every requested id is a table of the restaurant and no id repeats. */
  lemma ValidTablesCount(dir: map<Id, TableInfo>, rid: Id, ids: seq<Id>)
    ensures |ValidTables(dir, rid, ids)| == |ids| <==>
      Distinct(ids) && forall i :: 0 <= i < |ids| ==> TableOf(dir, rid, ids[i])
    ensures |ValidTables(dir, rid, ids)| == |ids| ==> ValidTables(dir, rid, ids) == ids
  {
    var p := (t: Id) => TableOf(dir, rid, t);
    var f := Filter(ids, p);
    FilterAll(ids, p);
    if forall i :: 0 <= i < |ids| ==> p(ids[i]) {
      assert f == ids;
    } else {
      assert |f| < |ids|;
    }
  }

  /** Sum of the capacities of the given tables. */
  function Seats(dir: map<Id, TableInfo>, ts: seq<Id>): int
    requires forall i :: 0 <= i < |ts| ==> ts[i] in dir
    decreases |ts|
  {
    if ts == [] then 0 else dir[ts[0]].capacity + Seats(dir, ts[1..])
  }

  /** An existing row blocks the request: same requested table, confirmed, same date, overlapping window. */
  predicate ConflictsWith(b: Booking, tables: seq<Id>, date: Date, start: Minutes, end: Minutes) {
    b.table in tables && b.status == Confirmed && b.date == date &&
    Overlaps(b.start, b.end, start, end)
  }

  /** The `table_id` column of the given rows. */
  function TablesOf(rows: seq<Booking>): (r: seq<Id>)
    ensures |r| == |rows|
    ensures forall t :: t in r <==> exists b :: b in rows && b.table == t
    decreases |rows|
  {
    if rows == [] then [] else [rows[0].table] + TablesOf(rows[1..])
  }

  /** `SELECT DISTINCT table_id FROM bookings WHERE …` of the conflict check. */
  function ConflictingTables(bookings: seq<Booking>, tables: seq<Id>, date: Date, start: Minutes, end: Minutes): (r: seq<Id>)
    ensures Distinct(r)
    ensures forall t :: t in r <==>
      exists b :: b in bookings && b.table == t && ConflictsWith(b, tables, date, start, end)
  {
    Dedup(TablesOf(Filter(bookings, b => ConflictsWith(b, tables, date, start, end))))
  }

  /** The ids of the requested menu items, in request order. */
  function ItemIds(items: seq<ItemRequest>): (r: seq<Id>)
    ensures |r| == |items|
    ensures forall i :: 0 <= i < |items| ==> r[i] == items[i].id
  {
    seq(|items|, i requires 0 <= i < |items| => items[i].id)
  }

  predicate OnMenu(menu: map<Id, Id>, rid: Id, item: Id) {
    item in menu && menu[item] == rid
  }

  /** `SELECT id FROM menu_items WHERE id IN (ids) AND restaurant_id = rid`. */
  function ValidMenuItems(menu: map<Id, Id>, rid: Id, ids: seq<Id>): (r: seq<Id>)
    ensures Distinct(r)
    ensures forall x :: x in r <==> x in ids && OnMenu(menu, rid, x)
  {
    Dedup(Filter(ids, x => OnMenu(menu, rid, x)))
  }

  /** The menu check passes exactly when every id is on this restaurant's menu and no id repeats. */
  lemma ValidMenuItemsCount(menu: map<Id, Id>, rid: Id, ids: seq<Id>)
    ensures |ValidMenuItems(menu, rid, ids)| == |ids| <==>
      Distinct(ids) && forall i :: 0 <= i < |ids| ==> OnMenu(menu, rid, ids[i])
  {
    var p := (x: Id) => OnMenu(menu, rid, x);
    var f := Filter(ids, p);
    FilterAll(ids, p);
    if forall i :: 0 <= i < |ids| ==> p(ids[i]) {
      assert f == ids;
    } else {
      assert |f| < |ids|;
    }
  }

  predicate BadQuantity(it: ItemRequest) {
    it.quantity.None? || it.quantity.value < 1
  }

  /** The rows the transaction inserts: one `pending` row per requested table, ids from `first` on. */
  function NewRows(plan: Plan, first: Id): (r: seq<Booking>)
    ensures |r| == |plan.tables|
  {
    seq(|plan.tables|, i requires 0 <= i < |plan.tables| =>
      Booking(first + i, plan.customer, plan.restaurant, plan.tables[i], plan.date,
              plan.start, plan.end, plan.partySize, plan.specialRequests, plan.items, Pending))
  }

  /** The row inserts that completed before statement `k` of a transaction with `n` row inserts raised. */
  function IdsUsedBefore(k: nat, n: nat): (r: nat)
    ensures r <= n && r <= k
    ensures r == k || r == n
  {
    if k < n then k else n
  }

  /**
    The transaction of step 7. `fault` is the index of the first statement
    that raises: statements 0 .. n-1 insert the rows, n inserts the
    notification and n+1 is the commit. Any of them raising rolls back, so no
    row or notification is written. The auto-increment counter is not rolled
    back: the ids the completed row inserts took stay used.
  */
  function Commit(st: State, plan: Plan, fault: Option<nat>): (r: Response<Created>)
    ensures r.outcome.Err? ==> r.outcome.error == DatabaseError
    ensures r.outcome.Err? ==> fault.Some? && r.next == st.(nextId := st.nextId + IdsUsedBefore(fault.value, |plan.tables|))
    ensures st.nextId <= r.next.nextId <= st.nextId + |plan.tables|
    ensures |r.next.bookings| >= |st.bookings|
    ensures r.next.bookings[..|st.bookings|] == st.bookings
    ensures forall i :: |st.bookings| <= i < |r.next.bookings| ==> r.next.bookings[i].status == Pending
  {
    var n := |plan.tables|;
    if fault.Some? && fault.value <= n + 1 then
      Response(Err(DatabaseError), st.(nextId := st.nextId + IdsUsedBefore(fault.value, n)))
    else
      assert (st.bookings + NewRows(plan, st.nextId))[..|st.bookings|] == st.bookings;
      Response(Ok(Created(n, plan.seats)),
        st.(bookings := st.bookings + NewRows(plan, st.nextId),
            notifications := st.notifications +
              [Notification(plan.owner, NewRequest(plan.date, plan.start), SellerBookingsLink)],
            nextId := st.nextId + n))
  }

  /** The required fields are present and truthy and at least one table is requested. */
  predicate HasRequiredFields(req: CreateRequest) {
    TruthyId(req.restaurant) && req.date.Some? && req.date.value != "" &&
    req.start.Some? && req.end.Some? && TablesRequested(req) != []
  }

  /** The checks that look only at the request itself. */
  predicate ShapeValid(req: CreateRequest) {
    HasRequiredFields(req) && req.start.value < req.end.value &&
    req.partySize.Some? && req.partySize.value >= 1
  }

  /** Step 2: required fields, then the window, then the party size; all answered with 400. */
  function ShapeError(req: CreateRequest): (r: Option<Error>)
    ensures r.None? <==> ShapeValid(req)
    ensures r.Some? ==> HttpStatus(r.value) == 400
  {
    if !HasRequiredFields(req) then Some(MissingFields)
    else if req.end.value <= req.start.value then Some(EndNotAfterStart)
    else if req.partySize.None? || req.partySize.value < 1 then Some(InvalidPartySize)
    else None
  }

  /** The requested ids are distinct tables of the requested restaurant. */
  predicate TablesValid(st: State, req: CreateRequest) {
    var ts := TablesRequested(req);
    TruthyId(req.restaurant) && Distinct(ts) &&
    forall i :: 0 <= i < |ts| ==> TableOf(st.tables, req.restaurant.value, ts[i])
  }

  /** The capacity sum of the requested tables. */
  function RequestedSeats(st: State, req: CreateRequest): int
    requires TablesValid(st, req)
  {
    Seats(st.tables, TablesRequested(req))
  }

  /**
    Step 3: the table lookup answers 404 unless every requested id is a
    table of the restaurant and no id repeats (the row count must equal the
    request count); then a capacity sum below the party size answers 400.
  */
  function TableError(st: State, req: CreateRequest): (r: Option<Error>)
    requires ShapeValid(req)
    ensures r == Some(InvalidTables) <==> !TablesValid(st, req)
    ensures r.None? <==> TablesValid(st, req) && RequestedSeats(st, req) >= req.partySize.value
    ensures r.Some? && r != Some(InvalidTables) ==>
      TablesValid(st, req) && r == Some(NotEnoughSeats(RequestedSeats(st, req), req.partySize.value))
  {
    var ts := TablesRequested(req);
    var valid := ValidTables(st.tables, req.restaurant.value, ts);
    ValidTablesCount(st.tables, req.restaurant.value, ts);
    if |valid| != |ts| then Some(InvalidTables)
    else
      var seats := Seats(st.tables, valid);
      if seats < req.partySize.value then Some(NotEnoughSeats(seats, req.partySize.value))
      else None
  }

  /** Some existing row blocks one of the requested tables. */
  predicate HasConflict(st: State, req: CreateRequest)
    requires ShapeValid(req)
  {
    exists b :: b in st.bookings &&
      ConflictsWith(b, TablesRequested(req), req.date.value, req.start.value, req.end.value)
  }

  /**
    Step 4: a 409 exactly when a confirmed row on a requested table overlaps
    the window on the same date; it names each such table once and no other.
  */
  function ConflictError(st: State, req: CreateRequest): (r: Option<Error>)
    requires ShapeValid(req)
    ensures r.None? <==> !HasConflict(st, req)
    ensures r.Some? ==>
      && r.value.TablesAlreadyBooked?
      && Distinct(r.value.tables)
      && forall t :: t in r.value.tables <==>
           exists b :: b in st.bookings && b.table == t &&
             ConflictsWith(b, TablesRequested(req), req.date.value, req.start.value, req.end.value)
  {
    var ts := TablesRequested(req);
    var c := ConflictingTables(st.bookings, ts, req.date.value, req.start.value, req.end.value);
    assert HasConflict(st, req) ==> |c| > 0 by {
      if HasConflict(st, req) {
        var b :| b in st.bookings && ConflictsWith(b, ts, req.date.value, req.start.value, req.end.value);
        assert b.table in c;
      }
    }
    assert |c| > 0 ==> HasConflict(st, req) by {
      if |c| > 0 {
        assert c[0] in c;
      }
    }
    if |c| > 0 then Some(TablesAlreadyBooked(c)) else None
  }

  /** The item ids are distinct items of the restaurant's menu. */
  predicate MenuIdsValid(st: State, rid: Id, items: seq<ItemRequest>) {
    var ids := ItemIds(items);
    Distinct(ids) && forall i :: 0 <= i < |ids| ==> OnMenu(st.menu, rid, ids[i])
  }

  /**
    Step 5: a non-array list answers 400; an empty list skips the rest; else
    a foreign or repeated item id answers 404, and then the first item whose
    quantity is not a positive integer answers 400 naming that item.
  */
  function MenuError(st: State, req: CreateRequest): (r: Option<Error>)
    requires ShapeValid(req)
    ensures r == Some(MenuItemsNotArray) <==> req.menuItems.None?
    ensures r == Some(InvalidMenuItems) <==>
      req.menuItems.Some? && req.menuItems.value != [] && !MenuIdsValid(st, req.restaurant.value, req.menuItems.value)
    ensures (r.Some? && r.value.InvalidQuantity?) <==>
      && req.menuItems.Some? && req.menuItems.value != []
      && MenuIdsValid(st, req.restaurant.value, req.menuItems.value)
      && exists i :: 0 <= i < |req.menuItems.value| && BadQuantity(req.menuItems.value[i])
    ensures r.Some? && r.value.InvalidQuantity? ==>
      var items := req.menuItems.value;
      exists k :: 0 <= k < |items| && BadQuantity(items[k]) && items[k].id == r.value.item &&
        forall i :: 0 <= i < k ==> !BadQuantity(items[i])
    ensures r.None? ==> req.menuItems.Some?
  {
    if req.menuItems.None? then Some(MenuItemsNotArray)
    else
      var items := req.menuItems.value;
      var ids := ItemIds(items);
      ValidMenuItemsCount(st.menu, req.restaurant.value, ids);
      if |ids| > 0 && |ValidMenuItems(st.menu, req.restaurant.value, ids)| != |ids| then Some(InvalidMenuItems)
      else
        var bad := FirstIndex(items, BadQuantity);
        if |ids| > 0 && bad.Some? then Some(InvalidQuantity(items[bad.value].id))
        else None
  }

  /**
    The validation chain of `createBooking`, steps 1 to 6, in the order the
    controller runs them, ending with the owner lookup (a missing owner is a
    500). It reads the database but never writes it.
  */
  function Validate(st: State, customer: Id, req: CreateRequest): (r: Outcome<Plan>)
    ensures r.Ok? ==>
      && ShapeValid(req)
      && TableError(st, req).None?
      && ConflictError(st, req).None?
      && MenuError(st, req).None?
      && req.restaurant.value in st.owners
      && r.value == Plan(customer, req.restaurant.value, TablesRequested(req), req.date.value,
                         req.start.value, req.end.value, req.partySize.value, req.specialRequests,
                         req.menuItems.value, RequestedSeats(st, req), st.owners[req.restaurant.value])
  {
    match ShapeError(req)
    case Some(e) => Err(e)
    case None =>
      match TableError(st, req)
      case Some(e) => Err(e)
      case None =>
        match ConflictError(st, req)
        case Some(e) => Err(e)
        case None =>
          match MenuError(st, req)
          case Some(e) => Err(e)
          case None =>
            var rid := req.restaurant.value;
            if rid !in st.owners then Err(OwnerNotFound)
            else
              Ok(Plan(customer, rid, TablesRequested(req), req.date.value, req.start.value, req.end.value,
                      req.partySize.value, req.specialRequests, req.menuItems.value,
                      RequestedSeats(st, req), st.owners[rid]))
  }

  /**
    `createBooking` for customer `customer`. On any error no row or
    notification is written, and only a failed transaction moves the id
    counter; on success exactly the inserted rows and one notification are
    appended.

    The restaurant page's booking form does not use the multi-table path: it
    sends one request per selected table, all at once, each with a single
    `table_id` and the full party size. Each of those requests is checked on
    its own, so every selected table alone must seat the whole party, and
    some requests can succeed while others fail.
  */
  function CreateBooking(st: State, customer: Id, req: CreateRequest, fault: Option<nat>): (r: Response<Created>)
    ensures r.outcome.Err? ==> r.next == st.(nextId := r.next.nextId)
    ensures r.outcome.Err? && r.outcome.error != DatabaseError ==> r.next == st
    ensures st.nextId <= r.next.nextId
    ensures r.outcome.Ok? ==> ShapeValid(req)
    ensures r.outcome.Ok? ==> r.outcome.value.tablesBooked == |TablesRequested(req)|
    ensures r.outcome.Ok? ==> |r.next.notifications| == |st.notifications| + 1
    ensures r.outcome.Ok? ==> |r.next.bookings| == |st.bookings| + |TablesRequested(req)|
    ensures |r.next.bookings| >= |st.bookings|
    ensures r.next.bookings[..|st.bookings|] == st.bookings
    ensures forall i :: |st.bookings| <= i < |r.next.bookings| ==> r.next.bookings[i].status == Pending
  {
    match Validate(st, customer, req)
    case Err(e) => Response(Err(e), st)
    case Ok(plan) => Commit(st, plan, fault)
  }

  /**
    A successful request passed every check: the requested tables are
    distinct tables of the restaurant, their capacity sum covers the party
    and is the reported seat total, no confirmed row conflicts, and the
    restaurant has an owner.
  */
  lemma CreateSuccessChecks(st: State, customer: Id, req: CreateRequest, fault: Option<nat>)
    requires CreateBooking(st, customer, req, fault).outcome.Ok?
    ensures ShapeValid(req) && TablesValid(st, req)
    ensures CreateBooking(st, customer, req, fault).outcome.value ==
            Created(|TablesRequested(req)|, RequestedSeats(st, req))
    ensures RequestedSeats(st, req) >= req.partySize.value
    ensures !HasConflict(st, req)
    ensures req.restaurant.value in st.owners
  {
    var plan := Validate(st, customer, req).value;
    assert CreateBooking(st, customer, req, fault) == Commit(st, plan, fault);
    assert plan.tables == TablesRequested(req) && plan.seats == RequestedSeats(st, req);
  }

  /** What a successful commit writes: one `pending` row per table with ids from `nextId` on, and one notification to the owner. */
  lemma CommitWrites(st: State, plan: Plan, fault: Option<nat>)
    requires Commit(st, plan, fault).outcome.Ok?
    ensures var next := Commit(st, plan, fault).next;
            && |next.bookings| == |st.bookings| + |plan.tables|
            && next.bookings[..|st.bookings|] == st.bookings
            && (forall i :: |st.bookings| <= i < |next.bookings| ==>
                  next.bookings[i] ==
                    Booking(st.nextId + (i - |st.bookings|), plan.customer, plan.restaurant,
                            plan.tables[i - |st.bookings|], plan.date, plan.start,
                            plan.end, plan.partySize, plan.specialRequests, plan.items, Pending))
            && next.notifications == st.notifications +
                 [Notification(plan.owner, NewRequest(plan.date, plan.start), SellerBookingsLink)]
            && next.nextId == st.nextId + |plan.tables|
            && next.tables == st.tables && next.menu == st.menu && next.owners == st.owners
  {
    var rows := NewRows(plan, st.nextId);
    var next := Commit(st, plan, fault).next;
    assert next.bookings == st.bookings + rows;
    forall i | |st.bookings| <= i < |next.bookings|
      ensures next.bookings[i] == rows[i - |st.bookings|]
    {
    }
  }

  /**
    A successful request appends, after the existing rows, one `pending` row
    per requested table carrying the request's fields, and one notification to
    the restaurant owner; the directories are untouched.
  */
  lemma CreateSuccessWrites(st: State, customer: Id, req: CreateRequest, fault: Option<nat>)
    requires CreateBooking(st, customer, req, fault).outcome.Ok?
    ensures ShapeValid(req) && req.restaurant.value in st.owners
    ensures var next := CreateBooking(st, customer, req, fault).next;
            var ts := TablesRequested(req);
            var rid := req.restaurant.value;
            && |next.bookings| == |st.bookings| + |ts|
            && next.bookings[..|st.bookings|] == st.bookings
            && (forall i :: |st.bookings| <= i < |next.bookings| ==>
                  next.bookings[i] ==
                    Booking(st.nextId + (i - |st.bookings|), customer, rid, ts[i - |st.bookings|],
                            req.date.value, req.start.value, req.end.value, req.partySize.value,
                            req.specialRequests, req.menuItems.GetOr([]), Pending))
            && next.notifications == st.notifications +
                 [Notification(st.owners[rid], NewRequest(req.date.value, req.start.value), SellerBookingsLink)]
            && next.nextId == st.nextId + |ts|
            && next.tables == st.tables && next.menu == st.menu && next.owners == st.owners
  {
    var plan := Validate(st, customer, req).value;
    assert CreateBooking(st, customer, req, fault) == Commit(st, plan, fault);
    CommitWrites(st, plan, fault);
  }

  /** All checks up to and including the seat count pass. */
  predicate SeatsSuffice(st: State, req: CreateRequest) {
    ShapeValid(req) && TablesValid(st, req) && RequestedSeats(st, req) >= req.partySize.value
  }

  /** Every check of steps 2 to 6 passes. */
  predicate ChecksPass(st: State, req: CreateRequest) {
    SeatsSuffice(st, req) && !HasConflict(st, req) && MenuError(st, req).None? &&
    req.restaurant.value in st.owners
  }

  /** The transaction raises at one of its `|ts| + 2` statements. */
  predicate TransactionFails(req: CreateRequest, fault: Option<nat>) {
    fault.Some? && fault.value <= |TablesRequested(req)| + 1
  }

  /**
    The answer of `createBooking` is decided by the first check that fails,
    in the controller's order: request shape, table lookup, seat count,
    conflicts, menu items, owner, and finally the transaction. A request
    succeeds exactly when every check passes and no statement of the
    transaction raises.
  */
  lemma CreateOutcomeByCheck(st: State, customer: Id, req: CreateRequest, fault: Option<nat>)
    ensures !ShapeValid(req) ==> CreateBooking(st, customer, req, fault).outcome == Err(ShapeError(req).value)
    ensures ShapeValid(req) && !TablesValid(st, req) ==>
      CreateBooking(st, customer, req, fault).outcome == Err(InvalidTables)
    ensures ShapeValid(req) && TablesValid(st, req) && RequestedSeats(st, req) < req.partySize.value ==>
      CreateBooking(st, customer, req, fault).outcome == Err(NotEnoughSeats(RequestedSeats(st, req), req.partySize.value))
    ensures SeatsSuffice(st, req) && HasConflict(st, req) ==>
      CreateBooking(st, customer, req, fault).outcome == Err(ConflictError(st, req).value)
    ensures SeatsSuffice(st, req) && !HasConflict(st, req) && MenuError(st, req).Some? ==>
      CreateBooking(st, customer, req, fault).outcome == Err(MenuError(st, req).value)
    ensures (SeatsSuffice(st, req) && !HasConflict(st, req) && MenuError(st, req).None? &&
             req.restaurant.value !in st.owners) ==>
      CreateBooking(st, customer, req, fault).outcome == Err(OwnerNotFound)
    ensures ChecksPass(st, req) && TransactionFails(req, fault) ==>
      CreateBooking(st, customer, req, fault).outcome == Err(DatabaseError)
    ensures CreateBooking(st, customer, req, fault).outcome.Ok? <==> ChecksPass(st, req) && !TransactionFails(req, fault)
  {
    var o := CreateBooking(st, customer, req, fault).outcome;
    if !ShapeValid(req) {
      assert o == Err(ShapeError(req).value);
    } else if !SeatsSuffice(st, req) {
      TableCheckFails(st, customer, req, fault);
    } else if HasConflict(st, req) || MenuError(st, req).Some? {
      LaterCheckFails(st, customer, req, fault);
    } else {
      LastSteps(st, customer, req, fault);
    }
  }

  lemma TableCheckFails(st: State, customer: Id, req: CreateRequest, fault: Option<nat>)
    requires ShapeValid(req) && !SeatsSuffice(st, req)
    ensures CreateBooking(st, customer, req, fault).outcome == Err(TableError(st, req).value)
    ensures TableError(st, req).Some?
  {
    assert Validate(st, customer, req) == Err(TableError(st, req).value);
  }

  lemma LaterCheckFails(st: State, customer: Id, req: CreateRequest, fault: Option<nat>)
    requires SeatsSuffice(st, req) && (HasConflict(st, req) || MenuError(st, req).Some?)
    ensures HasConflict(st, req) ==> CreateBooking(st, customer, req, fault).outcome == Err(ConflictError(st, req).value)
    ensures !HasConflict(st, req) ==> CreateBooking(st, customer, req, fault).outcome == Err(MenuError(st, req).value)
  {
    assert TableError(st, req).None?;
    if HasConflict(st, req) {
      assert Validate(st, customer, req) == Err(ConflictError(st, req).value);
    } else {
      assert Validate(st, customer, req) == Err(MenuError(st, req).value);
    }
  }

  lemma LastSteps(st: State, customer: Id, req: CreateRequest, fault: Option<nat>)
    requires SeatsSuffice(st, req) && !HasConflict(st, req) && MenuError(st, req).None?
    ensures req.restaurant.value !in st.owners ==> CreateBooking(st, customer, req, fault).outcome == Err(OwnerNotFound)
    ensures req.restaurant.value in st.owners ==>
      (CreateBooking(st, customer, req, fault).outcome.Ok? <==> !TransactionFails(req, fault)) &&
      (TransactionFails(req, fault) ==> CreateBooking(st, customer, req, fault).outcome == Err(DatabaseError))
  {
    ChecksReachOwner(st, customer, req);
    if req.restaurant.value in st.owners {
      var plan := Validate(st, customer, req).value;
      assert CreateBooking(st, customer, req, fault) == Commit(st, plan, fault);
      CommitOutcome(st, plan, fault);
    }
  }

  /** Once the seat, conflict and menu checks pass, only the owner lookup remains. */
  lemma ChecksReachOwner(st: State, customer: Id, req: CreateRequest)
    requires SeatsSuffice(st, req) && !HasConflict(st, req) && MenuError(st, req).None?
    ensures req.restaurant.value !in st.owners ==> Validate(st, customer, req) == Err(OwnerNotFound)
    ensures req.restaurant.value in st.owners ==>
      Validate(st, customer, req).Ok? && Validate(st, customer, req).value.tables == TablesRequested(req)
  {
    assert ShapeError(req).None?;
    assert TableError(st, req).None? && ConflictError(st, req).None?;
  }

  /** The transaction succeeds exactly when none of its `|tables| + 2` statements raises. */
  lemma CommitOutcome(st: State, plan: Plan, fault: Option<nat>)
    ensures Commit(st, plan, fault).outcome.Ok? <==> !(fault.Some? && fault.value <= |plan.tables| + 1)
  {
  }

  /** Any request that fails one of the request-only checks gets the same 400 whatever the database holds. */
  lemma ShapeChecksPrecedeLookups(st1: State, st2: State, customer: Id, req: CreateRequest, f1: Option<nat>, f2: Option<nat>)
    requires !ShapeValid(req)
    ensures CreateBooking(st1, customer, req, f1).outcome == CreateBooking(st2, customer, req, f2).outcome
    ensures CreateBooking(st1, customer, req, f1).outcome.Err?
    ensures HttpStatus(CreateBooking(st1, customer, req, f1).outcome.error) == 400
  {
  }

  /** The conflict check sees only confirmed rows. */
  lemma ConflictIgnoresUnconfirmed(st: State, req: CreateRequest)
    requires ShapeValid(req)
    ensures ConflictError(st, req) == ConflictError(st.(bookings := ConfirmedRows(st.bookings)), req)
  {
    var ts := TablesRequested(req);
    var blocks := (b: Booking) => ConflictsWith(b, ts, req.date.value, req.start.value, req.end.value);
    FilterFilter(st.bookings, IsConfirmed, blocks);
  }

  /** The table check reads only the table directory. */
  lemma TableErrorReadsTables(st1: State, st2: State, req: CreateRequest)
    requires ShapeValid(req) && st1.tables == st2.tables
    ensures TableError(st1, req) == TableError(st2, req)
  {
    assert TablesValid(st1, req) == TablesValid(st2, req);
  }

  /** The menu check reads only the menu directory. */
  lemma MenuErrorReadsMenu(st1: State, st2: State, req: CreateRequest)
    requires ShapeValid(req) && st1.menu == st2.menu
    ensures MenuError(st1, req) == MenuError(st2, req)
  {
    if req.menuItems.Some? {
      assert MenuIdsValid(st1, req.restaurant.value, req.menuItems.value) ==
             MenuIdsValid(st2, req.restaurant.value, req.menuItems.value);
    }
  }

  /** Validation reads the directories and, through the conflict check, the bookings. */
  lemma ValidateReads(st1: State, st2: State, customer: Id, req: CreateRequest)
    requires st1.tables == st2.tables && st1.menu == st2.menu && st1.owners == st2.owners
    requires ShapeValid(req) ==> ConflictError(st1, req) == ConflictError(st2, req)
    ensures Validate(st1, customer, req) == Validate(st2, customer, req)
  {
    if ShapeValid(req) {
      TableErrorReadsTables(st1, st2, req);
      MenuErrorReadsMenu(st1, st2, req);
      var t := TableError(st1, req);
      var c := ConflictError(st1, req);
      var m := MenuError(st1, req);
      if t.Some? {
        ValidateStopsAt(st1, customer, req, Err(t.value));
        ValidateStopsAt(st2, customer, req, Err(t.value));
      } else if c.Some? {
        ValidateStopsAt(st1, customer, req, Err(c.value));
        ValidateStopsAt(st2, customer, req, Err(c.value));
      } else if m.Some? {
        ValidateStopsAt(st1, customer, req, Err(m.value));
        ValidateStopsAt(st2, customer, req, Err(m.value));
      } else {
        assert RequestedSeats(st1, req) == RequestedSeats(st2, req);
        ValidateAfterChecks(st1, customer, req);
        ValidateAfterChecks(st2, customer, req);
      }
    }
  }

  /** Validation answers the first failing database check. */
  lemma ValidateStopsAt(st: State, customer: Id, req: CreateRequest, e: Outcome<Plan>)
    requires ShapeValid(req)
    requires || (TableError(st, req).Some? && e == Err(TableError(st, req).value))
             || (TableError(st, req).None? && ConflictError(st, req).Some? && e == Err(ConflictError(st, req).value))
             || (TableError(st, req).None? && ConflictError(st, req).None? && MenuError(st, req).Some? &&
                 e == Err(MenuError(st, req).value))
    ensures Validate(st, customer, req) == e
  {
  }

  /** With every check of the database passed, validation turns on the owner lookup. */
  lemma ValidateAfterChecks(st: State, customer: Id, req: CreateRequest)
    requires ShapeValid(req) && TableError(st, req).None? && ConflictError(st, req).None? && MenuError(st, req).None?
    ensures Validate(st, customer, req) ==
      if req.restaurant.value !in st.owners then Err(OwnerNotFound)
      else Ok(Plan(customer, req.restaurant.value, TablesRequested(req), req.date.value, req.start.value,
                   req.end.value, req.partySize.value, req.specialRequests, req.menuItems.value,
                   RequestedSeats(st, req), st.owners[req.restaurant.value]))
  {
  }

  /**
    Pending and completed rows never influence validation: dropping every
    non-confirmed row from the database leaves its verdict unchanged.
  */
  lemma ValidateIgnoresUnconfirmed(st: State, customer: Id, req: CreateRequest)
    ensures Validate(st, customer, req) == Validate(st.(bookings := ConfirmedRows(st.bookings)), customer, req)
  {
    if ShapeValid(req) {
      ConflictIgnoresUnconfirmed(st, req);
    }
    ValidateReads(st, st.(bookings := ConfirmedRows(st.bookings)), customer, req);
  }

  /**
    Hence pending and completed rows never change the answer of
    `createBooking`: in particular they never cause a 409.
  */
  lemma OnlyConfirmedRowsMatter(st: State, customer: Id, req: CreateRequest, fault: Option<nat>)
    ensures CreateBooking(st, customer, req, fault).outcome ==
            CreateBooking(st.(bookings := ConfirmedRows(st.bookings)), customer, req, fault).outcome
  {
    ValidateIgnoresUnconfirmed(st, customer, req);
    SameVerdictSameOutcome(st, st.(bookings := ConfirmedRows(st.bookings)), customer, req, fault);
  }

  /** The answer of `createBooking` depends on the database only through the validation verdict. */
  lemma SameVerdictSameOutcome(st1: State, st2: State, customer: Id, req: CreateRequest, fault: Option<nat>)
    requires Validate(st1, customer, req) == Validate(st2, customer, req)
    ensures CreateBooking(st1, customer, req, fault).outcome == CreateBooking(st2, customer, req, fault).outcome
  {
    match Validate(st1, customer, req)
    case Err(e) =>
    case Ok(plan) =>
      assert CreateBooking(st1, customer, req, fault) == Commit(st1, plan, fault);
      assert CreateBooking(st2, customer, req, fault) == Commit(st2, plan, fault);
  }

  /** Rows appended after the old ones, all pending, leave the confirmed rows as they were. */
  lemma PendingTailKeepsConfirmed(before: seq<Booking>, after: seq<Booking>)
    requires |after| >= |before| && after[..|before|] == before
    requires forall i :: |before| <= i < |after| ==> after[i].status == Pending
    ensures ConfirmedRows(after) == ConfirmedRows(before)
  {
    var n := |before|;
    var rows := after[n..];
    assert after == before + rows;
    forall i | 0 <= i < |rows| ensures !IsConfirmed(rows[i]) {
      assert rows[i] == after[n + i];
    }
    ConfirmedRowsAppend(before, rows);
  }

  /** Creation only ever adds `pending` rows: the confirmed rows are exactly those before the call. */
  lemma CreateAddsNoConfirmedRow(st: State, customer: Id, req: CreateRequest, fault: Option<nat>)
    ensures ConfirmedRows(CreateBooking(st, customer, req, fault).next.bookings) == ConfirmedRows(st.bookings)
  {
    PendingTailKeepsConfirmed(st.bookings, CreateBooking(st, customer, req, fault).next.bookings);
  }

  /** Hence creation cannot break "no two confirmed rows on one table overlap". */
  lemma CreatePreservesNoConfirmedOverlap(st: State, customer: Id, req: CreateRequest, fault: Option<nat>)
    requires NoConfirmedOverlap(st.bookings)
    ensures NoConfirmedOverlap(CreateBooking(st, customer, req, fault).next.bookings)
  {
    var next := CreateBooking(st, customer, req, fault).next.bookings;
    var n := |st.bookings|;
    forall i, j |
      0 <= i < |next| && 0 <= j < |next| && i != j &&
      next[i].status == Confirmed && next[j].status == Confirmed &&
      next[i].table == next[j].table && next[i].date == next[j].date
      ensures !Overlaps(next[i].start, next[i].end, next[j].start, next[j].end)
    {
      assert i < n && j < n;
      assert st.bookings[i] == next[..n][i] && st.bookings[j] == next[..n][j];
    }
  }

  /** Appending rows numbered `n0`, `n0 + 1`, ... after rows whose ids are unique and below `n0` keeps ids unique, below `n0 + k`. */
  lemma FreshIdsKeepWellFormed(before: seq<Booking>, after: seq<Booking>, n0: Id, k: nat)
    requires UniqueIds(before) && IdsBelow(before, n0)
    requires |after| == |before| + k && after[..|before|] == before
    requires forall i :: |before| <= i < |after| ==> after[i].id == n0 + (i - |before|)
    ensures UniqueIds(after) && IdsBelow(after, n0 + k)
  {
    var n := |before|;
    forall i | 0 <= i < n ensures after[i].id < n0 {
      assert after[i] == after[..n][i];
    }
    forall i, j | 0 <= i < j < |after| ensures after[i].id != after[j].id {
      if j < n {
        assert after[i] == before[i] && after[j] == before[j];
      }
    }
  }

  /** A state that appends `k` rows numbered from `nextId` and moves `nextId` past them stays well formed. */
  lemma NumberedAppendKeepsWellFormed(st: State, next: State, k: nat)
    requires WellFormed(st)
    requires |next.bookings| == |st.bookings| + k && next.bookings[..|st.bookings|] == st.bookings
    requires forall i :: |st.bookings| <= i < |next.bookings| ==> next.bookings[i].id == st.nextId + (i - |st.bookings|)
    requires next.nextId == st.nextId + k
    ensures WellFormed(next)
  {
    FreshIdsKeepWellFormed(st.bookings, next.bookings, st.nextId, k);
  }

  /** Creation keeps booking ids unique and below the next auto-increment value. */
  lemma CreatePreservesWellFormed(st: State, customer: Id, req: CreateRequest, fault: Option<nat>)
    requires WellFormed(st)
    ensures WellFormed(CreateBooking(st, customer, req, fault).next)
  {
    var r := CreateBooking(st, customer, req, fault);
    if r.outcome.Ok? {
      CreateNumbersRows(st, customer, req, fault);
      NumberedAppendKeepsWellFormed(st, r.next, |TablesRequested(req)|);
    }
  }

  /** The ids a successful request gives its rows: consecutive from `nextId`, which moves past them. */
  lemma CreateNumbersRows(st: State, customer: Id, req: CreateRequest, fault: Option<nat>)
    requires CreateBooking(st, customer, req, fault).outcome.Ok?
    ensures var next := CreateBooking(st, customer, req, fault).next;
            && |next.bookings| == |st.bookings| + |TablesRequested(req)|
            && next.bookings[..|st.bookings|] == st.bookings
            && (forall i :: |st.bookings| <= i < |next.bookings| ==> next.bookings[i].id == st.nextId + (i - |st.bookings|))
            && next.nextId == st.nextId + |TablesRequested(req)|
  {
    CreateSuccessWrites(st, customer, req, fault);
  }
}
