/**
  The seller's "Incoming Bookings" page: its state (`loading`, the rows, and
  the per-booking `actionLoading` flags), the single-row status and delete
  handlers, the four batch buttons of a card, and what the page renders.
*/
module SellerBookings {
  import opened Common
  import opened TimeFormat
  import opened MenuLines
  import opened MenuMerge
  import opened SellerGroups

  /** `actionLoading` is a plain object: an id that was never set reads as `undefined`, which is falsy. */
  datatype Page = Page(loading: bool, bookings: seq<SellerRow>, busy: map<nat, bool>)

  function Initial(): Page {
    Page(true, [], map[])
  }

  function IsBusy(busy: map<nat, bool>, id: nat): bool {
    id in busy && busy[id]
  }

  /** What the fetch did: answered with `res.data.data` (`None` when falsy), or failed. */
  datatype Fetch = Answered(data: Option<seq<SellerRow>>) | Failed

  /** The fetch chain: `then` stores the rows, `catch` only logs, `finally` clears `loading`. */
  function Settle(p: Page, f: Fetch): Page {
    match f
    case Answered(data) => p.(bookings := data.GetOr([]), loading := false)
    case Failed => p.(loading := false)
  }

  /** The ids of some rows, in order. */
  function Ids(rows: seq<SellerRow>): (r: seq<nat>)
    ensures |r| == |rows|
  {
    Project(rows, RowId)
  }

  function RowId(row: SellerRow): nat {
    row.id
  }

  // ---------------------------------------------------------------- list updates

  /** `bs.map(b => b.id === id ? { ...b, status } : b)` */
  function ApplyStatus(rows: seq<SellerRow>, id: nat, s: string): (r: seq<SellerRow>)
    ensures |r| == |rows|
  {
    seq(|rows|, i requires 0 <= i < |rows| => if rows[i].id == id then WithStatus(rows[i], s) else rows[i])
  }

  function NotId(id: nat): SellerRow -> bool {
    (b: SellerRow) => b.id != id
  }

  /** `bs.filter(b => b.id !== id)` */
  function RemoveId(rows: seq<SellerRow>, id: nat): seq<SellerRow> {
    Filter(rows, NotId(id))
  }

  /**
    A status update touches exactly the rows with that id: they take the new
    status and keep everything else, every other row is unchanged, and
    applying it twice is the same as once.
  */
  lemma ApplyStatusSpec(rows: seq<SellerRow>, id: nat, s: string)
    ensures forall i :: 0 <= i < |rows| ==> ApplyStatus(rows, id, s)[i].status == (if rows[i].id == id then s else rows[i].status)
    ensures forall i :: 0 <= i < |rows| ==> KeyOf(ApplyStatus(rows, id, s)[i]) == KeyOf(rows[i])
    ensures forall i :: 0 <= i < |rows| ==> ApplyStatus(rows, id, s)[i] == rows[i].(status := ApplyStatus(rows, id, s)[i].status)
    ensures ApplyStatus(ApplyStatus(rows, id, s), id, s) == ApplyStatus(rows, id, s)
  {
  }

  /** Two updates to the same status commute, so the order in which a batch's responses arrive does not matter. */
  lemma StatusUpdatesCommute(rows: seq<SellerRow>, a: nat, b: nat, s: string)
    ensures ApplyStatus(ApplyStatus(rows, a, s), b, s) == ApplyStatus(ApplyStatus(rows, b, s), a, s)
  {
  }

  /** A delete keeps exactly the rows with another id, and repeating it changes nothing. */
  lemma RemoveIdSpec(rows: seq<SellerRow>, id: nat)
    ensures forall b :: b in RemoveId(rows, id) <==> b in rows && b.id != id
    ensures RemoveId(RemoveId(rows, id), id) == RemoveId(rows, id)
  {
    FilterFilter(rows, NotId(id), NotId(id));
  }

  // ---------------------------------------------------------------- single-row handlers

  /** `setBusy(id, busy)` */
  function SetBusy(p: Page, id: nat, busy: bool): Page {
    p.(busy := p.busy[id := busy])
  }

  /**
    `handleStatus(id, newStatus)` from the click to the `finally`: the row
    takes the new status only if the request succeeded (`ok`); the busy flag
    is set for the request and cleared afterwards either way.
  */
  function HandleStatus(p: Page, id: nat, s: string, ok: bool): (q: Page)
    ensures !IsBusy(q.busy, id)
    ensures forall other :: other != id ==> IsBusy(q.busy, other) == IsBusy(p.busy, other)
    ensures ok ==> q.bookings == ApplyStatus(p.bookings, id, s)
    ensures !ok ==> q.bookings == p.bookings
    ensures q.loading == p.loading
  {
    var sent := SetBusy(p, id, true);
    var landed := if ok then sent.(bookings := ApplyStatus(sent.bookings, id, s)) else sent;
    SetBusy(landed, id, false)
  }

  /**
    `handleDelete(id)`: nothing happens unless the seller accepts the
    confirmation dialog; otherwise as `HandleStatus`, removing the row.
  */
  function HandleDelete(p: Page, id: nat, accepted: bool, ok: bool): (q: Page)
    ensures !accepted ==> q == p
    ensures accepted ==> !IsBusy(q.busy, id)
    ensures forall other :: other != id ==> IsBusy(q.busy, other) == IsBusy(p.busy, other)
    ensures accepted && ok ==> q.bookings == RemoveId(p.bookings, id)
    ensures !(accepted && ok) ==> q.bookings == p.bookings
  {
    if !accepted then p
    else
      var sent := SetBusy(p, id, true);
      var landed := if ok then sent.(bookings := RemoveId(sent.bookings, id)) else sent;
      SetBusy(landed, id, false)
  }

  // ---------------------------------------------------------------- batch buttons

  /** The four batch buttons, in the order the card lays them out. */
  datatype Action = ConfirmAll | CompleteAll | CancelAll | DeleteAll

  predicate AllHave(rows: seq<SellerRow>, s: string) {
    forall i :: 0 <= i < |rows| ==> rows[i].status == s
  }

  predicate SomeHas(rows: seq<SellerRow>, s: string) {
    exists i :: 0 <= i < |rows| && rows[i].status == s
  }

  /** `g.bookings.every(b => ["completed", "canceled"].includes(b.status))` */
  predicate AllClosed(rows: seq<SellerRow>) {
    forall i :: 0 <= i < |rows| ==> rows[i].status == "completed" || rows[i].status == "canceled"
  }

  /** Which buttons a card shows, in order. */
  function Actions(rows: seq<SellerRow>): seq<Action> {
    (if AllHave(rows, "pending") then [ConfirmAll] else [])
    + (if AllHave(rows, "confirmed") then [CompleteAll] else [])
    + (if SomeHas(rows, "pending") || SomeHas(rows, "confirmed") then [CancelAll] else [])
    + (if AllClosed(rows) then [DeleteAll] else [])
  }

  /** The four statuses the page knows; the local "canceled" is the one the server never stores. */
  predicate KnownStatuses(rows: seq<SellerRow>) {
    forall i :: 0 <= i < |rows| ==> rows[i].status in ["pending", "confirmed", "completed", "canceled"]
  }

  /**
    The buttons of a non-empty card with known statuses: all pending gives
    Confirm All and Cancel All; all confirmed gives Complete All and Cancel
    All; all completed or canceled gives only Delete All; any other mix
    gives only Cancel All. In particular a card never offers both Confirm
    All and Complete All, and it offers Cancel All exactly when it does not
    offer Delete All.
  */
  lemma ActionsByStatus(rows: seq<SellerRow>)
    requires rows != [] && KnownStatuses(rows)
    ensures AllHave(rows, "pending") ==> Actions(rows) == [ConfirmAll, CancelAll]
    ensures AllHave(rows, "confirmed") ==> Actions(rows) == [CompleteAll, CancelAll]
    ensures AllClosed(rows) ==> Actions(rows) == [DeleteAll]
    ensures !AllHave(rows, "pending") && !AllHave(rows, "confirmed") && !AllClosed(rows) ==> Actions(rows) == [CancelAll]
    ensures CancelAll in Actions(rows) <==> DeleteAll !in Actions(rows)
    ensures !(ConfirmAll in Actions(rows) && CompleteAll in Actions(rows))
  {
    var r0 := rows[0];
    assert r0.status in ["pending", "confirmed", "completed", "canceled"];
    if AllClosed(rows) {
      assert !SomeHas(rows, "pending") && !SomeHas(rows, "confirmed");
      assert !AllHave(rows, "pending") && !AllHave(rows, "confirmed");
    } else {
      var i :| 0 <= i < |rows| && rows[i].status != "completed" && rows[i].status != "canceled";
      assert rows[i].status in ["pending", "confirmed", "completed", "canceled"];
      assert SomeHas(rows, "pending") || SomeHas(rows, "confirmed");
    }
    if AllHave(rows, "pending") {
      assert rows[0].status != "confirmed";
    }
  }

  /** An empty row list would show Confirm All, Complete All and Delete All at once; grouping never makes one. */
  lemma EmptyGroupWouldShowThree()
    ensures Actions([]) == [ConfirmAll, CompleteAll, DeleteAll]
  {
  }

  /** `g.bookings.some(b => actionLoading[b.id])` */
  predicate BusyAny(busy: map<nat, bool>, rows: seq<SellerRow>) {
    exists i :: 0 <= i < |rows| && IsBusy(busy, rows[i].id)
  }

  datatype Button = Button(action: Action, disabled: bool, caption: string)

  function Label(a: Action): string {
    match a
    case ConfirmAll => "Confirm All"
    case CompleteAll => "Complete All"
    case CancelAll => "Cancel All"
    case DeleteAll => "Delete All"
  }

  /** The card's buttons: disabled and showing "…" while any of its rows has a request in flight. */
  function Buttons(rows: seq<SellerRow>, busy: map<nat, bool>): (r: seq<Button>)
    ensures |r| == |Actions(rows)|
    ensures forall i :: 0 <= i < |r| ==> r[i].action == Actions(rows)[i]
    ensures forall i :: 0 <= i < |r| ==> (r[i].disabled <==> BusyAny(busy, rows))
    ensures forall i :: 0 <= i < |r| ==> r[i].caption == if BusyAny(busy, rows) then "…" else Label(r[i].action)
  {
    var acts := Actions(rows);
    var b := BusyAny(busy, rows);
    seq(|acts|, i requires 0 <= i < |acts| => Button(acts[i], b, if b then "…" else Label(acts[i])))
  }

  /** Marks every id busy, as the `forEach` of a batch button does before any response arrives. */
  function MarkAll(busy: map<nat, bool>, ids: seq<nat>): (r: map<nat, bool>)
    ensures forall id :: IsBusy(r, id) <==> id in ids || IsBusy(busy, id)
    decreases |ids|
  {
    if ids == [] then busy else MarkAll(busy[ids[0] := true], ids[1..])
  }

  /** Clears the busy flag of every id, as each response's `finally` does. */
  function ClearAll(busy: map<nat, bool>, ids: seq<nat>): (r: map<nat, bool>)
    ensures forall id :: IsBusy(r, id) <==> id !in ids && IsBusy(busy, id)
    decreases |ids|
  {
    if ids == [] then busy else ClearAll(busy[ids[0] := false], ids[1..])
  }

  /**
    The rows after the responses of one status request per id in `ids`,
    the ones in `failed` having failed.
  */
  function ApplyAll(rows: seq<SellerRow>, ids: seq<nat>, s: string, failed: set<nat>): (r: seq<SellerRow>)
    ensures |r| == |rows|
    ensures forall i :: 0 <= i < |rows| ==>
      r[i] == if rows[i].id in ids && rows[i].id !in failed then WithStatus(rows[i], s) else rows[i]
    decreases |ids|
  {
    if ids == [] then rows
    else
      var step := if ids[0] in failed then rows else ApplyStatus(rows, ids[0], s);
      ApplyAll(step, ids[1..], s, failed)
  }

  /**
    A batch status button (Confirm All, Complete All, Cancel All) from the
    click until every response has arrived: every request is sent first,
    which disables the card, and each success updates its row locally.
  */
  function BatchSent(p: Page, g: Group): Page {
    p.(busy := MarkAll(p.busy, Ids(g.rows)))
  }

  function BatchStatus(p: Page, g: Group, s: string, failed: set<nat>): (q: Page)
    ensures |q.bookings| == |p.bookings|
    ensures forall i :: 0 <= i < |p.bookings| ==>
      q.bookings[i] == if p.bookings[i].id in Ids(g.rows) && p.bookings[i].id !in failed then WithStatus(p.bookings[i], s) else p.bookings[i]
    ensures forall id :: IsBusy(q.busy, id) <==> id !in Ids(g.rows) && IsBusy(p.busy, id)
  {
    var sent := BatchSent(p, g);
    sent.(bookings := ApplyAll(sent.bookings, Ids(g.rows), s, failed), busy := ClearAll(sent.busy, Ids(g.rows)))
  }

  /** While a batch is in flight, every button of the card is disabled. */
  lemma BatchDisablesCard(p: Page, g: Group)
    requires g.rows != []
    ensures var b := Buttons(g.rows, BatchSent(p, g).busy);
      forall i :: 0 <= i < |b| ==> b[i].disabled && b[i].caption == "…"
  {
    assert Ids(g.rows)[0] == g.rows[0].id;
    assert IsBusy(BatchSent(p, g).busy, g.rows[0].id);
  }

  /**
    After a batch whose requests all succeed, every row of the card's key
    holds the new status. The card keeps its place, because statuses are not
    part of the key.
  */
  lemma BatchMakesCardUniform(p: Page, j: nat, s: string)
    requires j < |GroupRows(p.bookings)|
    ensures var g := GroupRows(p.bookings)[j];
      var after := GroupRows(BatchStatus(p, g, s, {}).bookings);
      && j < |after| && after[j].key == g.key && AllHave(after[j].rows, s)
  {
    var rows := p.bookings;
    var g := GroupRows(rows)[j];
    var rows' := BatchStatus(p, g, s, {}).bookings;
    var after := GroupRows(rows');
    assert j < |after| && after[j].key == g.key by {
      StatusChangesKeepGroups(rows, rows');
      assert GroupKeys(after)[j] == GroupKeys(GroupRows(rows))[j];
    }
    assert g.rows == Filter(rows, WithKey(g.key)) by {
      GroupRowsCorrect(rows);
    }
    assert after[j].rows == Filter(rows', WithKey(g.key)) by {
      GroupRowsCorrect(rows');
    }
    BatchedKeyAllHave(p, g, s);
  }

  /** Every row of the card's key holds the new status after a batch without failures. */
  lemma BatchedKeyAllHave(p: Page, g: Group, s: string)
    requires g.rows == Filter(p.bookings, WithKey(g.key))
    ensures AllHave(Filter(BatchStatus(p, g, s, {}).bookings, WithKey(g.key)), s)
  {
    var rows' := BatchStatus(p, g, s, {}).bookings;
    var xs := Filter(rows', WithKey(g.key));
    forall i | 0 <= i < |xs| ensures xs[i].status == s {
      assert xs[i] in xs;
      var k :| 0 <= k < |rows'| && rows'[k] == xs[i];
      BatchedRow(p, g, s, k);
    }
  }

  /** A row of the card's key was part of the batch, so a batch without failures gave it the new status. */
  lemma BatchedRow(p: Page, g: Group, s: string, k: nat)
    requires k < |p.bookings|
    requires g.rows == Filter(p.bookings, WithKey(g.key))
    requires KeyOf(BatchStatus(p, g, s, {}).bookings[k]) == g.key
    ensures BatchStatus(p, g, s, {}).bookings[k].status == s
  {
    var rows := p.bookings;
    assert KeyOf(rows[k]) == g.key;
    assert rows[k] in g.rows;
    var m :| 0 <= m < |g.rows| && g.rows[m] == rows[k];
    assert Ids(g.rows)[m] == rows[k].id;
  }

  /** After Confirm All succeeds for every row, the card offers Complete All and Cancel All. */
  lemma ConfirmAllLeadsToCompleteAll(p: Page, j: nat)
    requires j < |GroupRows(p.bookings)|
    ensures var g := GroupRows(p.bookings)[j];
      var after := GroupRows(BatchStatus(p, g, "confirmed", {}).bookings);
      j < |after| && Actions(after[j].rows) == [CompleteAll, CancelAll]
  {
    var g := GroupRows(p.bookings)[j];
    var rows' := BatchStatus(p, g, "confirmed", {}).bookings;
    BatchMakesCardUniform(p, j, "confirmed");
    GroupRowsCorrect(rows');
    ActionsByStatus(GroupRows(rows')[j].rows);
  }

  /**
    After Cancel All succeeds for every row, the server has deleted the rows
    but the page keeps them locally as "canceled": the card stays and now
    offers only Delete All.
  */
  lemma CancelAllLeavesDeleteAll(p: Page, j: nat)
    requires j < |GroupRows(p.bookings)|
    ensures var g := GroupRows(p.bookings)[j];
      var after := GroupRows(BatchStatus(p, g, "canceled", {}).bookings);
      j < |after| && after[j].key == g.key && Actions(after[j].rows) == [DeleteAll]
  {
    var g := GroupRows(p.bookings)[j];
    var rows' := BatchStatus(p, g, "canceled", {}).bookings;
    BatchMakesCardUniform(p, j, "canceled");
    GroupRowsCorrect(rows');
    ActionsByStatus(GroupRows(rows')[j].rows);
  }

  // ---------------------------------------------------------------- render

  const DefaultAvatar: string := "default-profile.png"

  /** Every menu line of the group's rows, rows in order. */
  function GroupItems(rows: seq<SellerRow>): seq<MenuLine> {
    AllItems(seq(|rows|, i requires 0 <= i < |rows| => rows[i].menuItems))
  }

  datatype GroupCard = GroupCard(
    key: GroupKey,
    contact: Contact,
    avatar: string,
    start: string,
    end: string,
    tables: nat,
    seats: int,
    items: seq<MenuLine>,
    buttons: seq<Button>)

  /** The card of one group; `None` when formatting one of its times throws. */
  function CardOf(g: Group, busy: map<nat, bool>): (r: Option<GroupCard>)
    ensures r.None? <==> FormatTime(g.start).None? || FormatTime(g.end).None?
  {
    match (FormatTime(g.start), FormatTime(g.end))
    case (Some(s), Some(e)) =>
      Some(GroupCard(g.key, g.contact, ImageOr(g.contact.imageUrl, DefaultAvatar), s, e,
                     |g.rows|, Seats(g.rows), Merge(GroupItems(g.rows)), Buttons(g.rows, busy)))
    case _ => None
  }

  /** The cards of all groups, in order; `None` when any card throws. */
  function CardsOf(groups: seq<Group>, busy: map<nat, bool>): Option<seq<GroupCard>> {
    MapAll(groups, (g: Group) => CardOf(g, busy))
  }

  /** Formatting the times of some group's card throws. */
  predicate SomeCardThrows(groups: seq<Group>, busy: map<nat, bool>) {
    exists j :: 0 <= j < |groups| && CardOf(groups[j], busy).None?
  }

  /** The list of cards is missing exactly when one card throws. */
  lemma CardsOfThrow(groups: seq<Group>, busy: map<nat, bool>)
    ensures CardsOf(groups, busy).None? <==> SomeCardThrows(groups, busy)
  {
    if SomeCardThrows(groups, busy) {
      var j :| 0 <= j < |groups| && CardOf(groups[j], busy).None?;
      assert ((g: Group) => CardOf(g, busy))(groups[j]).None?;
    }
  }

  datatype Screen = Loading | NoBookings | Cards(cards: seq<GroupCard>) | Crashed

  /** The render: loading first, then the empty-list line, then one card per group. */
  function Render(p: Page): (s: Screen)
    ensures p.loading <==> s == Loading
    ensures s == NoBookings <==> !p.loading && p.bookings == []
    ensures s == Crashed <==> !p.loading && p.bookings != [] && SomeCardThrows(GroupRows(p.bookings), p.busy)
    ensures s.Cards? ==> |s.cards| == |GroupRows(p.bookings)|
    ensures s.Cards? ==> forall j :: 0 <= j < |s.cards| ==>
      CardOf(GroupRows(p.bookings)[j], p.busy).Some? && s.cards[j] == CardOf(GroupRows(p.bookings)[j], p.busy).value
  {
    if p.loading then Loading
    else if |p.bookings| == 0 then NoBookings
    else
      CardsOfThrow(GroupRows(p.bookings), p.busy);
      match CardsOf(GroupRows(p.bookings), p.busy)
      case Some(cs) => Cards(cs)
      case None => Crashed
  }

  /** The page never shows an error: a failed fetch leaves the list empty, so it reads "No incoming bookings yet.". */
  lemma FailedLoadLooksEmpty()
    ensures Render(Settle(Initial(), Failed)) == NoBookings
    ensures Render(Settle(Initial(), Answered(None))) == NoBookings
    ensures Render(Initial()) == Loading
  {
  }

  /** What a visit ends in: without a token the page navigates to `/login` and never fetches. */
  datatype Visit = ToLogin(page: Page) | Stayed(page: Page)

  function Open(token: Option<string>, f: Fetch): Visit {
    if token.None? || token.value == "" then ToLogin(Initial()) else Stayed(Settle(Initial(), f))
  }

  /**
    Without a token the loading line stays up while the page navigates away.
    With one, a failed fetch and an answer without rows both end on the
    empty-list line, and an answer with rows ends on one card per group of
    those rows, no button disabled.
  */
  lemma VisitOutcome(token: Option<string>, f: Fetch)
    ensures Open(token, f).ToLogin? <==> token.None? || token.value == ""
    ensures Open(token, f).ToLogin? ==> Render(Open(token, f).page) == Loading
    ensures Open(token, f).Stayed? ==>
      (Render(Open(token, f).page) == NoBookings <==> f.Failed? || f.data.None? || f.data.value == [])
    ensures Open(token, f).Stayed? && Render(Open(token, f).page).Cards? ==>
      f.Answered? && f.data.Some? &&
      |Render(Open(token, f).page).cards| == |GroupRows(f.data.value)| &&
      forall j :: 0 <= j < |Render(Open(token, f).page).cards| ==>
        forall i :: 0 <= i < |Render(Open(token, f).page).cards[j].buttons| ==>
          !Render(Open(token, f).page).cards[j].buttons[i].disabled
    ensures Open(token, f).Stayed? && f.Answered? && f.data.Some? && f.data.value != [] ==>
      && (Render(Open(token, f).page).Cards? || Render(Open(token, f).page) == Crashed)
      && (Render(Open(token, f).page) == Crashed <==> SomeCardThrows(GroupRows(f.data.value), map[]))
  {
    var v := Open(token, f);
    if v.Stayed? && Render(v.page).Cards? {
      var cards := Render(v.page).cards;
      var groups := GroupRows(v.page.bookings);
      forall j | 0 <= j < |cards| ensures forall i :: 0 <= i < |cards[j].buttons| ==> !cards[j].buttons[i].disabled {
        assert cards[j] == CardOf(groups[j], map[]).value;
        assert !BusyAny(map[], groups[j].rows);
      }
    }
  }

  function TablesOnCards(cards: seq<GroupCard>): nat
    decreases |cards|
  {
    if cards == [] then 0 else TablesOnCards(cards[..|cards| - 1]) + cards[|cards| - 1].tables
  }

  function SeatsOnCards(cards: seq<GroupCard>): int
    decreases |cards|
  {
    if cards == [] then 0 else SeatsOnCards(cards[..|cards| - 1]) + cards[|cards| - 1].seats
  }

  lemma {:induction false} CardTotalsAreGroupTotals(groups: seq<Group>, cards: seq<GroupCard>)
    requires |cards| == |groups|
    requires forall j :: 0 <= j < |groups| ==> cards[j].tables == |groups[j].rows| && cards[j].seats == Seats(groups[j].rows)
    ensures TablesOnCards(cards) == TablesOver(groups) && SeatsOnCards(cards) == SeatsOver(groups)
    decreases |groups|
  {
    if groups != [] {
      var n := |groups| - 1;
      assert forall j :: 0 <= j < n ==> groups[..n][j] == groups[j] && cards[..n][j] == cards[j];
      CardTotalsAreGroupTotals(groups[..n], cards[..n]);
    }
  }

  /** A card shows its group's number of bookings and their seats. */
  lemma CardCounts(g: Group, busy: map<nat, bool>)
    requires CardOf(g, busy).Some?
    ensures CardOf(g, busy).value.tables == |g.rows| && CardOf(g, busy).value.seats == Seats(g.rows)
  {
  }

  /**
    The "Total tables" of all cards add up to the number of bookings on the
    page, and their "Total seats" to the seats of all bookings.
  */
  lemma CardsCountEveryBooking(p: Page)
    requires Render(p).Cards?
    ensures TablesOnCards(Render(p).cards) == |p.bookings|
    ensures SeatsOnCards(Render(p).cards) == Seats(p.bookings)
  {
    var groups := GroupRows(p.bookings);
    var cards := Render(p).cards;
    forall j | 0 <= j < |groups| ensures cards[j].tables == |groups[j].rows| && cards[j].seats == Seats(groups[j].rows) {
      CardCounts(groups[j], p.busy);
    }
    CardTotalsAreGroupTotals(groups, cards);
    TotalsCoverAllRows(p.bookings);
  }
}
