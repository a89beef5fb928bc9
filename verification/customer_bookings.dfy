/**
  The customer's "Your Bookings" page. It fetches the customer's rows once,
  then shows a loading line, an error line, an empty-list line or one card per
  row, in that order of priority. A card shows the restaurant, the date and
  the formatted window, a coloured status badge, the pre-ordered items with
  their total, the table, and the special requests when there are any.
*/
module CustomerBookings {
  import opened Common
  import opened TimeFormat
  import opened MenuLines

  /**
    One row of `GET /customers/bookings`. Times are `None` for `null`;
    `specialRequests` is `None` for `null`.
  */
  datatype CustomerRow = CustomerRow(
    id: nat,
    restaurantName: string,
    date: string,
    start: Option<string>,
    end: Option<string>,
    tableNumber: string,
    capacity: int,
    menuItems: seq<MenuLine>,
    specialRequests: Option<string>,
    status: string)

  /** The badge colours of the status pill. */
  datatype Badge = Blue | Yellow | Green | Red

  /** The pill colour: blue, yellow and green for the three known statuses, red for anything else. */
  function BadgeFor(status: string): Badge {
    if status == "confirmed" then Blue
    else if status == "pending" then Yellow
    else if status == "completed" then Green
    else Red
  }

  /** The Tailwind classes each colour stands for. */
  function BadgeClasses(b: Badge): string {
    match b
    case Blue => "bg-blue-100 text-blue-800"
    case Yellow => "bg-yellow-100 text-yellow-800"
    case Green => "bg-green-100 text-green-800"
    case Red => "bg-red-100 text-red-800"
  }

  /** The status a non-red badge stands for. */
  function StatusOf(b: Badge): Option<string> {
    match b
    case Blue => Some("confirmed")
    case Yellow => Some("pending")
    case Green => Some("completed")
    case Red => None
  }

  /**
    The badge tells the three known statuses apart and lumps every other
    status into red: reading a badge back gives the status exactly when it is
    one of the three.
  */
  lemma BadgeReadsBack(status: string)
    ensures StatusOf(BadgeFor(status)) == Some(status) <==> status in ["confirmed", "pending", "completed"]
    ensures BadgeFor(status) == Red <==> StatusOf(BadgeFor(status)).None?
  {
  }

  /** Different colours use different classes, so the page never shows two colours alike. */
  lemma BadgeClassesDistinct(a: Badge, b: Badge)
    ensures BadgeClasses(a) == BadgeClasses(b) <==> a == b
  {
    if a != b {
      assert BadgeClasses(a)[3] != BadgeClasses(b)[3];
    }
  }

  const DefaultItemImage: string := "default-menu-item.png"

  datatype ItemCard = ItemCard(name: string, quantity: int, lineTotal: int, image: string)

  /** The pre-order section: one tile per item and the footer total. */
  datatype PreOrder = PreOrder(tiles: seq<ItemCard>, total: int)

  datatype Card = Card(
    key: nat,
    restaurant: string,
    when: string,
    badge: Badge,
    status: string,
    preOrder: Option<PreOrder>,
    table: string,
    capacity: int,
    notes: Option<string>)

  /** `${date} @ ${start}–${end}` (an en dash between the two times). */
  function When(date: string, start: string, end: string): string {
    date + " @ " + start + ['\U{2013}'] + end
  }

  function Tile(mi: MenuLine): ItemCard {
    ItemCard(mi.name, mi.quantity, LineTotal(mi), ImageOr(mi.imageUrl, DefaultItemImage))
  }

  /** One tile per item, in order. */
  function Tiles(items: seq<MenuLine>): (r: seq<ItemCard>)
    ensures |r| == |items|
  {
    seq(|items|, i requires 0 <= i < |items| => Tile(items[i]))
  }

  /** The card of one row; `None` when formatting one of its times throws. */
  function CardFor(b: CustomerRow): (r: Option<Card>)
    ensures r.None? <==> FormatTime(b.start).None? || FormatTime(b.end).None?
    ensures r.Some? ==> r.value.key == b.id && r.value.badge == BadgeFor(b.status) && r.value.status == b.status
    ensures r.Some? ==> r.value.when == When(b.date, FormatTime(b.start).value, FormatTime(b.end).value)
    ensures r.Some? ==> (r.value.preOrder.Some? <==> |b.menuItems| > 0)
    ensures r.Some? && r.value.preOrder.Some? ==>
      r.value.preOrder.value.total == Total(b.menuItems) && r.value.preOrder.value.tiles == Tiles(b.menuItems)
    ensures r.Some? ==> (r.value.notes.Some? <==> b.specialRequests.Some? && b.specialRequests.value != "")
  {
    match (FormatTime(b.start), FormatTime(b.end))
    case (Some(s), Some(e)) =>
      var tiles := Tiles(b.menuItems);
      var notes := if b.specialRequests.Some? && b.specialRequests.value != "" then b.specialRequests else None;
      Some(Card(b.id, b.restaurantName, When(b.date, s, e), BadgeFor(b.status), b.status,
                if |b.menuItems| > 0 then Some(PreOrder(tiles, Total(b.menuItems))) else None,
                b.tableNumber, b.capacity, notes))
    case _ => None
  }

  /** The footer total of a card is the sum of its tiles' line totals. */
  function TileSum(tiles: seq<ItemCard>): int
    decreases |tiles|
  {
    if tiles == [] then 0 else TileSum(tiles[..|tiles| - 1]) + tiles[|tiles| - 1].lineTotal
  }

  /**
    Tile `i` shows item `i`: its name, its quantity, price times quantity,
    and its own picture unless the URL is absent or empty, when the default
    item picture stands in.
  */
  lemma TileShowsItem(items: seq<MenuLine>, i: nat)
    requires i < |items|
    ensures var t := Tiles(items)[i];
      && t.name == items[i].name && t.quantity == items[i].quantity
      && t.lineTotal == items[i].price * items[i].quantity
      && (t.image == DefaultItemImage || Some(t.image) == items[i].imageUrl)
      && (t.image == DefaultItemImage <== items[i].imageUrl.None? || items[i].imageUrl.value == "")
      && (t.image == items[i].imageUrl.value <== items[i].imageUrl.Some? && items[i].imageUrl.value != "")
  {
    TimesIsProduct(items[i].price, items[i].quantity);
  }

  lemma {:induction false} TotalIsSumOfTiles(items: seq<MenuLine>)
    ensures TileSum(Tiles(items)) == Total(items)
    decreases |items|
  {
    if items != [] {
      var init := items[..|items| - 1];
      var tiles := Tiles(items);
      assert tiles[..|tiles| - 1] == Tiles(init);
      TotalIsSumOfTiles(init);
    }
  }

  /** A card's footer shows the sum of the amounts on its tiles. */
  lemma CardTotalMatchesTiles(b: CustomerRow)
    requires CardFor(b).Some? && CardFor(b).value.preOrder.Some?
    ensures var p := CardFor(b).value.preOrder.value; p.total == TileSum(p.tiles)
  {
    TotalIsSumOfTiles(b.menuItems);
  }

  /** The cards of all rows, in order; `None` when any card throws. */
  function Cards(bs: seq<CustomerRow>): Option<seq<Card>> {
    MapAll(bs, CardFor)
  }

  /** The page's state: `loading`, `error` ("" when none) and `bookings`. */
  datatype Page = Page(loading: bool, error: string, bookings: seq<CustomerRow>)

  /** The state on first render. */
  function Initial(): Page {
    Page(true, "", [])
  }

  /** What the fetch did: answered with `res.data.data` (`None` when falsy), or failed. */
  datatype Fetch = Answered(data: Option<seq<CustomerRow>>) | Failed

  const LoadError: string := "Failed to load your bookings."

  /** The `then`/`catch`/`finally` chain of the fetch. */
  function Settle(p: Page, f: Fetch): Page {
    match f
    case Answered(data) => p.(bookings := data.GetOr([]), loading := false)
    case Failed => p.(error := LoadError, loading := false)
  }

  /** What a visit ends in: without a token the page navigates to `/login` and never fetches. */
  datatype Visit = ToLogin(page: Page) | Stayed(page: Page)

  function Open(token: Option<string>, f: Fetch): Visit {
    if token.None? || token.value == "" then ToLogin(Initial()) else Stayed(Settle(Initial(), f))
  }

  datatype Screen = Loading | ErrorLine(message: string) | NoBookings | List(cards: seq<Card>) | Crashed

  /** The render: loading first, then the error, then the empty list, then the cards. */
  function Render(p: Page): (s: Screen)
    ensures p.loading <==> s == Loading
    ensures s.ErrorLine? <==> !p.loading && p.error != ""
    ensures s.ErrorLine? ==> s.message == p.error
    ensures s == NoBookings <==> !p.loading && p.error == "" && p.bookings == []
    ensures s.List? ==> |s.cards| == |p.bookings| && forall i :: 0 <= i < |p.bookings| ==> CardFor(p.bookings[i]).Some? && s.cards[i] == CardFor(p.bookings[i]).value
    ensures s == Crashed <==> !p.loading && p.error == "" && p.bookings != [] &&
                              exists i :: 0 <= i < |p.bookings| && CardFor(p.bookings[i]).None?
  {
    if p.loading then Loading
    else if p.error != "" then ErrorLine(p.error)
    else if |p.bookings| == 0 then NoBookings
    else match Cards(p.bookings)
      case Some(cs) => List(cs)
      case None => Crashed
  }

  /**
    After a visit with a token the page is never stuck loading: a failed
    fetch shows the fixed error line, an answer without rows shows the
    empty-list line, and an answer with rows shows their cards. Without a
    token the loading line stays up while the page navigates away.
  */
  lemma VisitOutcome(token: Option<string>, f: Fetch)
    ensures Open(token, f).ToLogin? <==> token.None? || token.value == ""
    ensures Open(token, f).ToLogin? ==> Render(Open(token, f).page) == Loading
    ensures Open(token, f).Stayed? && f.Failed? ==> Render(Open(token, f).page) == ErrorLine(LoadError)
    ensures Open(token, f).Stayed? && f.Answered? ==>
      (Render(Open(token, f).page) == NoBookings <==> f.data.None? || f.data.value == [])
    ensures Open(token, f).Stayed? && f.Answered? && f.data.Some? && f.data.value != [] ==>
      Render(Open(token, f).page) == (if Cards(f.data.value).Some? then List(Cards(f.data.value).value) else Crashed)
  {
  }

  /** Rows whose times are "HH:MM[:SS]" or null always render: the page only crashes on a non-empty time without ':'. */
  lemma WellShapedRowsRender(bs: seq<CustomerRow>)
    requires bs != []
    requires forall i :: 0 <= i < |bs| ==> (bs[i].start.None? || WellShaped(bs[i].start.value))
    requires forall i :: 0 <= i < |bs| ==> (bs[i].end.None? || WellShaped(bs[i].end.value))
    ensures Render(Page(false, "", bs)).List?
  {
    forall i | 0 <= i < |bs| ensures CardFor(bs[i]).Some? {
      assert bs[i].start.None? || bs[i].start.value[2] == ':';
      assert bs[i].end.None? || bs[i].end.value[2] == ':';
    }
  }
}
