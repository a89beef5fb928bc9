# Bite-Map bookings, modelled in Dafny

Bite-Map is a restaurant-discovery web application. In it, customers reserve
tables and optionally pre-order menu items. Restaurant owners (sellers) then
confirm, complete, cancel or delete those reservations. This project models
the booking core of that application and proves properties of the model:

- **The booking controller.** This is the server, written with Express and
  MySQL. It covers:
  - `createBooking`: an ordered chain of validations, a conflict check against
    confirmed rows, and a transaction that inserts one `pending` row per table
    and notifies the owner.
  - `updateBookingStatus`: four accepted statuses. "canceled" deletes the row,
    and "confirmed" notifies the customer.
  - `deleteBooking`: deletion scoped by role.
- **`constructImageUrl`.** This server helper turns a stored image path into a
  URL under `/uploads/`, or into a default image when there is no path.
- **The seller's "Incoming Bookings" page.** It covers:
  - grouping rows into cards by customer, date and time window;
  - the table and seat totals of each card;
  - the merged pre-order list of each card;
  - the per-row busy flags;
  - the single-row status and delete handlers;
  - the four batch buttons;
  - the 12-hour time formatter.
- **The customer's "Your Bookings" page.** It covers:
  - the order of priority between loading, error, empty list and cards;
  - each card: the status badge, the pre-order tiles and total, and the notes
    line;
  - the same time formatter.

The database is an immutable `State`: booking rows, notifications, the table
and menu directories, restaurant owners, and the next auto-increment id. Every
controller action is a pure function from a state and a request to a response
and a new state. Storage failures are an explicit `fault` parameter, which
names the statement that raises. The two pages are modelled in the same way:
React state becomes a value, and each handler becomes a function from a page
and the result of its HTTP call to the next page.

## Modules

| file | module | what it holds |
|---|---|---|
| `common.dfy` | `Common` | `Option`, order-preserving `Filter`, `Dedup`, `FirstIndex`, `MapAll`, with their lemmas |
| `booking_model.dfy` | `BookingModel` | rows, state, errors and HTTP codes, the overlap test, the "no two confirmed rows overlap" invariant |
| `create_booking.dfy` | `Creation` | `createBooking` step by step |
| `booking_status.dfy` | `BookingStatus` | `updateBookingStatus` and `deleteBooking` |
| `double_booking.dfy` | `DoubleBooking` | a concrete run that ends with two confirmed, overlapping rows on one table |
| `image_url.dfy` | `ImageUrl` | `constructImageUrl` and POSIX `path.basename` |
| `menu_lines.dfy` | `MenuLines` | pre-ordered menu lines, line amounts and totals |
| `menu_merge.dfy` | `MenuMerge` | the seller card's merge of menu lines by item id |
| `seller_groups.dfy` | `SellerGroups` | the seller page's grouping `reduce` and its totals |
| `seller_bookings.dfy` | `SellerBookings` | the seller page's state, handlers, batch buttons and render |
| `customer_bookings.dfy` | `CustomerBookings` | the customer page's state, badge, cards and render |
| `time_format.dfy` | `TimeFormat` | `formatTime`/`fmtTime`, `split`, `parseInt`, `%`, and the inverse formatter |

The engine does not keep its own invariant: no two confirmed rows on one
table may have overlapping windows on the same date. Creation checks a new
window only against confirmed rows, and it writes `pending` rows.
Confirmation writes the status without checking for overlap.
`DoubleBooking.OverlappingConfirmationsReachable` walks through such a run,
starting from an empty restaurant:

1. Two customers ask for overlapping windows on one table.
2. Both requests are accepted.
3. The owner confirms both.

The model follows the code here. The invariant is stated
(`BookingModel.NoConfirmedOverlap`), and every action except a confirmation
is proved to preserve it.

## Model

| member | source | states |
|---|---|---|
| BookingModel.OverlapsIffSharedMinute | server/controllers/bookingController.js:74-77 | for proper windows, the conflict condition `NOT (end1 <= start2 OR start1 >= end2)` holds exactly when some minute lies in both half-open windows |
| BookingModel.FilterKeepsInvariants | server/controllers/bookingController.js:378-390 | removing rows by any predicate, as a DELETE does, keeps booking ids unique and below the next id, and keeps confirmed rows free of overlap |
| Creation.TablesRequested | server/controllers/bookingController.js:25-29 | a non-empty `table_ids` wins; otherwise a truthy `table_id` gives one table; otherwise there are none |
| Creation.ValidTables | server/controllers/bookingController.js:51-56 | the table query returns each requested id that is a table of the restaurant, once |
| Creation.ValidTablesCount | server/controllers/bookingController.js:57-59 | the row count equals the request count exactly when the ids are distinct tables of the restaurant; the rows are then the request |
| Creation.ShapeError | server/controllers/bookingController.js:32-48 | a 400 exactly when a required field is missing, the end is not after the start, or the party size is not a positive integer |
| Creation.TableError | server/controllers/bookingController.js:50-65 | 404 exactly when the tables are not valid; otherwise 400 with the seat sum and party size exactly when the seats are too few |
| Creation.ConflictingTables | server/controllers/bookingController.js:68-79 | the conflict query names each table, once, that has a confirmed, overlapping row on the same date among the requested tables |
| Creation.ConflictError | server/controllers/bookingController.js:67-84 | a 409 exactly when some confirmed row on a requested table overlaps the window on that date, naming exactly those tables |
| Creation.ValidMenuItems | server/controllers/bookingController.js:92-96 | the menu query returns each requested item id on the restaurant's menu, once |
| Creation.ValidMenuItemsCount | server/controllers/bookingController.js:97-99 | the menu check passes exactly when the item ids are distinct items of this restaurant's menu |
| Creation.MenuError | server/controllers/bookingController.js:86-105 | non-array gives 400; foreign or repeated ids give 404; otherwise the first item with a bad quantity is named in a 400; an empty list passes |
| Creation.Validate | server/controllers/bookingController.js:23-114 | validation succeeds only when every check passes and the owner exists, and then yields the plan built from the request, the seat sum and the owner |
| Creation.Commit | server/controllers/bookingController.js:116-168 | a failing statement rolls back every row and notification with a 500, but the auto-increment ids taken by the row inserts that completed stay used; otherwise existing rows are kept and only pending rows are appended |
| Creation.CreateBooking | server/controllers/bookingController.js:9-176 | errors write no row or notification, and only a failed transaction advances the id counter; success reports the number of tables and appends one notification and one pending row per table |
| Creation.CreateOutcomeByCheck | server/controllers/bookingController.js:23-168 | the answer is the error of the first failing check, in the controller's order; the request succeeds exactly when all checks pass and the transaction does not fail |
| Creation.CreateSuccessChecks | server/controllers/bookingController.js:50-114 | a success means distinct valid tables, enough seats (reported as `totalSeats`), no conflict and an owner |
| Creation.CreateSuccessWrites | server/controllers/bookingController.js:116-158 | a success appends one pending row per table, numbered from the next id and carrying the request's fields, plus the owner's notification; nothing else changes |
| Creation.ShapeChecksPrecedeLookups | server/controllers/bookingController.js:31-48 | a malformed request gets the same 400 whatever the database holds |
| Creation.ValidateIgnoresUnconfirmed | server/controllers/bookingController.js:68-79 | dropping every non-confirmed row leaves the validation verdict unchanged |
| Creation.OnlyConfirmedRowsMatter | server/controllers/bookingController.js:67-84 | pending and completed rows never change the answer, and in particular never cause a 409 |
| Creation.CreateAddsNoConfirmedRow | server/controllers/bookingController.js:121-141 | the confirmed rows after creation are exactly those before it |
| Creation.CreatePreservesNoConfirmedOverlap | server/controllers/bookingController.js:121-141 | creation cannot make two confirmed rows overlap |
| Creation.CreatePreservesWellFormed | server/controllers/bookingController.js:121-141 | creation keeps booking ids unique and below the next auto-increment id |
| Creation.CreateNumbersRows | server/controllers/bookingController.js:121-141 | new rows take consecutive ids from the next id, which moves past them |
| BookingStatus.ParseStatus | server/controllers/bookingController.js:314-318 | exactly the four strings are accepted, each mapped to its own command |
| BookingStatus.RemoveBooking | server/controllers/bookingController.js:335-335 | the DELETE by id keeps exactly the rows with another id |
| BookingStatus.SetStatus | server/controllers/bookingController.js:340-343 | the UPDATE changes the status of the rows with that id, and only those |
| BookingStatus.UpdateBookingStatus | server/controllers/bookingController.js:309-363 | 400 exactly for an unknown status; 403 whenever no row with that id belongs to a restaurant the caller owns, and success only for such a row; only a confirmation adds a notification; directories and ids are untouched |
| BookingStatus.OwnerUpdateSucceeds | server/controllers/bookingController.js:316-343 | for a valid status and no storage fault, the answer is 403 exactly when no row with that id belongs to a restaurant the caller owns, and otherwise success with the requested command |
| BookingStatus.OwnerCancelDeletes | server/controllers/bookingController.js:328-337 | the owner's "canceled" with no fault succeeds and deletes exactly the rows with that id |
| BookingStatus.AnyStatusOverwritesAny | server/controllers/bookingController.js:339-343 | the owner can set any stored status from any status, with no transition graph, and only that row changes |
| BookingStatus.CancelDeletesRow | server/controllers/bookingController.js:333-337 | a successful "canceled" deletes the row with that id and keeps every other row |
| BookingStatus.ConfirmNotifiesCustomer | server/controllers/bookingController.js:345-356 | a successful confirmation appends one notification to the booking's customer, naming its date and time |
| BookingStatus.ConfirmWithoutNotification | server/controllers/bookingController.js:339-361 | if the notification insert fails, the caller gets a 500 but the row is already confirmed and nobody is notified |
| BookingStatus.UpdatePreservesWellFormed | server/controllers/bookingController.js:333-343 | any status change or cancellation keeps ids unique and bounded |
| BookingStatus.NonConfirmUpdatePreservesNoOverlap | server/controllers/bookingController.js:333-343 | setting pending or completed, or cancelling, cannot make confirmed rows overlap |
| BookingStatus.DeleteBooking | server/controllers/bookingController.js:370-401 | success exactly when some row matches the id and the caller's scope, and then exactly those rows go; otherwise a 404 (or a 500) and nothing changes |
| BookingStatus.DeleteIsRoleScoped | server/controllers/bookingController.js:377-390 | a customer only deletes their own row; any other role only deletes rows of restaurants it owns |
| BookingStatus.DeleteIgnoresStatus | server/controllers/bookingController.js:377-395 | the row's status never changes the answer of a delete |
| BookingStatus.DeletePreservesInvariants | server/controllers/bookingController.js:370-396 | deletion keeps ids unique and bounded and keeps confirmed rows free of overlap |
| DoubleBooking.AskAcceptedIffFree | server/controllers/bookingController.js:67-84 | a well-formed request for a table is accepted exactly when no confirmed row on it overlaps the window |
| DoubleBooking.AskRejectedWhenTaken | server/controllers/bookingController.js:80-84 | an overlapping confirmed row gives a 409 naming exactly that table |
| DoubleBooking.TouchingWindowsDoNotConflict | server/controllers/bookingController.js:74-77 | with 18:00-19:30 confirmed, 19:00-20:00 is refused and 19:30-20:30 is accepted |
| DoubleBooking.AskOutcome | server/controllers/bookingController.js:116-158 | an accepted single-table request reports one table and its seats, and appends one pending row and one notification |
| DoubleBooking.ConfirmingBothBreaksInvariant | server/controllers/bookingController.js:339-343 | confirming two overlapping rows on one table breaks the no-overlap invariant |
| DoubleBooking.BothAsksAccepted | server/controllers/bookingController.js:68-79 | a pending row does not block a second, overlapping request |
| DoubleBooking.BothConfirmed | server/controllers/bookingController.js:339-343 | the owner can confirm both overlapping rows, each confirmation succeeding |
| DoubleBooking.OverlappingConfirmationsReachable | server/controllers/bookingController.js:309-363 | from an empty book, two creations and two confirmations, all successful, end with two confirmed overlapping rows |
| ImageUrl.TrimTrailingSlashes | server/utils/helpers.js:23-23 | drops exactly the trailing '/' characters |
| ImageUrl.AfterLastSlash | server/utils/helpers.js:23-23 | the longest '/'-free suffix, preceded by a '/' when shorter than the text |
| ImageUrl.Basename | server/utils/helpers.js:23-23 | the basename has no '/' and is no longer than the path |
| ImageUrl.ReplaceBackslashes | server/utils/helpers.js:26-26 | same length; every '\\' becomes '/', every other character is kept |
| ImageUrl.ConstructImageUrl | server/utils/helpers.js:16-27 | every URL starts with the request's origin |
| ImageUrl.DefaultImages | server/utils/helpers.js:17-20 | a missing or empty path gives the restaurant default for type "restaurant" and the profile default otherwise, including an omitted type |
| ImageUrl.UploadedImage | server/utils/helpers.js:22-26 | a non-empty path is served from `/uploads/` under its basename, with backslashes turned into '/' |
| ImageUrl.BasenameIdempotent | server/utils/helpers.js:23-23 | taking the basename twice changes nothing |
| ImageUrl.UrlDependsOnBasename | server/utils/helpers.js:16-26 | a path and its basename give the same URL exactly when the basename is non-empty |
| ImageUrl.SlashesOnlyUrl | server/utils/helpers.js:17-26 | a path of only slashes is served as the bare `/uploads/`, not as a default image |
| ImageUrl.NoBackslashInUrl | server/utils/helpers.js:16-26 | when the origin has no backslash, neither has the URL |
| ImageUrl.BackslashParentSurvives | server/utils/helpers.js:22-26 | "..\\x.png" is served as `/uploads/../x.png`: the basename does not split on '\\' |
| MenuLines.TimesIsProduct | project/src/pages/CustomerBookingsPage.jsx:47-47 | the line amount by repeated addition is price times quantity |
| MenuLines.TotalAppend | project/src/pages/CustomerBookingsPage.jsx:46-48 | the total of two lists in sequence is the sum of their totals |
| MenuMerge.InsertLine | project/src/pages/SellerBookingsPage.jsx:129-135 | one entry keeps the lines sorted by id; it creates its id's line or adds to its quantity, and leaves every other id as it was |
| MenuMerge.Merge | project/src/pages/SellerBookingsPage.jsx:126-137 | the merged lines are sorted by id, and each is the first entry of its id carrying the sum of all that id's quantities |
| MenuMerge.MergeCoversIds | project/src/pages/SellerBookingsPage.jsx:126-137 | the merged lines carry exactly the ids of the entries |
| MenuMerge.MergeKeepsTotal | project/src/pages/SellerBookingsPage.jsx:126-137 | when each item has one price, the merged amounts add up to the amounts of all entries |
| SellerGroups.GroupRowsCorrect | project/src/pages/SellerBookingsPage.jsx:90-115 | the groups' keys are the rows' keys without repeats, in first-occurrence order; each group holds exactly its key's rows, in order, with the first row's details |
| SellerGroups.EveryRowInOneGroup | project/src/pages/SellerBookingsPage.jsx:90-115 | every row is in exactly one group, the one with its key |
| SellerGroups.GroupKeysDistinct | project/src/pages/SellerBookingsPage.jsx:98-111 | no two cards share a customer, date and window |
| SellerGroups.AddRowTotals | project/src/pages/SellerBookingsPage.jsx:91-113 | one reduce step adds one table and the row's seats to the sums over all groups |
| SellerGroups.TotalsCoverAllRows | project/src/pages/SellerBookingsPage.jsx:122-124 | the groups' table counts add up to the number of rows, and their seats to the seats of all rows |
| SellerGroups.StatusChangesKeepGroups | project/src/pages/SellerBookingsPage.jsx:92-97 | changing statuses keeps the same cards in the same order |
| SellerBookings.ApplyStatusSpec | project/src/pages/SellerBookingsPage.jsx:41-43 | only rows with that id take the new status, keeping every other field and their key; applying the update twice equals once |
| SellerBookings.StatusUpdatesCommute | project/src/pages/SellerBookingsPage.jsx:41-43 | two updates to one status commute, so the arrival order of a batch's responses does not matter |
| SellerBookings.RemoveIdSpec | project/src/pages/SellerBookingsPage.jsx:57-57 | the local delete keeps exactly the rows with another id, and is idempotent |
| SellerBookings.HandleStatus | project/src/pages/SellerBookingsPage.jsx:33-47 | the status changes locally only on success; the row's busy flag ends cleared and other flags are untouched |
| SellerBookings.HandleDelete | project/src/pages/SellerBookingsPage.jsx:50-61 | declining the dialog changes nothing; otherwise the row is removed locally only on success, and its busy flag ends cleared |
| SellerBookings.ActionsByStatus | project/src/pages/SellerBookingsPage.jsx:210-268 | which buttons a card shows for each status mix; never both Confirm All and Complete All; Cancel All exactly when there is no Delete All |
| SellerBookings.EmptyGroupWouldShowThree | project/src/pages/SellerBookingsPage.jsx:212-258 | an empty row list would satisfy three `every` conditions at once |
| SellerBookings.Buttons | project/src/pages/SellerBookingsPage.jsx:219-266 | each shown button is disabled and captioned "…" exactly when a row of the card is busy |
| SellerBookings.MarkAll | project/src/pages/SellerBookingsPage.jsx:29-30 | after a batch is sent, exactly the batch's ids and those already busy are busy |
| SellerBookings.ClearAll | project/src/pages/SellerBookingsPage.jsx:29-30 | after a batch's responses, exactly the busy ids outside the batch stay busy |
| SellerBookings.ApplyAll | project/src/pages/SellerBookingsPage.jsx:214-218 | each row in the batch whose request succeeded takes the new status; every other row is unchanged |
| SellerBookings.BatchStatus | project/src/pages/SellerBookingsPage.jsx:211-253 | a batch changes exactly its successful rows, and clears exactly its own busy flags |
| SellerBookings.BatchDisablesCard | project/src/pages/SellerBookingsPage.jsx:140-140 | while a batch is in flight, every button of the card is disabled |
| SellerBookings.BatchMakesCardUniform | project/src/pages/SellerBookingsPage.jsx:211-253 | after a fully successful batch, the card keeps its place and all its rows hold the new status |
| SellerBookings.ConfirmAllLeadsToCompleteAll | project/src/pages/SellerBookingsPage.jsx:211-238 | after Confirm All, the card offers Complete All and Cancel All |
| SellerBookings.CancelAllLeavesDeleteAll | project/src/pages/SellerBookingsPage.jsx:239-268 | after Cancel All, the server rows are gone but the card stays, offering only Delete All |
| SellerBookings.CardOf | project/src/pages/SellerBookingsPage.jsx:142-175 | a card throws exactly when one of its group's times is non-empty text without ':' |
| SellerBookings.Render | project/src/pages/SellerBookingsPage.jsx:74-87 | loading first, then the empty line exactly for no rows; otherwise the page crashes exactly when some group's card throws, and else shows one card per group, in group order |
| SellerBookings.CardsOfThrow | project/src/pages/SellerBookingsPage.jsx:142-175 | the list of cards fails exactly when the card of some group throws |
| SellerBookings.FailedLoadLooksEmpty | project/src/pages/SellerBookingsPage.jsx:69-71 | a failed or empty fetch shows "No incoming bookings yet." and never an error |
| SellerBookings.VisitOutcome | project/src/pages/SellerBookingsPage.jsx:64-72 | no token: redirect while loading; a failed or empty answer: the empty line; an answer with rows: a crash exactly when some group's card throws, and otherwise one card per group with no button disabled |
| SellerBookings.CardsCountEveryBooking | project/src/pages/SellerBookingsPage.jsx:122-124 | the cards' "Total tables" add up to the number of bookings, and their "Total seats" to all bookings' seats |
| CustomerBookings.BadgeReadsBack | project/src/pages/CustomerBookingsPage.jsx:60-69 | the badge tells the three known statuses apart and shows every other status in red |
| CustomerBookings.BadgeClassesDistinct | project/src/pages/CustomerBookingsPage.jsx:61-68 | the four colours use four different class strings |
| CustomerBookings.CardFor | project/src/pages/CustomerBookingsPage.jsx:43-116 | a card throws exactly when a time is non-empty text without ':'; it otherwise shows the badge, the window, pre-orders exactly when there are items, and notes exactly for non-empty requests |
| CustomerBookings.TileShowsItem | project/src/pages/CustomerBookingsPage.jsx:80-94 | each pre-order tile shows its item's name, quantity and price times quantity, and the item's own picture unless its URL is absent or empty, when the default item picture is shown |
| CustomerBookings.TotalIsSumOfTiles | project/src/pages/CustomerBookingsPage.jsx:46-99 | the footer total equals the sum of the tiles' amounts |
| CustomerBookings.CardTotalMatchesTiles | project/src/pages/CustomerBookingsPage.jsx:46-100 | on a rendered card, the footer shows the sum of the amounts on its tiles |
| CustomerBookings.Render | project/src/pages/CustomerBookingsPage.jsx:34-37 | loading, then the error, then the empty line, then the cards, each exactly under its condition |
| CustomerBookings.VisitOutcome | project/src/pages/CustomerBookingsPage.jsx:23-32 | no token: redirect while loading; a failure: the fixed error line; no rows: the empty line; rows: their cards |
| CustomerBookings.WellShapedRowsRender | project/src/pages/CustomerBookingsPage.jsx:43-45 | rows whose times are "HH:MM[:SS]" or null always render |
| TimeFormat.NatText | project/src/pages/CustomerBookingsPage.jsx:20-20 | the decimal text of a number reads back as that number, with no leading zero |
| TimeFormat.Split | project/src/pages/CustomerBookingsPage.jsx:16-16 | at least one field, none containing the separator, and one field exactly when the text has no separator |
| TimeFormat.JoinSplit | project/src/pages/CustomerBookingsPage.jsx:16-16 | joining the fields of a split with the separator gives back the text |
| TimeFormat.TrimStartDropsSpaces | project/src/pages/CustomerBookingsPage.jsx:17-17 | trimming leaves a suffix that does not start with white space, and removes only white space |
| TimeFormat.DigitPrefix | project/src/pages/CustomerBookingsPage.jsx:17-17 | the longest prefix made of decimal digits |
| TimeFormat.ParseNatText | project/src/pages/CustomerBookingsPage.jsx:17-17 | `parseInt` reads the decimal text of a number back as that number |
| TimeFormat.JsRem | project/src/pages/CustomerBookingsPage.jsx:19-19 | the remainder takes the dividend's sign and is below the divisor in size |
| TimeFormat.ShownHour | project/src/pages/CustomerBookingsPage.jsx:19-19 | a zero or NaN remainder shows as 12; for a non-negative hour the shown hour is in 1..12 and congruent to it |
| TimeFormat.Take2 | project/src/pages/CustomerBookingsPage.jsx:20-20 | the first two characters, or the whole text when it is shorter |
| TimeFormat.FormatTime | project/src/pages/CustomerBookingsPage.jsx:14-21 | a falsy input gives ""; the call throws exactly for non-empty text without ':' |
| TimeFormat.FormatWellShaped | project/src/pages/CustomerBookingsPage.jsx:14-21 | a well-shaped time shows as the 12-hour number, the minutes and AM or PM |
| TimeFormat.SuffixAndShownHour | project/src/pages/CustomerBookingsPage.jsx:18-20 | "PM" exactly for hours 12 to 23; the shown hour is 1..12 with no leading zero |
| TimeFormat.MidnightAndNoon | project/src/pages/CustomerBookingsPage.jsx:18-19 | midnight shows as 12 AM and noon as 12 PM |
| TimeFormat.SecondsIgnored | project/src/pages/CustomerBookingsPage.jsx:16-20 | anything after a second ':' is ignored |
| TimeFormat.NonNumericHour | project/src/pages/CustomerBookingsPage.jsx:17-19 | an hour that is not a number shows as 12 with "AM" |
| TimeFormat.FormatRoundTrip | project/src/pages/SellerBookingsPage.jsx:20-27 | reading the formatter's output back gives the first five characters of a well-shaped time: only the seconds are lost |

## Left out

- `getUserBookings` is not modelled. It is the row-fetching query and its per-row enrichment. The pages take its rows as given.
- Authentication is left out: `req.user`, the token in local storage, routing, and the other controllers. A missing token is modelled only as the redirect to `/login`.
- Concurrency is left out. Requests run one at a time on the model's state, so two requests that interleave between their conflict check and their insert are not modelled.
- Dates are opaque strings, compared only for equality. `fmtDate` and locale formatting are left out.
- Times are minutes since midnight, written "HH:MM" with no seconds. For zero-padded text of that one form, the string test `booking_end_time <= booking_time` of `server/controllers/bookingController.js:43` agrees with comparing minutes, and so does the conflict query's comparison in MySQL. The model does not take seconds, or text that mixes forms. The string test accepts start "10:00" with end "10:00:00", or start "10:00:00" with end "10:00:30". In the model the first pair is equal and the second falls within one minute, so both would get a 400 (`EndNotAfterStart`). Text that is not zero-padded also compares differently as strings.
- The SQL `IN (?)` queries are modelled as filters over the directories. Failures of the validation queries, which answer 500 from the outer `catch`, are not modelled. Only the transaction's statements and the status and delete statements carry a `fault`.
- An owner id of 0 is modelled as a valid owner. The source would treat it as falsy and answer 500.
- The owner lookup in the source destructures the first row, which throws when the restaurant does not exist. Both cases are modelled as a missing owner.
- Prices are integers in minor units. Floating-point amounts and `toFixed(2)` are left out.
- `TimeFormat.ParseInt` has no contract of its own. Its behaviour is pinned down only by `ParseNatText`, `ParseTwoDigits` and `NonNumericHour`. It covers the white space listed in `IsJsSpace`, an optional sign and decimal digits. It leaves out the loss of precision for very long digit runs.
- `ImageUrl.ConstructImageUrl` states only the origin prefix in its own contract. Its two branches are stated by `DefaultImages` and `UploadedImage`.
- `TimeFormat.Take2` and the other string functions count Unicode scalar values, where JavaScript's `slice` and `length` count UTF-16 code units. The two differ only for characters outside the Basic Multilingual Plane, which a time text does not hold.
- `ImageUrl.Basename` models only POSIX `path.basename`, not the Windows variant.
- `SellerGroups.KeyOf` uses a structured key instead of the `"|"`-joined string. Two different rows whose fields contain '|' could share a string key in the source, but never share a key here.
- `Creation.Commit` counts as used only the ids of row inserts that completed before the fault. Whether the failing INSERT itself takes an id depends on why it failed, and the model does not decide that.
- Integer width is ignored. Ids are unbounded, so MySQL auto-increment overflow is not modelled.
- Routing is not part of this model. `server/routes/api.js` registers `GET /bookings` with a handler the controller does not define, and it registers no route for `DELETE /bookings/:id` or `GET /seller/bookings`. `server/routes/bookings.js` names handlers the controller does not define either. The model treats each page's request as reaching the controller function it names.
- Image files themselves, class names other than the badge's, and the layout of the cards are left out. Which picture a pre-order tile shows is modelled.

## Findings

None. The double booking shown under `DoubleBooking` is the design of the code as written, not a slip in one line. It is described above and modelled as it stands.
