/**
  How the seller's "Incoming Bookings" page folds its rows into cards: one
  card per customer, date and time window, built by a `reduce` into an object
  keyed by `"customer|date|start|end"` and read back with `Object.values`.
  Such keys are never integer-like, so `Object.values` lists them in
  insertion order: the cards come in the order of each key's first row, and
  each card holds the rows with its key in list order.
*/
module SellerGroups {
  import opened Common
  import opened MenuLines

  /** One row of `GET /seller/bookings`. Times are `None` for `null`. */
  datatype SellerRow = SellerRow(
    id: nat,
    customer: nat,
    name: string,
    email: string,
    phone: string,
    imageUrl: Option<string>,
    date: string,
    start: Option<string>,
    end: Option<string>,
    capacity: int,
    menuItems: seq<MenuLine>,
    status: string)

  /**
    The four parts of a group key. `Array.prototype.join` writes `null` as
    the empty string, so a `null` time and an empty one share a key.
  */
  datatype GroupKey = GroupKey(customer: nat, date: string, start: string, end: string)

  /** The customer details a card shows, copied from the first row of its group. */
  datatype Contact = Contact(name: string, email: string, phone: string, imageUrl: Option<string>)

  datatype Group = Group(key: GroupKey, contact: Contact, start: Option<string>, end: Option<string>, rows: seq<SellerRow>)

  function KeyOf(b: SellerRow): GroupKey {
    GroupKey(b.customer, b.date, b.start.GetOr(""), b.end.GetOr(""))
  }

  function ContactOf(b: SellerRow): Contact {
    Contact(b.name, b.email, b.phone, b.imageUrl)
  }

  /** The key of every row, in list order. */
  function Keys(rows: seq<SellerRow>): (r: seq<GroupKey>)
    ensures |r| == |rows|
  {
    seq(|rows|, i requires 0 <= i < |rows| => KeyOf(rows[i]))
  }

  function WithKey(k: GroupKey): SellerRow -> bool {
    (b: SellerRow) => KeyOf(b) == k
  }

  function HasKey(k: GroupKey): Group -> bool {
    (g: Group) => g.key == k
  }

  /** The group a row opens: its key, its customer's details and times, and no rows yet. */
  function Opened(b: SellerRow): Group {
    Group(KeyOf(b), ContactOf(b), b.start, b.end, [])
  }

  /** One step of the `reduce`: open the row's group if it has none, then push the row onto it. */
  function AddRow(groups: seq<Group>, b: SellerRow): seq<Group> {
    match FirstIndex(groups, HasKey(KeyOf(b)))
    case None => groups + [Opened(b).(rows := [b])]
    case Some(i) => groups[i := groups[i].(rows := groups[i].rows + [b])]
  }

  /** `Object.values(bookings.reduce(..., {}))` */
  function GroupRows(rows: seq<SellerRow>): seq<Group>
    decreases |rows|
  {
    if rows == [] then [] else AddRow(GroupRows(rows[..|rows| - 1]), rows[|rows| - 1])
  }

  /** The keys of the groups, in order. */
  function GroupKeys(groups: seq<Group>): (r: seq<GroupKey>)
    ensures |r| == |groups|
  {
    seq(|groups|, j requires 0 <= j < |groups| => groups[j].key)
  }

  /**
    A group describes `rows` when it holds exactly the rows with its key, in
    list order, and takes its details from the first of them.
  */
  ghost predicate Fits(rows: seq<SellerRow>, g: Group) {
    && g.rows == Filter(rows, WithKey(g.key))
    && g.rows != []
    && g.contact == ContactOf(g.rows[0])
    && g.start == g.rows[0].start
    && g.end == g.rows[0].end
  }

  /**
    What grouping means: the groups' keys are the rows' keys without
    repeats, in first-occurrence order, and every group fits the rows.
  */
  ghost predicate GroupsOf(rows: seq<SellerRow>, groups: seq<Group>) {
    && GroupKeys(groups) == Dedup(Keys(rows))
    && forall j :: 0 <= j < |groups| ==> Fits(rows, groups[j])
  }

  lemma KeysSnoc(rows: seq<SellerRow>, b: SellerRow)
    ensures Keys(rows + [b]) == Keys(rows) + [KeyOf(b)]
  {
  }

  /** A key occurs among the rows' keys exactly when some row has it. */
  lemma InKeys(rows: seq<SellerRow>, k: GroupKey)
    ensures k in Keys(rows) <==> exists i :: 0 <= i < |rows| && KeyOf(rows[i]) == k
  {
    if k in Keys(rows) {
      var i :| 0 <= i < |Keys(rows)| && Keys(rows)[i] == k;
      assert KeyOf(rows[i]) == k;
    }
    if exists i :: 0 <= i < |rows| && KeyOf(rows[i]) == k {
      var i :| 0 <= i < |rows| && KeyOf(rows[i]) == k;
      assert Keys(rows)[i] == k;
    }
  }

  /** No row of `rows` has a key missing from their keys, so filtering by it keeps nothing. */
  lemma FilterAbsentKey(rows: seq<SellerRow>, k: GroupKey)
    requires k !in Keys(rows)
    ensures Filter(rows, WithKey(k)) == []
  {
    InKeys(rows, k);
    FilterAll(rows, WithKey(k));
  }

  /** A group of another key is not affected by one more row. */
  lemma FitsOther(rows: seq<SellerRow>, b: SellerRow, g: Group)
    requires Fits(rows, g) && g.key != KeyOf(b)
    ensures Fits(rows + [b], g)
  {
    FilterSnoc(rows, b, WithKey(g.key));
  }

  /** The group of the row's key takes the row at its end. */
  lemma FitsAppend(rows: seq<SellerRow>, b: SellerRow, g: Group)
    requires Fits(rows, g) && g.key == KeyOf(b)
    ensures Fits(rows + [b], g.(rows := g.rows + [b]))
  {
    FilterSnoc(rows, b, WithKey(g.key));
    assert (g.rows + [b])[0] == g.rows[0];
  }

  /** A row with a new key opens a group that holds just that row. */
  lemma FitsNew(rows: seq<SellerRow>, b: SellerRow)
    requires KeyOf(b) !in Keys(rows)
    ensures Fits(rows + [b], Opened(b).(rows := [b]))
  {
    FilterSnoc(rows, b, WithKey(KeyOf(b)));
    FilterAbsentKey(rows, KeyOf(b));
  }

  /** A row whose key no group has opens a new group at the end. */
  lemma AddRowOpens(groups: seq<Group>, b: SellerRow)
    requires KeyOf(b) !in GroupKeys(groups)
    ensures AddRow(groups, b) == groups + [Opened(b).(rows := [b])]
  {
    forall j | 0 <= j < |groups| ensures !HasKey(KeyOf(b))(groups[j]) {
      assert GroupKeys(groups)[j] == groups[j].key;
    }
  }

  /** The grouping step for a row whose key is new: a group holding only that row joins at the end. */
  lemma AddNewKey(rows: seq<SellerRow>, groups: seq<Group>, b: SellerRow)
    requires GroupsOf(rows, groups)
    requires KeyOf(b) !in Keys(rows)
    ensures GroupsOf(rows + [b], AddRow(groups, b))
  {
    AddRowOpens(groups, b);
    OpenKeepsKeys(rows, groups, b);
    OpenKeepsFits(rows, groups, b, groups + [Opened(b).(rows := [b])]);
  }

  /** A new group's key joins the keys at the end, as it joins the deduplicated row keys. */
  lemma OpenKeepsKeys(rows: seq<SellerRow>, groups: seq<Group>, b: SellerRow)
    requires GroupKeys(groups) == Dedup(Keys(rows))
    requires KeyOf(b) !in Keys(rows)
    ensures GroupKeys(groups + [Opened(b).(rows := [b])]) == Dedup(Keys(rows + [b]))
  {
    var k := KeyOf(b);
    KeysSnoc(rows, b);
    DedupSnoc(Keys(rows), k);
    assert GroupKeys(groups + [Opened(b).(rows := [b])]) == GroupKeys(groups) + [k];
  }

  /** After opening a group for a new key, every group fits the longer list. */
  lemma OpenKeepsFits(rows: seq<SellerRow>, groups: seq<Group>, b: SellerRow, after: seq<Group>)
    requires GroupsOf(rows, groups)
    requires KeyOf(b) !in Keys(rows)
    requires after == groups + [Opened(b).(rows := [b])]
    ensures forall j :: 0 <= j < |after| ==> Fits(rows + [b], after[j])
  {
    forall j | 0 <= j < |after| ensures Fits(rows + [b], after[j]) {
      if j == |groups| {
        FitsNew(rows, b);
      } else {
        assert GroupKeys(groups)[j] == groups[j].key;
        FitsOther(rows, b, groups[j]);
      }
    }
  }

  /** Groups with distinct keys: two positions hold two different keys. */
  lemma OtherGroupKey(groups: seq<Group>, i: nat, j: nat)
    requires Distinct(GroupKeys(groups)) && i < |groups| && j < |groups| && i != j
    ensures groups[i].key != groups[j].key
  {
    assert GroupKeys(groups)[j] == groups[j].key && GroupKeys(groups)[i] == groups[i].key;
  }

  /** Appending a row to the group at `i`, whose key is the row's own, keeps the description true. */
  lemma AppendToGroup(rows: seq<SellerRow>, groups: seq<Group>, b: SellerRow, i: nat)
    requires GroupsOf(rows, groups)
    requires i < |groups| && groups[i].key == KeyOf(b)
    ensures GroupsOf(rows + [b], groups[i := groups[i].(rows := groups[i].rows + [b])])
  {
    AppendKeepsKeys(rows, groups, b, i);
    AppendKeepsFits(rows, groups, b, i, groups[i := groups[i].(rows := groups[i].rows + [b])]);
  }

  /** Appending to an existing group changes no key, and the row's key was already among the rows' keys. */
  lemma AppendKeepsKeys(rows: seq<SellerRow>, groups: seq<Group>, b: SellerRow, i: nat)
    requires GroupKeys(groups) == Dedup(Keys(rows))
    requires i < |groups| && groups[i].key == KeyOf(b)
    ensures GroupKeys(groups[i := groups[i].(rows := groups[i].rows + [b])]) == Dedup(Keys(rows + [b]))
  {
    var k := KeyOf(b);
    assert GroupKeys(groups)[i] == k;
    KeysSnoc(rows, b);
    DedupSnoc(Keys(rows), k);
    assert GroupKeys(groups[i := groups[i].(rows := groups[i].rows + [b])]) == GroupKeys(groups);
  }

  /** After appending to the group at `i`, every group still fits the longer list. */
  lemma AppendKeepsFits(rows: seq<SellerRow>, groups: seq<Group>, b: SellerRow, i: nat, after: seq<Group>)
    requires GroupsOf(rows, groups)
    requires i < |groups| && groups[i].key == KeyOf(b)
    requires after == groups[i := groups[i].(rows := groups[i].rows + [b])]
    ensures forall j :: 0 <= j < |after| ==> Fits(rows + [b], after[j])
  {
    forall j | 0 <= j < |after| ensures Fits(rows + [b], after[j]) {
      if j == i {
        FitsAppend(rows, b, groups[i]);
      } else {
        OtherGroupKey(groups, i, j);
        FitsOther(rows, b, groups[j]);
      }
    }
  }

  /** The grouping step for a row whose key is already present: it joins the end of that key's group. */
  lemma AddKnownKey(rows: seq<SellerRow>, groups: seq<Group>, b: SellerRow)
    requires GroupsOf(rows, groups)
    requires KeyOf(b) in Keys(rows)
    ensures GroupsOf(rows + [b], AddRow(groups, b))
  {
    var k := KeyOf(b);
    assert FirstIndex(groups, HasKey(k)).Some? by {
      assert k in GroupKeys(groups);
      var m :| 0 <= m < |groups| && GroupKeys(groups)[m] == k;
      assert HasKey(k)(groups[m]);
    }
    var i := FirstIndex(groups, HasKey(k)).value;
    AppendToGroup(rows, groups, b, i);
  }

  /** The `reduce` builds exactly the grouping `GroupsOf` describes. */
  lemma {:induction false} GroupRowsCorrect(rows: seq<SellerRow>)
    ensures GroupsOf(rows, GroupRows(rows))
    decreases |rows|
  {
    if rows == [] {
      assert Keys(rows) == [];
    } else {
      var init := rows[..|rows| - 1];
      var b := rows[|rows| - 1];
      assert rows == init + [b];
      GroupRowsCorrect(init);
      if KeyOf(b) in Keys(init) {
        AddKnownKey(init, GroupRows(init), b);
      } else {
        AddNewKey(init, GroupRows(init), b);
      }
    }
  }

  /**
    Every row lands in exactly one group: the one whose key is its own.
    There is one group per distinct key and none of them is empty.
  */
  lemma EveryRowInOneGroup(rows: seq<SellerRow>, i: nat)
    requires i < |rows|
    ensures exists j :: 0 <= j < |GroupRows(rows)| && GroupRows(rows)[j].key == KeyOf(rows[i])
    ensures forall j :: 0 <= j < |GroupRows(rows)| ==>
      (rows[i] in GroupRows(rows)[j].rows <==> GroupRows(rows)[j].key == KeyOf(rows[i]))
  {
    GroupRowsCorrect(rows);
    RowHasGroup(rows, GroupRows(rows), i);
    RowOnlyInItsGroup(rows, GroupRows(rows), i);
  }

  /** Under a grouping that fits, a row's key is the key of some group. */
  lemma RowHasGroup(rows: seq<SellerRow>, gs: seq<Group>, i: nat)
    requires GroupsOf(rows, gs) && i < |rows|
    ensures exists j :: 0 <= j < |gs| && gs[j].key == KeyOf(rows[i])
  {
    assert KeyOf(rows[i]) in GroupKeys(gs) by {
      assert Keys(rows)[i] == KeyOf(rows[i]);
    }
    var j :| 0 <= j < |gs| && GroupKeys(gs)[j] == KeyOf(rows[i]);
    assert gs[j].key == KeyOf(rows[i]);
  }

  /** Under a grouping that fits, a row is in a group exactly when the group has the row's key. */
  lemma RowOnlyInItsGroup(rows: seq<SellerRow>, gs: seq<Group>, i: nat)
    requires GroupsOf(rows, gs) && i < |rows|
    ensures forall j :: 0 <= j < |gs| ==> (rows[i] in gs[j].rows <==> gs[j].key == KeyOf(rows[i]))
  {
    forall j | 0 <= j < |gs| ensures rows[i] in gs[j].rows <==> gs[j].key == KeyOf(rows[i]) {
      assert Fits(rows, gs[j]);
      assert gs[j].rows == Filter(rows, WithKey(gs[j].key));
      assert rows[i] in rows;
    }
  }

  /** Two groups never share a key, so two cards never show the same customer and window. */
  lemma GroupKeysDistinct(rows: seq<SellerRow>)
    ensures Distinct(GroupKeys(GroupRows(rows)))
  {
    GroupRowsCorrect(rows);
  }

  /** `g.bookings.reduce((sum, b) => sum + b.capacity, 0)` */
  function Seats(rows: seq<SellerRow>): int
    decreases |rows|
  {
    if rows == [] then 0 else Seats(rows[..|rows| - 1]) + rows[|rows| - 1].capacity
  }

  /** "Total tables" over all cards. */
  function TablesOver(groups: seq<Group>): nat
    decreases |groups|
  {
    if groups == [] then 0 else TablesOver(groups[..|groups| - 1]) + |groups[|groups| - 1].rows|
  }

  /** "Total seats" over all cards. */
  function SeatsOver(groups: seq<Group>): int
    decreases |groups|
  {
    if groups == [] then 0 else SeatsOver(groups[..|groups| - 1]) + Seats(groups[|groups| - 1].rows)
  }

  lemma {:induction false} TablesOverAppend(a: seq<Group>, b: seq<Group>)
    ensures TablesOver(a + b) == TablesOver(a) + TablesOver(b)
    ensures SeatsOver(a + b) == SeatsOver(a) + SeatsOver(b)
    decreases |b|
  {
    if b == [] {
      assert a + b == a;
    } else {
      assert (a + b)[..|a + b| - 1] == a + b[..|b| - 1];
      assert (a + b)[|a + b| - 1] == b[|b| - 1];
      TablesOverAppend(a, b[..|b| - 1]);
    }
  }

  /** Replacing one group changes the sums by the difference of its sizes. */
  lemma {:induction false} TablesOverUpdate(groups: seq<Group>, i: nat, g: Group)
    requires i < |groups|
    ensures TablesOver(groups[i := g]) == TablesOver(groups) - |groups[i].rows| + |g.rows|
    ensures SeatsOver(groups[i := g]) == SeatsOver(groups) - Seats(groups[i].rows) + Seats(g.rows)
  {
    var pre := groups[..i];
    var post := groups[i + 1..];
    assert groups == pre + [groups[i]] + post;
    assert groups[i := g] == pre + [g] + post;
    TablesOverAppend(pre + [groups[i]], post);
    TablesOverAppend(pre + [g], post);
    TablesOverAppend(pre, [groups[i]]);
    TablesOverAppend(pre, [g]);
    assert [groups[i]][..0] == [] && [g][..0] == [];
  }

  /** One step of the `reduce` adds one table and the row's seats to the sums over all cards. */
  lemma AddRowTotals(groups: seq<Group>, b: SellerRow)
    ensures TablesOver(AddRow(groups, b)) == TablesOver(groups) + 1
    ensures SeatsOver(AddRow(groups, b)) == SeatsOver(groups) + b.capacity
  {
    match FirstIndex(groups, HasKey(KeyOf(b)))
    case None =>
      var g := Opened(b).(rows := [b]);
      TablesOverAppend(groups, [g]);
      assert [g][..0] == [];
      assert [b][..0] == [];
      assert Seats([b]) == b.capacity;
      assert SeatsOver([g]) == Seats(g.rows);
    case Some(i) =>
      var rs := groups[i].rows;
      TablesOverUpdate(groups, i, groups[i].(rows := rs + [b]));
      assert (rs + [b])[..|rs|] == rs;
  }

  /**
    The cards' "Total tables" add up to the number of rows and their "Total
    seats" to the seats of all rows: grouping neither loses nor repeats a row.
  */
  lemma {:induction false} TotalsCoverAllRows(rows: seq<SellerRow>)
    ensures TablesOver(GroupRows(rows)) == |rows|
    ensures SeatsOver(GroupRows(rows)) == Seats(rows)
    decreases |rows|
  {
    if rows != [] {
      var init := rows[..|rows| - 1];
      TotalsCoverAllRows(init);
      AddRowTotals(GroupRows(init), rows[|rows| - 1]);
    }
  }

  /** A row with a new status keeps its key. */
  function WithStatus(b: SellerRow, s: string): SellerRow {
    b.(status := s)
  }

  /** Changing statuses row by row keeps every key, so the page keeps the same cards in the same order. */
  lemma StatusChangesKeepGroups(rows: seq<SellerRow>, rows': seq<SellerRow>)
    requires |rows'| == |rows|
    requires forall i :: 0 <= i < |rows| ==> rows'[i] == rows[i] || rows'[i] == WithStatus(rows[i], rows'[i].status)
    ensures GroupKeys(GroupRows(rows')) == GroupKeys(GroupRows(rows))
    ensures |GroupRows(rows')| == |GroupRows(rows)|
  {
    assert Keys(rows') == Keys(rows) by {
      forall i | 0 <= i < |rows| ensures KeyOf(rows'[i]) == KeyOf(rows[i]) {
      }
    }
    GroupRowsCorrect(rows);
    GroupRowsCorrect(rows');
  }
}
