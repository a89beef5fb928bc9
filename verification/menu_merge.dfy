/**
  The seller card's "Pre-ordered Items": every menu line of every row in the
  group, merged by menu item id into an object and read back with
  `Object.values`. The first entry of an id is copied whole; later entries of
  the same id only add their quantity. Integer keys come out of
  `Object.values` in ascending order, so the merged lines are sorted by id.
*/
module MenuMerge {
  import opened Common
  import opened MenuLines

  /** Ids strictly increase along the list (so no id occurs twice). */
  predicate Ascending(m: seq<MenuLine>) {
    forall i, j :: 0 <= i < j < |m| ==> m[i].id < m[j].id
  }

  /** The first line with id `x`. */
  function Find(m: seq<MenuLine>, x: nat): (r: Option<MenuLine>)
    ensures r.None? <==> forall i :: 0 <= i < |m| ==> m[i].id != x
    ensures r.Some? ==> r.value.id == x
    decreases |m|
  {
    if m == [] then None
    else if m[0].id == x then Some(m[0])
    else
      var r := Find(m[1..], x);
      assert forall i :: 1 <= i < |m| ==> m[i] == m[1..][i - 1];
      r
  }

  /** The line found is one of the list's lines, and no earlier line has its id. */
  lemma {:induction false} FindFirst(m: seq<MenuLine>, x: nat)
    ensures Find(m, x).Some? ==> exists i :: 0 <= i < |m| && m[i] == Find(m, x).value && forall k :: 0 <= k < i ==> m[k].id != x
    decreases |m|
  {
    if m != [] && m[0].id != x {
      FindFirst(m[1..], x);
      if Find(m, x).Some? {
        var i :| 0 <= i < |m[1..]| && m[1..][i] == Find(m, x).value && forall k :: 0 <= k < i ==> m[1..][k].id != x;
        assert m[i + 1] == Find(m, x).value;
        assert forall k :: 1 <= k < i + 1 ==> m[k] == m[1..][k - 1];
      }
    }
  }

  /** Looking up an id after one more line: an earlier line of that id wins. */
  lemma {:induction false} FindSnoc(m: seq<MenuLine>, mi: MenuLine, x: nat)
    ensures Find(m + [mi], x) == if Find(m, x).Some? then Find(m, x) else if mi.id == x then Some(mi) else None
    decreases |m|
  {
    if m != [] {
      assert (m + [mi])[1..] == m[1..] + [mi];
      FindSnoc(m[1..], mi, x);
    }
  }

  /** What one entry does to the line already stored under its id: creates it, or adds to its quantity. */
  function Bump(found: Option<MenuLine>, mi: MenuLine): MenuLine {
    match found
    case None => mi
    case Some(l) => l.(quantity := l.quantity + mi.quantity)
  }

  /** One `forEach` step on the map, kept as its sorted list of values. */
  function InsertLine(m: seq<MenuLine>, mi: MenuLine): (r: seq<MenuLine>)
    requires Ascending(m)
    ensures Ascending(r)
    ensures forall i :: 0 <= i < |r| ==> r[i].id == mi.id || exists k :: 0 <= k < |m| && m[k].id == r[i].id
    ensures forall x :: Find(r, x) == if x == mi.id then Some(Bump(Find(m, x), mi)) else Find(m, x)
    decreases |m|
  {
    if m == [] then [mi]
    else if m[0].id == mi.id then
      BumpFirst(m, mi);
      [m[0].(quantity := m[0].quantity + mi.quantity)] + m[1..]
    else if mi.id < m[0].id then
      InsertBefore(m, mi);
      [mi] + m
    else
      AscendingTail(m);
      var rest := InsertLine(m[1..], mi);
      KeepFirst(m, mi, rest);
      [m[0]] + rest
  }

  /** `r` is `m` with entry `mi` merged in: still ascending, no new ids but `mi`'s, and only `mi`'s line changed. */
  ghost predicate Inserted(m: seq<MenuLine>, mi: MenuLine, r: seq<MenuLine>) {
    && Ascending(r)
    && (forall i :: 0 <= i < |r| ==> r[i].id == mi.id || exists k :: 0 <= k < |m| && m[k].id == r[i].id)
    && forall x :: Find(r, x) == if x == mi.id then Some(Bump(Find(m, x), mi)) else Find(m, x)
  }

  lemma AscendingTail(m: seq<MenuLine>)
    requires Ascending(m) && m != []
    ensures Ascending(m[1..])
    ensures forall k :: 0 <= k < |m| ==> m[0].id <= m[k].id
  {
    assert forall i :: 0 <= i < |m| - 1 ==> m[1..][i] == m[i + 1];
  }

  /** Looking up an id in a list with a known first line. */
  lemma FindCons(l: MenuLine, t: seq<MenuLine>, x: nat)
    ensures Find([l] + t, x) == if l.id == x then Some(l) else Find(t, x)
  {
    assert ([l] + t)[1..] == t;
  }

  /** An entry with the first line's id bumps that line. */
  lemma BumpFirst(m: seq<MenuLine>, mi: MenuLine)
    requires Ascending(m) && m != [] && m[0].id == mi.id
    ensures Inserted(m, mi, [m[0].(quantity := m[0].quantity + mi.quantity)] + m[1..])
  {
    var t := m[1..];
    var b := m[0].(quantity := m[0].quantity + mi.quantity);
    var r := [b] + t;
    assert m == [m[0]] + t;
    forall i | 0 <= i < |r| ensures r[i].id == m[i].id {
    }
    forall x ensures Find(r, x) == if x == mi.id then Some(Bump(Find(m, x), mi)) else Find(m, x) {
      FindCons(b, t, x);
      FindCons(m[0], t, x);
    }
  }

  /** An entry whose id is below the first line's goes in front. */
  lemma InsertBefore(m: seq<MenuLine>, mi: MenuLine)
    requires Ascending(m) && m != [] && mi.id < m[0].id
    ensures Inserted(m, mi, [mi] + m)
  {
    var r := [mi] + m;
    AscendingTail(m);
    forall i, j | 0 <= i < j < |r| ensures r[i].id < r[j].id {
      if i > 0 {
        assert r[i] == m[i - 1] && r[j] == m[j - 1];
      } else {
        assert r[j] == m[j - 1];
      }
    }
    forall i | 1 <= i < |r| ensures r[i] == m[i - 1] {
    }
    forall x ensures Find(r, x) == if x == mi.id then Some(Bump(Find(m, x), mi)) else Find(m, x) {
      FindCons(mi, m, x);
    }
  }

  /** An entry whose id lies beyond the first line leaves that line in front of the merged tail. */
  lemma KeepFirst(m: seq<MenuLine>, mi: MenuLine, rest: seq<MenuLine>)
    requires Ascending(m) && m != [] && m[0].id < mi.id
    requires Inserted(m[1..], mi, rest)
    ensures Inserted(m, mi, [m[0]] + rest)
  {
    AscendingTail(m);
    TailIdsAbove(m, mi, rest);
    KeepFirstAscending(m, rest);
    KeepFirstIds(m, mi, rest);
    KeepFirstFind(m, mi, rest);
  }

  /** Every id of the merged tail lies above the first line's. */
  lemma TailIdsAbove(m: seq<MenuLine>, mi: MenuLine, rest: seq<MenuLine>)
    requires Ascending(m) && m != [] && m[0].id < mi.id
    requires forall i :: 0 <= i < |rest| ==> rest[i].id == mi.id || exists k :: 0 <= k < |m[1..]| && m[1..][k].id == rest[i].id
    ensures forall i :: 0 <= i < |rest| ==> m[0].id < rest[i].id
  {
    forall i | 0 <= i < |rest| ensures m[0].id < rest[i].id {
      if rest[i].id != mi.id {
        var k :| 0 <= k < |m[1..]| && m[1..][k].id == rest[i].id;
        assert m[1..][k] == m[k + 1];
      }
    }
  }

  lemma KeepFirstAscending(m: seq<MenuLine>, rest: seq<MenuLine>)
    requires m != [] && Ascending(rest)
    requires forall i :: 0 <= i < |rest| ==> m[0].id < rest[i].id
    ensures Ascending([m[0]] + rest)
  {
    var r := [m[0]] + rest;
    forall i, j | 0 <= i < j < |r| ensures r[i].id < r[j].id {
      assert r[j] == rest[j - 1];
      if i > 0 {
        assert r[i] == rest[i - 1];
      }
    }
  }

  lemma KeepFirstIds(m: seq<MenuLine>, mi: MenuLine, rest: seq<MenuLine>)
    requires m != []
    requires forall i :: 0 <= i < |rest| ==> rest[i].id == mi.id || exists k :: 0 <= k < |m[1..]| && m[1..][k].id == rest[i].id
    ensures var r := [m[0]] + rest;
      forall i :: 0 <= i < |r| ==> r[i].id == mi.id || exists k :: 0 <= k < |m| && m[k].id == r[i].id
  {
    var r := [m[0]] + rest;
    assert r[0] == m[0];
    forall i | 1 <= i < |r| ensures r[i].id == mi.id || exists k :: 0 <= k < |m| && m[k].id == r[i].id {
      assert r[i] == rest[i - 1];
      if rest[i - 1].id != mi.id {
        var k :| 0 <= k < |m[1..]| && m[1..][k].id == rest[i - 1].id;
        assert m[k + 1] == m[1..][k];
      }
    }
  }

  lemma KeepFirstFind(m: seq<MenuLine>, mi: MenuLine, rest: seq<MenuLine>)
    requires m != [] && m[0].id < mi.id
    requires forall x :: Find(rest, x) == if x == mi.id then Some(Bump(Find(m[1..], x), mi)) else Find(m[1..], x)
    ensures forall x :: Find([m[0]] + rest, x) == if x == mi.id then Some(Bump(Find(m, x), mi)) else Find(m, x)
  {
    assert m == [m[0]] + m[1..];
    forall x ensures Find([m[0]] + rest, x) == if x == mi.id then Some(Bump(Find(m, x), mi)) else Find(m, x) {
      FindCons(m[0], rest, x);
      FindCons(m[0], m[1..], x);
    }
  }

  function Quantity(items: seq<MenuLine>, x: nat): int
    decreases |items|
  {
    if items == [] then 0
    else Quantity(items[..|items| - 1], x) + (if items[|items| - 1].id == x then items[|items| - 1].quantity else 0)
  }

  /** The line the merge should hold for id `x`: the first entry of that id, carrying the summed quantity. */
  function MergedLine(items: seq<MenuLine>, x: nat): Option<MenuLine> {
    match Find(items, x)
    case None => None
    case Some(l) => Some(l.(quantity := Quantity(items, x)))
  }

  /** An id no entry has sums to no quantity. */
  lemma {:induction false} QuantityAbsent(items: seq<MenuLine>, x: nat)
    requires Find(items, x).None?
    ensures Quantity(items, x) == 0
    decreases |items|
  {
    if items != [] {
      var init := items[..|items| - 1];
      assert forall i :: 0 <= i < |init| ==> init[i] == items[i];
      QuantityAbsent(init, x);
    }
  }

  /** One more entry adds its quantity to its own id's sum only. */
  lemma QuantitySnoc(init: seq<MenuLine>, mi: MenuLine, x: nat)
    ensures Quantity(init + [mi], x) == Quantity(init, x) + (if mi.id == x then mi.quantity else 0)
  {
    assert (init + [mi])[..|init|] == init;
  }

  /** One more entry updates the expected line of its id only. */
  lemma MergedLineSnoc(init: seq<MenuLine>, mi: MenuLine, x: nat)
    ensures MergedLine(init + [mi], x) == if x == mi.id then Some(Bump(MergedLine(init, x), mi)) else MergedLine(init, x)
  {
    FindSnoc(init, mi, x);
    QuantitySnoc(init, mi, x);
    if x == mi.id && Find(init, x).None? {
      QuantityAbsent(init, x);
    }
  }

  lemma MergeStep(init: seq<MenuLine>, mi: MenuLine, prev: seq<MenuLine>)
    requires Ascending(prev)
    requires forall x :: Find(prev, x) == MergedLine(init, x)
    ensures forall x :: Find(InsertLine(prev, mi), x) == MergedLine(init + [mi], x)
  {
    forall x ensures Find(InsertLine(prev, mi), x) == MergedLine(init + [mi], x) {
      MergedLineSnoc(init, mi, x);
    }
  }

  /**
    `Object.values(menuMap)` after the `forEach`: one line per id, sorted by
    id, each the first entry of that id carrying the sum of the quantities of
    all entries of that id.
  */
  function Merge(items: seq<MenuLine>): (r: seq<MenuLine>)
    ensures Ascending(r)
    ensures forall x :: Find(r, x) == MergedLine(items, x)
    decreases |items|
  {
    if items == [] then []
    else
      var init := items[..|items| - 1];
      var mi := items[|items| - 1];
      assert items == init + [mi];
      var prev := Merge(init);
      MergeStep(init, mi, prev);
      InsertLine(prev, mi)
  }

  /** Every line of every row of a group, rows in order and lines in order within a row. */
  function AllItems(rows: seq<seq<MenuLine>>): seq<MenuLine>
    decreases |rows|
  {
    if rows == [] then [] else AllItems(rows[..|rows| - 1]) + rows[|rows| - 1]
  }

  /** The ids of a list of lines, in order. */
  function IdsOf(m: seq<MenuLine>): (r: seq<nat>)
    ensures |r| == |m|
  {
    Project(m, LineId)
  }

  function LineId(l: MenuLine): nat {
    l.id
  }

  /** An id occurs in a list exactly when looking it up finds a line. */
  lemma InIdsOf(m: seq<MenuLine>, x: nat)
    ensures x in IdsOf(m) <==> Find(m, x).Some?
  {
    if x in IdsOf(m) {
      var i :| 0 <= i < |m| && IdsOf(m)[i] == x;
      assert m[i].id == x;
    }
    if Find(m, x).Some? {
      var i :| 0 <= i < |m| && m[i].id == x;
      assert IdsOf(m)[i] == x;
    }
  }

  /** The merged lines carry exactly the ids of the entries. */
  lemma MergeCoversIds(items: seq<MenuLine>)
    ensures forall x :: x in IdsOf(Merge(items)) <==> x in IdsOf(items)
  {
    forall x ensures x in IdsOf(Merge(items)) <==> x in IdsOf(items) {
      InIdsOf(Merge(items), x);
      InIdsOf(items, x);
    }
  }

  /** Every entry of one id carries the same price. */
  predicate SamePrice(items: seq<MenuLine>) {
    forall i, j :: 0 <= i < |items| && 0 <= j < |items| && items[i].id == items[j].id ==> items[i].price == items[j].price
  }

  /** Adding the quantity of an entry of the same price adds that entry's amount. */
  lemma BumpAmount(l: MenuLine, mi: MenuLine)
    requires l.price == mi.price
    ensures LineTotal(l.(quantity := l.quantity + mi.quantity)) == LineTotal(l) + LineTotal(mi)
  {
    TimesAdds(l.price, l.quantity, mi.quantity);
  }

  /** A list with one line in front totals that line plus the rest. */
  lemma TotalCons(l: MenuLine, m: seq<MenuLine>)
    ensures Total([l] + m) == LineTotal(l) + Total(m)
  {
    TotalAppend([l], m);
    assert [l][..0] == [];
  }

  /** Bumping the first line by an entry of the same price adds that entry's amount to the total. */
  lemma BumpFrontAmount(m: seq<MenuLine>, mi: MenuLine)
    requires m != [] && m[0].price == mi.price
    ensures Total([m[0].(quantity := m[0].quantity + mi.quantity)] + m[1..]) == Total(m) + LineTotal(mi)
  {
    var t := m[1..];
    var bumped := m[0].(quantity := m[0].quantity + mi.quantity);
    assert Total([bumped] + t) == LineTotal(bumped) + Total(t) by {
      TotalCons(bumped, t);
    }
    assert Total(m) == LineTotal(m[0]) + Total(t) by {
      assert m == [m[0]] + t;
      TotalCons(m[0], t);
    }
    assert LineTotal(bumped) == LineTotal(m[0]) + LineTotal(mi) by {
      BumpAmount(m[0], mi);
    }
  }

  /** An entry of the first line's id bumps that line; with a matching price its amount adds to the total. */
  lemma BumpFrontTotal(m: seq<MenuLine>, mi: MenuLine)
    requires Ascending(m) && m != [] && m[0].id == mi.id && m[0].price == mi.price
    ensures Total(InsertLine(m, mi)) == Total(m) + LineTotal(mi)
  {
    assert InsertLine(m, mi) == [m[0].(quantity := m[0].quantity + mi.quantity)] + m[1..];
    BumpFrontAmount(m, mi);
  }

  /** An entry whose id lies beyond the first line leaves that line in front. */
  lemma InsertPastFront(m: seq<MenuLine>, mi: MenuLine)
    requires Ascending(m) && m != [] && m[0].id < mi.id
    ensures Ascending(m[1..]) && Find(m[1..], mi.id) == Find(m, mi.id)
    ensures InsertLine(m, mi) == [m[0]] + InsertLine(m[1..], mi)
    ensures Total(m) == LineTotal(m[0]) + Total(m[1..])
  {
    var t := m[1..];
    assert m == [m[0]] + t;
    assert forall i :: 0 <= i < |t| ==> t[i] == m[i + 1];
    TotalCons(m[0], t);
  }

  /** Inserting an entry whose price matches the stored line adds exactly its amount to the total. */
  lemma {:induction false} InsertLineTotal(m: seq<MenuLine>, mi: MenuLine)
    requires Ascending(m)
    requires Find(m, mi.id).Some? ==> Find(m, mi.id).value.price == mi.price
    ensures Total(InsertLine(m, mi)) == Total(m) + LineTotal(mi)
    decreases |m|
  {
    if m == [] {
      TotalCons(mi, []);
    } else if m[0].id == mi.id {
      assert Find(m, mi.id) == Some(m[0]);
      BumpFrontTotal(m, mi);
    } else if mi.id < m[0].id {
      assert InsertLine(m, mi) == [mi] + m;
      TotalCons(mi, m);
    } else {
      InsertPastFront(m, mi);
      InsertLineTotal(m[1..], mi);
      TotalCons(m[0], InsertLine(m[1..], mi));
    }
  }

  /**
    When every entry of one menu item carries the same price, the merged
    lines' amounts add up to the amounts of all the entries: merging neither
    loses nor invents a quantity.
  */
  lemma {:induction false} MergeKeepsTotal(items: seq<MenuLine>)
    requires SamePrice(items)
    ensures Total(Merge(items)) == Total(items)
    decreases |items|
  {
    if items != [] {
      var init := items[..|items| - 1];
      var mi := items[|items| - 1];
      assert SamePrice(init);
      MergeKeepsTotal(init);
      var found := Find(Merge(init), mi.id);
      if found.Some? {
        FindFirst(init, mi.id);
        var k :| 0 <= k < |init| && init[k] == Find(init, mi.id).value && forall k' :: 0 <= k' < k ==> init[k'].id != mi.id;
        assert items[k] == init[k] && items[|items| - 1] == mi;
      }
      InsertLineTotal(Merge(init), mi);
    }
  }
}
