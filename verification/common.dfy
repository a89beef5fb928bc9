/**
  Small shared vocabulary: an optional value and the sequence operations the
  booking engine and the seller page both lean on (SQL `DISTINCT`, JavaScript
  `filter`, counting).
*/
module Common {

  datatype Option<+T> = None | Some(value: T) {
    function GetOr(default: T): T {
      match this
      case Some(v) => v
      case None => default
    }
  }

  /** No element occurs twice. */
  predicate Distinct<T(==)>(s: seq<T>) {
    forall i, j :: 0 <= i < j < |s| ==> s[i] != s[j]
  }

  /**
    Keeps the first occurrence of every element, in input order. This is the
    shape of a SQL `SELECT DISTINCT` over a list and of the key order of a
    JavaScript object filled by insertion.
  */
  function Dedup<T(==,!new)>(s: seq<T>): (r: seq<T>)
    ensures Distinct(r)
    ensures forall x :: x in r <==> x in s
    ensures |r| <= |s|
    ensures |r| == |s| <==> Distinct(s)
    ensures Distinct(s) ==> r == s
    decreases |s|
  {
    if s == [] then []
    else
      var init := s[..|s| - 1];
      var last := s[|s| - 1];
      assert s == init + [last];
      var d := Dedup(init);
      if last in d then d else d + [last]
  }

  /** Dedup of a sequence extended by one element. */
  lemma DedupSnoc<T(!new)>(s: seq<T>, x: T)
    ensures Dedup(s + [x]) == if x in s then Dedup(s) else Dedup(s) + [x]
  {
    assert (s + [x])[..|s + [x]| - 1] == s;
  }

  /** The elements of `s` that satisfy `p`, in input order. */
  function Filter<T(!new)>(s: seq<T>, p: T -> bool): (r: seq<T>)
    ensures forall x :: x in r <==> x in s && p(x)
    ensures |r| <= |s|
    decreases |s|
  {
    if s == [] then []
    else
      var rest := Filter(s[1..], p);
      assert forall x :: x in s <==> x == s[0] || x in s[1..];
      (if p(s[0]) then [s[0]] else []) + rest
  }

  /** Filter keeps everything exactly when every element satisfies the predicate. */
  lemma {:induction false} FilterAll<T(!new)>(s: seq<T>, p: T -> bool)
    ensures |Filter(s, p)| == |s| <==> forall i :: 0 <= i < |s| ==> p(s[i])
    ensures (forall i :: 0 <= i < |s| ==> p(s[i])) ==> Filter(s, p) == s
    ensures (forall i :: 0 <= i < |s| ==> !p(s[i])) ==> Filter(s, p) == []
    decreases |s|
  {
    if s != [] {
      FilterAll(s[1..], p);
      assert forall i :: 1 <= i < |s| ==> s[i] == s[1..][i - 1];
      if forall i :: 0 <= i < |s| ==> p(s[i]) {
        assert s == [s[0]] + s[1..];
      }
    }
  }

  /** One step of `Filter`: the head is kept or dropped, then the tail is filtered. */
  lemma FilterCons<T(!new)>(s: seq<T>, p: T -> bool)
    requires s != []
    ensures Filter(s, p) == (if p(s[0]) then [s[0]] else []) + Filter(s[1..], p)
  {
  }

  /** A position `k` of the tail is position `k + 1` of the whole. */
  lemma TailPosition<T>(s: seq<T>, k: nat)
    requires k < |s| - 1
    ensures s[1..][k] == s[k + 1]
  {
  }

  /** Two positions of a filtered sequence come from two positions of the input, in the same order. */
  lemma {:induction false} FilterPairs<T(!new)>(s: seq<T>, p: T -> bool, i: nat, j: nat)
    requires i < j < |Filter(s, p)|
    ensures exists i', j' :: 0 <= i' < j' < |s| && s[i'] == Filter(s, p)[i] && s[j'] == Filter(s, p)[j]
    decreases |s|
  {
    var r := Filter(s, p);
    var tail := Filter(s[1..], p);
    FilterCons(s, p);
    var d := if p(s[0]) then 1 else 0;
    assert forall k :: d <= k < |r| ==> r[k] == tail[k - d];
    if d == 1 && i == 0 {
      assert r[j] in s[1..];
      var k :| 0 <= k < |s[1..]| && s[1..][k] == r[j];
      TailPosition(s, k);
      assert s[0] == r[0];
    } else {
      FilterPairs(s[1..], p, i - d, j - d);
      var i', j' :| 0 <= i' < j' < |s[1..]| && s[1..][i'] == tail[i - d] && s[1..][j'] == tail[j - d];
      TailPosition(s, i');
      TailPosition(s, j');
    }
  }

  /** Filter of a sequence extended by one element. */
  lemma FilterSnoc<T(!new)>(s: seq<T>, x: T, p: T -> bool)
    ensures Filter(s + [x], p) == Filter(s, p) + (if p(x) then [x] else [])
  {
    FilterAppend(s, [x], p);
    FilterCons([x], p);
    assert [x][1..] == [];
  }

  /** Filter distributes over concatenation. */
  lemma {:induction false} FilterAppend<T(!new)>(a: seq<T>, b: seq<T>, p: T -> bool)
    ensures Filter(a + b, p) == Filter(a, p) + Filter(b, p)
    decreases |a|
  {
    if a == [] {
      assert a + b == b;
    } else {
      var head := if p(a[0]) then [a[0]] else [];
      assert (a + b)[0] == a[0];
      assert (a + b)[1..] == a[1..] + b;
      FilterAppend(a[1..], b, p);
      calc {
        Filter(a + b, p);
        head + Filter(a[1..] + b, p);
        head + (Filter(a[1..], p) + Filter(b, p));
        (head + Filter(a[1..], p)) + Filter(b, p);
        Filter(a, p) + Filter(b, p);
      }
    }
  }

  /** Filtering by a predicate that implies an earlier filter's predicate forgets the earlier filter. */
  lemma {:induction false} FilterFilter<T(!new)>(s: seq<T>, q: T -> bool, p: T -> bool)
    requires forall x :: p(x) ==> q(x)
    ensures Filter(Filter(s, q), p) == Filter(s, p)
    decreases |s|
  {
    if s != [] {
      FilterFilter(s[1..], q, p);
      if q(s[0]) {
        assert ([s[0]] + Filter(s[1..], q))[1..] == Filter(s[1..], q);
      } else {
        assert Filter(s, q) == Filter(s[1..], q);
      }
    }
  }

  /** A sequence one longer than `prefix` that starts with it and ends with `last` is `prefix + [last]`. */
  lemma SnocOf<T>(x: seq<T>, prefix: seq<T>, last: T)
    requires |x| == |prefix| + 1 && x[..|prefix|] == prefix && x[|prefix|] == last
    ensures x == prefix + [last]
  {
    assert forall i :: 0 <= i < |prefix| ==> x[i] == x[..|prefix|][i];
  }

  /** Number of occurrences of `x` in `s`. */
  function Count<T(==)>(s: seq<T>, x: T): (n: nat)
    ensures n <= |s|
    ensures n == 0 <==> x !in s
    decreases |s|
  {
    if s == [] then 0 else (if s[0] == x then 1 else 0) + Count(s[1..], x)
  }

  /** The first index holding an element that satisfies `p`, if any. */
  function FirstIndex<T>(s: seq<T>, p: T -> bool): (r: Option<nat>)
    ensures r.None? <==> forall i :: 0 <= i < |s| ==> !p(s[i])
    ensures r.Some? ==> r.value < |s| && p(s[r.value])
    ensures r.Some? ==> forall i :: 0 <= i < r.value ==> !p(s[i])
    decreases |s|
  {
    if s == [] then None
    else if p(s[0]) then Some(0)
    else match FirstIndex(s[1..], p)
      case None => None
      case Some(i) => Some(i + 1)
  }

  /** Applies `f` to every element, in order; `None` when any application gives `None`. */
  /** `xs.map(f)` for a total `f`. */
  function Project<A, B>(xs: seq<A>, f: A -> B): (r: seq<B>)
    ensures |r| == |xs|
    ensures forall i :: 0 <= i < |xs| ==> r[i] == f(xs[i])
  {
    seq(|xs|, i requires 0 <= i < |xs| => f(xs[i]))
  }

  function MapAll<A, B>(xs: seq<A>, f: A -> Option<B>): (r: Option<seq<B>>)
    ensures r.Some? <==> forall i :: 0 <= i < |xs| ==> f(xs[i]).Some?
    ensures r.Some? ==> |r.value| == |xs|
    ensures r.Some? ==> forall i :: 0 <= i < |xs| ==> f(xs[i]).Some? && r.value[i] == f(xs[i]).value
    decreases |xs|
  {
    if xs == [] then Some([])
    else
      match (f(xs[0]), MapAll(xs[1..], f))
      case (Some(y), Some(ys)) => Some([y] + ys)
      case (None, _) => None
      case (_, None) =>
        assert forall i :: 1 <= i < |xs| ==> xs[i] == xs[1..][i - 1];
        None
  }
}
