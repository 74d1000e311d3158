/**
 * The client side of the ordered-collection protocol, shared by the events,
 * tailor-made and blog pages: the list a page holds, sorted ascending on
 * fetch; `handleDragEnd`, which copies the list, splices the dragged item
 * from its source index to its destination index and gives every item its
 * index as position; and the body the page then posts to the order route.
 */
module Reorder {
  import opened Base
  import opened Rows

  /** A record as a page holds it: its id, its position and the rest of its fields. */
  datatype Listed<P> = Listed(id: Id, order: Option<int>, rest: P)

  // ----- the two splices -----

  /** `list.splice(i, 1)`: the list without the item at `i`. */
  function Removed<T>(xs: seq<T>, i: nat): (r: seq<T>)
    requires i < |xs|
    ensures |r| == |xs| - 1
    ensures forall k | 0 <= k < |r| :: r[k] == if k < i then xs[k] else xs[k + 1]
  {
    xs[..i] + xs[i + 1..]
  }

  /** `list.splice(j, 0, x)`: `x` put in at `j`, the items from `j` on one place further. */
  function Inserted<T>(xs: seq<T>, j: nat, x: T): (r: seq<T>)
    requires j <= |xs|
    ensures |r| == |xs| + 1 && r[j] == x
    ensures forall k | 0 <= k < |r| && k != j :: r[k] == if k < j then xs[k] else xs[k - 1]
  {
    xs[..j] + [x] + xs[j..]
  }

  /** The item at `s` taken out and put back in at `d`. */
  function Moved<T>(xs: seq<T>, s: nat, d: nat): seq<T>
    requires s < |xs| && d < |xs|
  {
    Inserted(Removed(xs, s), d, xs[s])
  }

  /** What ends up at `k` when the item at `s` moves to `d`, by where `k` lies against the two. */
  function MovedItem<T>(xs: seq<T>, s: nat, d: nat, k: nat): T
    requires s < |xs| && d < |xs| && k < |xs|
  {
    if k == d then xs[s]
    else if (k < s && k < d) || (k > s && k > d) then xs[k]
    else if k < d then xs[k + 1]
    else xs[k - 1]
  }

  /** Item `k` of a moved list, by where `k` lies against `s` and `d`. */
  lemma MovedAt<T>(xs: seq<T>, s: nat, d: nat)
    requires s < |xs| && d < |xs|
    ensures |Moved(xs, s, d)| == |xs|
    ensures forall k | 0 <= k < |xs| :: Moved(xs, s, d)[k] == MovedItem(xs, s, d, k)
  {
    var rest := Removed(xs, s);
    var moved := Moved(xs, s, d);
    forall k | 0 <= k < |xs| && k != d
      ensures moved[k] == if k < d then rest[k] else rest[k - 1]
    {
    }
  }

  /** Where item `k` of a moved list came from. */
  function MovedSource(s: nat, d: nat, k: nat): nat
  {
    if k == d then s else if s <= k < d then k + 1 else if d < k <= s then k - 1 else k
  }

  /** Where item `j` of a list ends up after a move. */
  function MovedTarget(s: nat, d: nat, j: nat): nat
  {
    if j == s then d else if s < j <= d then j - 1 else if d <= j < s then j + 1 else j
  }

  /** A move sends each index to exactly one other: every item of the moved list comes from one place, and each place is hit once. */
  lemma MovedIndices<T>(xs: seq<T>, s: nat, d: nat)
    requires s < |xs| && d < |xs|
    ensures forall k | 0 <= k < |xs| :: MovedSource(s, d, k) < |xs| && Moved(xs, s, d)[k] == xs[MovedSource(s, d, k)]
    ensures forall j | 0 <= j < |xs| :: MovedTarget(s, d, j) < |xs| && MovedSource(s, d, MovedTarget(s, d, j)) == j
    ensures forall i, k | 0 <= i < k < |xs| :: MovedSource(s, d, i) != MovedSource(s, d, k)
  {
    MovedAt(xs, s, d);
  }

  /** Putting an item in and taking it out again gives back the list. */
  lemma RemoveInserted<T>(xs: seq<T>, j: nat, x: T)
    requires j <= |xs|
    ensures Removed(Inserted(xs, j, x), j) == xs
  {
    var r := Removed(Inserted(xs, j, x), j);
    assert forall k | 0 <= k < |xs| :: r[k] == xs[k];
  }

  /** Taking an item out and putting it back at the same place gives back the list. */
  lemma InsertRemoved<T>(xs: seq<T>, i: nat)
    requires i < |xs|
    ensures Inserted(Removed(xs, i), i, xs[i]) == xs
  {
    var r := Inserted(Removed(xs, i), i, xs[i]);
    assert forall k | 0 <= k < |xs| :: r[k] == xs[k];
  }

  /**
   * What a drag does to the list: the same items, as many times each; the
   * dragged item at the destination index; and every other item in its old
   * relative order (taking the dragged item out again gives the list
   * without it).
   */
  lemma MovedPlaces<T>(xs: seq<T>, s: nat, d: nat)
    requires s < |xs| && d < |xs|
    ensures |Moved(xs, s, d)| == |xs|
    ensures multiset(Moved(xs, s, d)) == multiset(xs)
    ensures Moved(xs, s, d)[d] == xs[s]
    ensures Removed(Moved(xs, s, d), d) == Removed(xs, s)
  {
    var rest := Removed(xs, s);
    assert xs == xs[..s] + [xs[s]] + xs[s + 1..];
    assert rest == xs[..s] + xs[s + 1..];
    assert multiset(xs) == multiset(rest) + multiset{xs[s]};
    assert rest == rest[..d] + rest[d..];
    assert Moved(xs, s, d) == rest[..d] + [xs[s]] + rest[d..];
    RemoveInserted(rest, d, xs[s]);
  }

  /** A drop on the item's own place leaves the list as it was. */
  lemma MovedInPlace<T>(xs: seq<T>, s: nat)
    requires s < |xs|
    ensures Moved(xs, s, s) == xs
  {
    InsertRemoved(xs, s);
  }

  // ----- renumbering by index -----

  /** `list.map((item, index) => ({ ...item, order_number: index }))`. */
  function Renumbered<P>(xs: seq<Listed<P>>): (r: seq<Listed<P>>)
    ensures |r| == |xs|
    ensures forall i | 0 <= i < |xs| :: r[i].order == Some(i) && r[i].id == xs[i].id && r[i].rest == xs[i].rest
  {
    seq(|xs|, i requires 0 <= i < |xs| => xs[i].(order := Some(i)))
  }

  /** Only the positions change: renumbering a renumbered list changes nothing more. */
  lemma RenumberedIdempotent<P>(xs: seq<Listed<P>>)
    ensures Renumbered(Renumbered(xs)) == Renumbered(xs)
  {
  }

  /** The ids of a list, in its order. */
  function Ids<P>(xs: seq<Listed<P>>): (r: seq<Id>)
    ensures |r| == |xs| && forall i | 0 <= i < |xs| :: r[i] == xs[i].id
  {
    seq(|xs|, i requires 0 <= i < |xs| => xs[i].id)
  }

  /** No id appears twice. */
  predicate UniqueIds<P>(xs: seq<Listed<P>>)
  {
    forall i, j | 0 <= i < j < |xs| :: xs[i].id != xs[j].id
  }

  /**
   * The order request the page posts: `{ id, order }` of each item, in list
   * order (the tailor page sends exactly these two keys; the event and blog
   * pages send whole records, of which the routes read the same two).
   */
  function Payload<P>(xs: seq<Listed<P>>): (r: seq<Assignment>)
    requires forall i | 0 <= i < |xs| :: xs[i].order.Some?
    ensures |r| == |xs| && forall i | 0 <= i < |xs| :: r[i].id == xs[i].id && Some(r[i].order) == xs[i].order
  {
    seq(|xs|, i requires 0 <= i < |xs| => Assignment(xs[i].id, xs[i].order.value))
  }

  /** The request after a renumber lists every item once, at its index. */
  lemma RenumberedPayload<P>(xs: seq<Listed<P>>)
    requires UniqueIds(xs)
    ensures DistinctIds(Payload(Renumbered(xs)))
    ensures forall i | 0 <= i < |xs| :: Payload(Renumbered(xs))[i] == Assignment(xs[i].id, i)
  {
  }

  /**
   * A page list that names every row of the table once, posted after a
   * drag and written in full by an order route, leaves the table dense.
   */
  lemma DragWriteDense<P>(rows: Rows, xs: seq<Listed<P>>)
    requires UniqueIds(xs)
    requires forall i | 0 <= i < |xs| :: xs[i].id in rows
    requires forall k | k in rows :: exists i | 0 <= i < |xs| :: xs[i].id == k
    ensures Dense(Written(rows, Payload(Renumbered(xs))))
  {
    var items := Payload(Renumbered(xs));
    RenumberedPayload(xs);
    WrittenAt(rows, items);
    var fs := ListedSnapshot(rows, xs);
    var r := Written(rows, items);
    forall i | 0 <= i < |fs| ensures r[fs[i].id].order == Some(i) {
      assert items[i] == Assignment(xs[i].id, i);
    }
    IndexedDense(rows, fs, r);
  }

  /** A move keeps the ids of a list distinct and names the same rows. */
  lemma MovedCovers<P>(rows: Rows, xs: seq<Listed<P>>, s: nat, d: nat)
    requires s < |xs| && d < |xs|
    requires UniqueIds(xs)
    requires forall i | 0 <= i < |xs| :: xs[i].id in rows
    requires forall k | k in rows :: exists i | 0 <= i < |xs| :: xs[i].id == k
    ensures UniqueIds(Moved(xs, s, d))
    ensures forall i | 0 <= i < |Moved(xs, s, d)| :: Moved(xs, s, d)[i].id in rows
    ensures forall k | k in rows :: exists i | 0 <= i < |Moved(xs, s, d)| :: Moved(xs, s, d)[i].id == k
  {
    var m := Moved(xs, s, d);
    MovedIndices(xs, s, d);
    forall k | k in rows ensures exists i | 0 <= i < |m| :: m[i].id == k {
      var j :| 0 <= j < |xs| && xs[j].id == k;
      assert m[MovedTarget(s, d, j)] == xs[j];
    }
  }

  /** A list naming every row once reads as a fetch of the whole table, in list order. */
  lemma ListedSnapshot<P>(rows: Rows, xs: seq<Listed<P>>) returns (fs: seq<Fetched>)
    requires UniqueIds(xs)
    requires forall i | 0 <= i < |xs| :: xs[i].id in rows
    requires forall k | k in rows :: exists i | 0 <= i < |xs| :: xs[i].id == k
    ensures |fs| == |xs| && forall i | 0 <= i < |xs| :: fs[i].id == xs[i].id
    ensures Snapshot(fs, rows, rows.Keys)
  {
    fs := seq(|xs|, i requires 0 <= i < |xs| => Fetched(xs[i].id, rows[xs[i].id].order));
    assert FetchedIds(fs) == rows.Keys by {
      forall k | k in rows ensures k in FetchedIds(fs) {
        var i :| 0 <= i < |xs| && xs[i].id == k;
        assert fs[i].id == k;
      }
    }
  }

  // ----- the drag handler -----

  /** `DropResult`: where the drag started and, unless it was dropped outside the list, where it ended. */
  datatype Drop = Drop(source: nat, destination: Option<nat>)

  /**
   * `handleDragEnd`: with no destination the list stays and nothing is
   * posted; otherwise the copied list has the item at `source` moved to
   * `destination`, every item gets its index as position, and that list is
   * both kept and posted. The indices are taken as positions in `items`,
   * the list the splices run on.
   */
  method DragEnd<P>(items: seq<Listed<P>>, drop: Drop) returns (list: seq<Listed<P>>, posted: Option<seq<Listed<P>>>)
    requires drop.destination.Some? ==> drop.source < |items| && drop.destination.value < |items|
    ensures drop.destination.None? ==> list == items && posted == None
    ensures drop.destination.Some? ==>
      list == Renumbered(Moved(items, drop.source, drop.destination.value)) && posted == Some(list)
  {
    if drop.destination.None? {
      return items, None;
    }
    var a := new Listed<P>[|items|](i requires 0 <= i < |items| => items[i]);
    assert a[..] == items;
    Splice(a, drop.source, drop.destination.value);
    RenumberByIndex(a);
    list := a[..];
    posted := Some(list);
  }

  /** `const [moved] = list.splice(s, 1); list.splice(d, 0, moved)` on the copied array. */
  method Splice<T>(a: array<T>, s: nat, d: nat)
    requires s < a.Length && d < a.Length
    modifies a
    ensures a[..] == Moved(old(a[..]), s, d)
  {
    ghost var before := a[..];
    var dragged := a[s];
    if s < d {
      var i := s;
      while i < d
        invariant s <= i <= d
        invariant forall k | s <= k < i :: a[k] == before[k + 1]
        invariant forall k | 0 <= k < s || i <= k < a.Length :: a[k] == before[k]
      {
        a[i] := a[i + 1];
        i := i + 1;
      }
    } else {
      var i := s;
      while i > d
        invariant d <= i <= s
        invariant forall k | i < k <= s :: a[k] == before[k - 1]
        invariant forall k | 0 <= k <= i || s < k < a.Length :: a[k] == before[k]
      {
        a[i] := a[i - 1];
        i := i - 1;
      }
    }
    a[d] := dragged;
    assert forall k | 0 <= k < a.Length :: a[k] == MovedItem(before, s, d, k);
    MovedAt(before, s, d);
    assert a[..] == Moved(before, s, d);
  }

  /** `map((item, index) => ({ ...item, order_number: index }))`, written back into the array. */
  method RenumberByIndex<P>(a: array<Listed<P>>)
    modifies a
    ensures a[..] == Renumbered(old(a[..]))
  {
    ghost var before := a[..];
    var i := 0;
    while i < a.Length
      invariant 0 <= i <= a.Length
      invariant forall k | 0 <= k < i :: a[k] == before[k].(order := Some(k))
      invariant forall k | i <= k < a.Length :: a[k] == before[k]
    {
      a[i] := a[i].(order := Some(i));
      i := i + 1;
    }
    assert a[..] == Renumbered(before);
  }

  // ----- the fetched list -----

  /** The key of the pages' comparator `a.order_number - b.order_number` (a JSON null counts as 0). */
  function Key<P>(x: Listed<P>): int
  {
    x.order.GetOr(0)
  }

  predicate SortedByKey<P>(xs: seq<Listed<P>>)
  {
    forall i, j | 0 <= i < j < |xs| :: Key(xs[i]) <= Key(xs[j])
  }

  /** `x` put into a sorted list before the first item whose key is not smaller. */
  function InsertByKey<P>(x: Listed<P>, xs: seq<Listed<P>>): (r: seq<Listed<P>>)
    requires SortedByKey(xs)
    ensures SortedByKey(r)
    ensures |r| == |xs| + 1 && (r[0] == x || (xs != [] && r[0] == xs[0]))
    ensures multiset(r) == multiset(xs) + multiset{x}
    decreases |xs|
  {
    if xs == [] then [x]
    else if Key(xs[0]) < Key(x) then
      var tail := InsertByKey(x, xs[1..]);
      assert xs == [xs[0]] + xs[1..];
      KeyBoundKept(xs[0], xs[1..], x, tail);
      ConsSorted(xs[0], tail);
      [xs[0]] + tail
    else
      [x] + xs
  }

  /** Items whose keys are all at least the key of `y` keep that bound once `x`, which respects it too, is added and the list permuted. */
  lemma KeyBoundKept<P>(y: Listed<P>, xs: seq<Listed<P>>, x: Listed<P>, tail: seq<Listed<P>>)
    requires forall j | 0 <= j < |xs| :: Key(y) <= Key(xs[j])
    requires Key(y) <= Key(x)
    requires multiset(tail) == multiset(xs) + multiset{x}
    ensures forall j | 0 <= j < |tail| :: Key(y) <= Key(tail[j])
  {
    forall j | 0 <= j < |tail| ensures Key(y) <= Key(tail[j]) {
      assert tail[j] in multiset(tail);
      if tail[j] != x {
        assert tail[j] in multiset(xs);
        var k :| 0 <= k < |xs| && xs[k] == tail[j];
      }
    }
  }

  /** Putting an item in front of a sorted list whose keys are all at least its own keeps it sorted. */
  lemma ConsSorted<P>(y: Listed<P>, tail: seq<Listed<P>>)
    requires SortedByKey(tail)
    requires forall j | 0 <= j < |tail| :: Key(y) <= Key(tail[j])
    ensures SortedByKey([y] + tail)
  {
    var r := [y] + tail;
    forall i, j | 0 <= i < j < |r| ensures Key(r[i]) <= Key(r[j]) {
      assert r[j] == tail[j - 1];
      if i > 0 {
        assert r[i] == tail[i - 1];
      }
    }
  }

  /** `data.sort((a, b) => a.order - b.order)`: the fetched records, ascending by position. */
  function SortByOrder<P>(xs: seq<Listed<P>>): (r: seq<Listed<P>>)
    ensures SortedByKey(r)
    ensures multiset(r) == multiset(xs)
    decreases |xs|
  {
    if xs == [] then []
    else
      assert xs == [xs[0]] + xs[1..];
      InsertByKey(xs[0], SortByOrder(xs[1..]))
  }

  /** An already sorted list is left as it is. */
  lemma {:induction false} SortSorted<P>(xs: seq<Listed<P>>)
    requires SortedByKey(xs)
    ensures SortByOrder(xs) == xs
    decreases |xs|
  {
    if xs != [] {
      SortSorted(xs[1..]);
      assert xs[1..] == [] || Key(xs[0]) <= Key(xs[1..][0]);
      assert xs == [xs[0]] + xs[1..];
    }
  }

  // ----- filtered lists -----

  /** `list.filter(keep)`. */
  function Filter<P>(xs: seq<Listed<P>>, keep: Listed<P> -> bool): (r: seq<Listed<P>>)
    ensures |r| <= |xs|
    decreases |xs|
  {
    if xs == [] then []
    else if keep(xs[0]) then [xs[0]] + Filter(xs[1..], keep)
    else Filter(xs[1..], keep)
  }

  /** The filter keeps exactly the items that pass: each kept item is in the list and passes, and each passing item is kept. */
  lemma {:induction false} FilterKeepsExactly<P>(xs: seq<Listed<P>>, keep: Listed<P> -> bool)
    ensures forall i | 0 <= i < |Filter(xs, keep)| :: Filter(xs, keep)[i] in xs && keep(Filter(xs, keep)[i])
    ensures forall i | 0 <= i < |xs| && keep(xs[i]) :: xs[i] in Filter(xs, keep)
    decreases |xs|
  {
    if xs != [] {
      FilterKeepsExactly(xs[1..], keep);
      assert xs == [xs[0]] + xs[1..];
    }
  }

  /** A one-item list is kept or dropped as a whole; with `FilterAppend` this fixes the filter, order included. */
  lemma FilterSingle<P>(x: Listed<P>, keep: Listed<P> -> bool)
    ensures Filter([x], keep) == if keep(x) then [x] else []
  {
    assert [x][1..] == [];
  }

  /** A filter that keeps everything gives the list itself. */
  lemma {:induction false} FilterAll<P>(xs: seq<Listed<P>>, keep: Listed<P> -> bool)
    requires forall i | 0 <= i < |xs| :: keep(xs[i])
    ensures Filter(xs, keep) == xs
    decreases |xs|
  {
    if xs != [] {
      FilterAll(xs[1..], keep);
      assert xs == [xs[0]] + xs[1..];
    }
  }

  /** Filtering a joined list filters each part. */
  lemma {:induction false} FilterAppend<P>(a: seq<Listed<P>>, b: seq<Listed<P>>, keep: Listed<P> -> bool)
    ensures Filter(a + b, keep) == Filter(a, keep) + Filter(b, keep)
    decreases |a|
  {
    if a == [] {
      assert a + b == b;
    } else {
      FilterAppend(a[1..], b, keep);
      var ab := a + b;
      assert ab != [] && ab[0] == a[0];
      assert ab[1..] == a[1..] + b;
      if keep(a[0]) {
        calc {
          Filter(ab, keep);
          [a[0]] + Filter(a[1..] + b, keep);
          [a[0]] + (Filter(a[1..], keep) + Filter(b, keep));
          ([a[0]] + Filter(a[1..], keep)) + Filter(b, keep);
        }
      }
    }
  }

  // ----- indices into a filtered list -----

  /** Item `s` of the filtered list is the item at `p` of the full list: it is kept, and `s` kept items come before it. */
  predicate ShownAt<P>(xs: seq<Listed<P>>, keep: Listed<P> -> bool, p: nat, s: nat)
  {
    p < |xs| && keep(xs[p]) && |Filter(xs[..p], keep)| == s
  }

  /** The filtered list around a shown item: what comes before it, the item, what comes after it. */
  lemma ShownSplit<P>(xs: seq<Listed<P>>, keep: Listed<P> -> bool, p: nat, s: nat)
    requires ShownAt(xs, keep, p, s)
    ensures Filter(xs, keep) == Filter(xs[..p], keep) + [xs[p]] + Filter(xs[p + 1..], keep)
    ensures s < |Filter(xs, keep)| && Filter(xs, keep)[s] == xs[p]
  {
    assert xs == xs[..p] + ([xs[p]] + xs[p + 1..]);
    FilterAppend(xs[..p], [xs[p]] + xs[p + 1..], keep);
    FilterAppend([xs[p]], xs[p + 1..], keep);
    assert [xs[p]][1..] == [];
  }

  /** A longer prefix keeps at least as many items; one more kept item counts one more. */
  lemma PrefixCount<P>(xs: seq<Listed<P>>, keep: Listed<P> -> bool, a: nat, b: nat)
    requires a <= b <= |xs|
    ensures |Filter(xs[..a], keep)| <= |Filter(xs[..b], keep)|
    ensures a < b && keep(xs[a]) ==> |Filter(xs[..a], keep)| < |Filter(xs[..b], keep)|
  {
    assert xs[..b] == xs[..a] + xs[a..b];
    FilterAppend(xs[..a], xs[a..b], keep);
    if a < b && keep(xs[a]) {
      assert xs[a..b] == [xs[a]] + xs[a + 1..b];
      FilterAppend([xs[a]], xs[a + 1..b], keep);
      assert [xs[a]][1..] == [];
    }
  }

  /** Shown positions keep the order of the filtered list. */
  lemma ShownMonotone<P>(xs: seq<Listed<P>>, keep: Listed<P> -> bool, p: nat, s: nat, q: nat, d: nat)
    requires ShownAt(xs, keep, p, s) && ShownAt(xs, keep, q, d)
    ensures s < d <==> p < q
    ensures s == d <==> p == q
  {
    if p < q {
      PrefixCount(xs, keep, p, q);
    } else if q < p {
      PrefixCount(xs, keep, q, p);
    }
  }

  /** With nothing filtered out, item i of the filtered list is item i of the list. */
  lemma ShownAll<P>(xs: seq<Listed<P>>, keep: Listed<P> -> bool, i: nat)
    requires forall k | 0 <= k < |xs| :: keep(xs[k])
    requires i < |xs|
    ensures ShownAt(xs, keep, i, i)
  {
    FilterAll(xs[..i], keep);
  }

  /** Finds where item `s` of the filtered list stands in the full list. */
  method ShownIndex<P>(xs: seq<Listed<P>>, keep: Listed<P> -> bool, s: nat) returns (p: nat)
    requires s < |Filter(xs, keep)|
    ensures ShownAt(xs, keep, p, s)
  {
    var i, count := 0, 0;
    assert xs[..|xs|] == xs;
    while true
      invariant 0 <= i < |xs|
      invariant count == |Filter(xs[..i], keep)| && count <= s
      decreases |xs| - i
    {
      if keep(xs[i]) && count == s {
        return i;
      }
      PrefixCount(xs, keep, i, i + 1);
      assert xs[..i + 1] == xs[..i] + [xs[i]];
      FilterAppend(xs[..i], [xs[i]], keep);
      assert [xs[i]][1..] == [];
      if keep(xs[i]) {
        count := count + 1;
      }
      i := i + 1;
    }
  }

  /**
   * As the pages are written: the drop indices are positions in the filtered
   * list, the splices run on the full list. With the first item hidden,
   * dragging the first shown item ("b") one place down moves the hidden
   * item instead, and the shown list does not change.
   */
  lemma FilteredDragMovesHidden()
    ensures var xs := [Listed("a", Some(0), 0), Listed("b", Some(1), 0), Listed("c", Some(2), 0)];
      var keep := (x: Listed<int>) => x.id != "a";
      && Filter(xs, keep) == [xs[1], xs[2]]
      && Moved(xs, 0, 1)[1] == xs[0]
      && Filter(Moved(xs, 0, 1), keep) == Filter(xs, keep)
      && Moved(Filter(xs, keep), 0, 1) != Filter(xs, keep)
  {
    var xs := [Listed("a", Some(0), 0), Listed("b", Some(1), 0), Listed("c", Some(2), 0)];
    var keep := (x: Listed<int>) => x.id != "a";
    assert xs[1..][1..][1..] == [];
    assert xs[1..][1..] == [xs[2]];
    assert Filter(xs, keep) == [xs[1], xs[2]];
    var m := Moved(xs, 0, 1);
    assert m == [xs[1], xs[0], xs[2]];
    assert m[1..][1..] == [xs[2]];
    assert m[1..][1..][1..] == [];
    assert Moved([xs[1], xs[2]], 0, 1) == [xs[2], xs[1]];
  }

  /** Taking out a shown item takes it out of the shown list. */
  lemma FilterRemoved<P>(xs: seq<Listed<P>>, keep: Listed<P> -> bool, p: nat, s: nat)
    requires ShownAt(xs, keep, p, s)
    ensures s < |Filter(xs, keep)|
    ensures Filter(Removed(xs, p), keep) == Removed(Filter(xs, keep), s)
  {
    ShownSplit(xs, keep, p, s);
    FilterAppend(xs[..p], xs[p + 1..], keep);
    var f := Filter(xs, keep);
    assert f[..s] == Filter(xs[..p], keep);
    assert f[s + 1..] == Filter(xs[p + 1..], keep);
  }

  /** Without the dragged item (at `p`), the d-th shown item's old position `q` has d shown items before it. */
  lemma RemovedPrefix<P>(xs: seq<Listed<P>>, keep: Listed<P> -> bool, p: nat, s: nat, q: nat, d: nat)
    requires ShownAt(xs, keep, p, s) && ShownAt(xs, keep, q, d)
    ensures |Filter(Removed(xs, p)[..q], keep)| == d
  {
    ShownMonotone(xs, keep, p, s, q, d);
    var r := Removed(xs, p);
    if d <= s {
      assert r[..q] == xs[..q];
    } else {
      assert r[..q] == xs[..p] + xs[p + 1..q + 1];
      FilterAppend(xs[..p], xs[p + 1..q + 1], keep);
      assert xs[..q + 1][..p] == xs[..p];
      assert xs[..q + 1][p + 1..] == xs[p + 1..q + 1];
      ShownSplit(xs[..q + 1], keep, p, s);
      assert xs[..q + 1] == xs[..q] + [xs[q]];
      FilterAppend(xs[..q], [xs[q]], keep);
      assert [xs[q]][1..] == [];
    }
  }

  /** Putting a kept item in at a place with d kept items before it puts it at d in the filtered list. */
  lemma FilterInserted<P>(r: seq<Listed<P>>, keep: Listed<P> -> bool, q: nat, d: nat, x: Listed<P>)
    requires q <= |r| && |Filter(r[..q], keep)| == d && keep(x)
    ensures d <= |Filter(r, keep)|
    ensures Filter(Inserted(r, q, x), keep) == Inserted(Filter(r, keep), d, x)
  {
    assert r == r[..q] + r[q..];
    FilterAppend(r[..q], r[q..], keep);
    assert Inserted(r, q, x) == r[..q] + ([x] + r[q..]);
    FilterAppend(r[..q], [x] + r[q..], keep);
    FilterAppend([x], r[q..], keep);
    assert [x][1..] == [];
    var g := Filter(r, keep);
    assert g[..d] == Filter(r[..q], keep);
    assert g[d..] == Filter(r[q..], keep);
  }

  /**
   * The intended drag: with the drop indices read in the filtered list and
   * translated to positions `p`, `q` of the full list, the full list keeps
   * its items and the shown list changes exactly as the drop says.
   */
  lemma MovedShownPlaces<P>(xs: seq<Listed<P>>, keep: Listed<P> -> bool, p: nat, s: nat, q: nat, d: nat)
    requires ShownAt(xs, keep, p, s) && ShownAt(xs, keep, q, d)
    ensures s < |Filter(xs, keep)| && d < |Filter(xs, keep)|
    ensures multiset(Moved(xs, p, q)) == multiset(xs)
    ensures Filter(Moved(xs, p, q), keep) == Moved(Filter(xs, keep), s, d)
  {
    ShownSplit(xs, keep, p, s);
    ShownSplit(xs, keep, q, d);
    MovedPlaces(xs, p, q);
    FilterRemoved(xs, keep, p, s);
    RemovedPrefix(xs, keep, p, s, q, d);
    FilterInserted(Removed(xs, p), keep, q, d, xs[p]);
  }

  /**
   * `handleDragEnd` with the drop indices read in the filtered list, as the
   * draggables number them: they are translated to positions in the full
   * list before the splices, so by `MovedShownPlaces` the shown list changes
   * as the drop says; with a filter that hides nothing this is `DragEnd`.
   */
  method DragEndShown<P>(items: seq<Listed<P>>, keep: Listed<P> -> bool, drop: Drop)
    returns (list: seq<Listed<P>>, posted: Option<seq<Listed<P>>>)
    requires drop.destination.Some? ==>
      drop.source < |Filter(items, keep)| && drop.destination.value < |Filter(items, keep)|
    ensures drop.destination.None? ==> list == items && posted == None
    ensures drop.destination.Some? ==>
      exists p: nat, q: nat | ShownAt(items, keep, p, drop.source) && ShownAt(items, keep, q, drop.destination.value) ::
        list == Renumbered(Moved(items, p, q)) && posted == Some(list)
  {
    if drop.destination.None? {
      return items, None;
    }
    var p := ShownIndex(items, keep, drop.source);
    var q := ShownIndex(items, keep, drop.destination.value);
    list, posted := DragEnd(items, Drop(p, Some(q)));
  }
}
