/**
 * The ordered-collection protocol on values. A table is a map from row id to
 * a row holding a position (`order_number`, or `order` in tailor_made; NULL
 * when unset) and the other columns. The functions below are the effects the
 * routes have on a table; the lemmas say which of them keep, restore or break
 * density, i.e. positions that are exactly 0 .. n-1, each used once.
 */
module Rows {
  import opened Base
  import opened Fields

  type Id = string

  datatype Row = Row(order: Option<int>, cols: Columns)

  type Rows = map<Id, Row>

  /** Every row has a position in 0 .. n-1. */
  ghost predicate Bounded(rows: Rows)
  {
    forall k | k in rows :: rows[k].order.Some? && 0 <= rows[k].order.value < |rows|
  }

  /** No two rows share a position. */
  ghost predicate Injective(rows: Rows)
  {
    forall j, k | j in rows && k in rows && j != k :: rows[j].order != rows[k].order
  }

  /** Positions are exactly 0 .. n-1, each used by one row. */
  ghost predicate Dense(rows: Rows)
  {
    Bounded(rows) && Injective(rows)
  }

  /** `ORDER BY position ASC`, NULLs last (PostgreSQL's default for an ascending sort). */
  predicate OrderLe(a: Option<int>, b: Option<int>)
  {
    if a.None? then b.None? else b.None? || a.value <= b.value
  }

  /** `a` sorts strictly before `b`. */
  predicate OrderLt(a: Option<int>, b: Option<int>)
  {
    OrderLe(a, b) && !OrderLe(b, a)
  }

  /** One row as a fetch of `id, order_number` returns it. */
  datatype Fetched = Fetched(id: Id, order: Option<int>)

  function FetchedIds(fs: seq<Fetched>): set<Id>
  {
    set i | 0 <= i < |fs| :: fs[i].id
  }

  lemma FetchedIdsSnoc(fs: seq<Fetched>, x: Fetched)
    ensures FetchedIds(fs + [x]) == FetchedIds(fs) + {x.id}
  {
    var g := fs + [x];
    forall k | k in FetchedIds(fs) ensures k in FetchedIds(g) {
      var i :| 0 <= i < |fs| && fs[i].id == k;
      assert g[i].id == k;
    }
    assert g[|fs|].id == x.id;
  }

  /** One more fetched row taken, counting only the ids outside `refused`. */
  lemma FetchedPrefixStep(fs: seq<Fetched>, i: nat, refused: set<Id>)
    requires Distinct(fs) && i < |fs|
    ensures fs[i].id !in FetchedIds(fs[..i])
    ensures fs[i].id !in refused ==> FetchedIds(fs[..i + 1]) - refused == (FetchedIds(fs[..i]) - refused) + {fs[i].id}
    ensures fs[i].id in refused ==> FetchedIds(fs[..i + 1]) - refused == FetchedIds(fs[..i]) - refused
  {
    FetchedIdsSnoc(fs[..i], fs[i]);
    assert fs[..i + 1] == fs[..i] + [fs[i]];
  }

  predicate Distinct(fs: seq<Fetched>)
  {
    forall i, j | 0 <= i < j < |fs| :: fs[i].id != fs[j].id
  }

  predicate Ascending(fs: seq<Fetched>)
  {
    forall i, j | 0 <= i < j < |fs| :: OrderLe(fs[i].order, fs[j].order)
  }

  /** `fs` lists every row of `rows` whose id is in `keys` exactly once, with its position. */
  ghost predicate Snapshot(fs: seq<Fetched>, rows: Rows, keys: set<Id>)
  {
    && keys <= rows.Keys
    && Distinct(fs)
    && FetchedIds(fs) == keys
    && (forall i | 0 <= i < |fs| :: fs[i].id in rows && rows[fs[i].id].order == fs[i].order)
  }

  /** `{ id, order_number }`, as the renumbering passes and the reorder requests carry it. */
  datatype Assignment = Assignment(id: Id, order: int)

  function AssignedIds(items: seq<Assignment>): set<Id>
  {
    set i | 0 <= i < |items| :: items[i].id
  }

  predicate DistinctIds(items: seq<Assignment>)
  {
    forall i, j | 0 <= i < j < |items| :: items[i].id != items[j].id
  }

  /** `rows.map((row, index) => ({ id: row.id, order_number: index }))`. */
  function Ranks(fs: seq<Fetched>): (r: seq<Assignment>)
    ensures |r| == |fs|
    ensures forall i | 0 <= i < |fs| :: r[i] == Assignment(fs[i].id, i)
  {
    seq(|fs|, i requires 0 <= i < |fs| => Assignment(fs[i].id, i))
  }

  /** `update({ order_number: o }).eq("id", k)`: a missing id matches no row. */
  function WithOrder(rows: Rows, k: Id, o: Option<int>): Rows
  {
    if k in rows then rows[k := rows[k].(order := o)] else rows
  }

  /** The position writes of `items`, applied one after the other. */
  function Written(rows: Rows, items: seq<Assignment>): Rows
    decreases |items|
  {
    if items == [] then rows
    else Written(WithOrder(rows, items[0].id, Some(items[0].order)), items[1..])
  }

  /**
   * A sequence of position writes keeps the set of rows and every other
   * column; a listed row gets its listed position (the writes name distinct
   * rows), and an unlisted row is untouched.
   */
  lemma {:induction false} WrittenAt(rows: Rows, items: seq<Assignment>)
    ensures Written(rows, items).Keys == rows.Keys
    ensures forall k | k in rows :: Written(rows, items)[k].cols == rows[k].cols
    ensures forall k | k in rows && k !in AssignedIds(items) :: Written(rows, items)[k] == rows[k]
    ensures DistinctIds(items) ==>
      forall i | 0 <= i < |items| && items[i].id in rows :: Written(rows, items)[items[i].id].order == Some(items[i].order)
    decreases |items|
  {
    if items != [] {
      var head := WithOrder(rows, items[0].id, Some(items[0].order));
      WrittenAt(head, items[1..]);
      assert forall i | 0 <= i < |items| - 1 :: items[1..][i] == items[i + 1];
      assert AssignedIds(items) == {items[0].id} + AssignedIds(items[1..]);
      if DistinctIds(items) {
        assert DistinctIds(items[1..]);
        forall i | 0 <= i < |items| && items[i].id in rows
          ensures Written(rows, items)[items[i].id].order == Some(items[i].order)
        {
          if i == 0 {
            assert items[0].id !in AssignedIds(items[1..]);
          } else {
            assert items[1..][i - 1] == items[i];
          }
        }
      }
    }
  }

  /** Writing one more assignment after a sequence of writes. */
  lemma {:induction false} WrittenSnoc(rows: Rows, items: seq<Assignment>, x: Assignment)
    ensures Written(rows, items + [x]) == WithOrder(Written(rows, items), x.id, Some(x.order))
    decreases |items|
  {
    if items != [] {
      assert (items + [x])[1..] == items[1..] + [x];
      WrittenSnoc(WithOrder(rows, items[0].id, Some(items[0].order)), items[1..], x);
    } else {
      assert [x][1..] == [];
    }
  }

  // ----- counting facts behind density -----

  /** The positions in use. */
  function Positions(rows: Rows): set<int>
  {
    set k | k in rows && rows[k].order.Some? :: rows[k].order.value
  }

  /** The positions 0 .. n-1. */
  function Upto(n: nat): set<int>
  {
    if n == 0 then {} else Upto(n - 1) + {n - 1}
  }

  lemma {:induction false} UptoCard(n: nat)
    ensures |Upto(n)| == n
    ensures forall v :: v in Upto(n) <==> 0 <= v < n
  {
    if n > 0 {
      UptoCard(n - 1);
    }
  }

  lemma {:induction false} DistinctPositionsCard(rows: Rows)
    requires forall k | k in rows :: rows[k].order.Some?
    requires forall j, k | j in rows && k in rows && j != k :: rows[j].order != rows[k].order
    ensures |Positions(rows)| == |rows|
    decreases |rows|
  {
    if rows != map[] {
      var k :| k in rows;
      var rest := rows - {k};
      DistinctPositionsCard(rest);
      forall x | x in Positions(rows) ensures x in Positions(rest) + {rows[k].order.value} {
        var j :| j in rows && rows[j].order.Some? && rows[j].order.value == x;
        if j != k { assert j in rest; }
      }
      assert Positions(rows) == Positions(rest) + {rows[k].order.value};
      assert rows[k].order.value !in Positions(rest);
      assert rows.Keys == rest.Keys + {k};
    }
  }

  lemma SubsetSameCard(a: set<int>, b: set<int>)
    requires a <= b && |a| == |b|
    ensures a == b
  {
    assert b == a + (b - a);
    assert |b| == |a| + |b - a|;
  }

  /** In a dense table every position 0 .. n-1 is taken by some row. */
  lemma DenseOnto(rows: Rows, v: int)
    requires Dense(rows) && 0 <= v < |rows|
    ensures exists k | k in rows :: rows[k].order == Some(v)
  {
    DistinctPositionsCard(rows);
    UptoCard(|rows|);
    SubsetSameCard(Positions(rows), Upto(|rows|));
    assert v in Upto(|rows|);
  }

  // ----- renumbering by rank: the delete and edit routes of clients, news, tailor_made -----

  lemma {:induction false} DistinctCard(fs: seq<Fetched>)
    requires Distinct(fs)
    ensures |FetchedIds(fs)| == |fs|
  {
    if fs != [] {
      var init := fs[..|fs| - 1];
      DistinctCard(init);
      assert FetchedIds(fs) == FetchedIds(init) + {fs[|fs| - 1].id};
      assert fs[|fs| - 1].id !in FetchedIds(init);
    }
  }

  /** What the renumbering upsert does: same rows and columns, and the row at index i of the snapshot gets position i. */
  lemma RanksAt(rows: Rows, fs: seq<Fetched>)
    requires Snapshot(fs, rows, rows.Keys)
    ensures var r := Written(rows, Ranks(fs));
      && r.Keys == rows.Keys
      && (forall k | k in rows :: r[k].cols == rows[k].cols)
      && (forall i | 0 <= i < |fs| :: r[fs[i].id].order == Some(i))
  {
    WrittenAt(rows, Ranks(fs));
    assert DistinctIds(Ranks(fs));
    forall i | 0 <= i < |fs| ensures Written(rows, Ranks(fs))[fs[i].id].order == Some(i) {
      assert Ranks(fs)[i] == Assignment(fs[i].id, i);
    }
  }

  /** A table whose rows take the indices of a snapshot listing each of them once is dense. */
  lemma IndexedDense(rows: Rows, fs: seq<Fetched>, r: Rows)
    requires Snapshot(fs, rows, rows.Keys)
    requires r.Keys == rows.Keys
    requires forall i | 0 <= i < |fs| :: r[fs[i].id].order == Some(i)
    ensures Dense(r)
  {
    DistinctCard(fs);
    assert |rows.Keys| == |rows|;
    forall k | k in r ensures r[k].order.Some? && 0 <= r[k].order.value < |r| {
      assert k in FetchedIds(fs);
      var i :| 0 <= i < |fs| && fs[i].id == k;
    }
    forall j, k | j in r && k in r && j != k ensures r[j].order != r[k].order {
      assert j in FetchedIds(fs) && k in FetchedIds(fs);
      var a :| 0 <= a < |fs| && fs[a].id == j;
      var b :| 0 <= b < |fs| && fs[b].id == k;
    }
  }

  /** Taking the indices of an ascending snapshot keeps the relative order of rows that sorted strictly apart. */
  lemma IndexedKeepOrder(rows: Rows, fs: seq<Fetched>, r: Rows, j: Id, k: Id)
    requires Snapshot(fs, rows, rows.Keys) && Ascending(fs)
    requires r.Keys == rows.Keys
    requires forall i | 0 <= i < |fs| :: r[fs[i].id].order == Some(i)
    requires j in rows && k in rows && OrderLt(rows[j].order, rows[k].order)
    ensures PlacedBefore(r, j, k)
  {
    assert j in FetchedIds(fs) && k in FetchedIds(fs);
    var a :| 0 <= a < |fs| && fs[a].id == j;
    var b :| 0 <= b < |fs| && fs[b].id == k;
    assert !OrderLe(fs[b].order, fs[a].order);
    assert a < b;
  }

  lemma {:induction false} IncreasingAtLeastIndex(v: seq<int>, i: nat)
    requires forall a, b | 0 <= a < b < |v| :: v[a] < v[b]
    requires forall a | 0 <= a < |v| :: 0 <= v[a]
    requires i < |v|
    ensures v[i] >= i
  {
    if i > 0 { IncreasingAtLeastIndex(v, i - 1); }
  }

  lemma {:induction false} IncreasingBelowTop(v: seq<int>, i: nat)
    requires forall a, b | 0 <= a < b < |v| :: v[a] < v[b]
    requires i < |v|
    ensures v[i] + (|v| - 1 - i) <= v[|v| - 1]
    decreases |v| - i
  {
    if i < |v| - 1 { IncreasingBelowTop(v, i + 1); }
  }

  /** In an ascending snapshot of a dense table, the row at index i already has position i. */
  lemma DenseSnapshotAtIndex(rows: Rows, fs: seq<Fetched>)
    requires Dense(rows) && Snapshot(fs, rows, rows.Keys) && Ascending(fs)
    ensures forall i | 0 <= i < |fs| :: fs[i].order == Some(i)
  {
    DistinctCard(fs);
    assert |rows.Keys| == |rows|;
    var v := seq(|fs|, i requires 0 <= i < |fs| => fs[i].order.value);
    forall a, b | 0 <= a < b < |v| ensures v[a] < v[b] {
      assert OrderLe(fs[a].order, fs[b].order);
      assert fs[a].order != fs[b].order;
    }
    forall i | 0 <= i < |fs| ensures fs[i].order == Some(i) {
      IncreasingAtLeastIndex(v, i);
      IncreasingBelowTop(v, i);
    }
  }

  /** Renumbering a table that is already dense writes back the positions it has. */
  lemma IndexedIdempotent(rows: Rows, fs: seq<Fetched>, r: Rows)
    requires Dense(rows) && Snapshot(fs, rows, rows.Keys) && Ascending(fs)
    requires r.Keys == rows.Keys && forall k | k in rows :: r[k].cols == rows[k].cols
    requires forall i | 0 <= i < |fs| :: r[fs[i].id].order == Some(i)
    ensures r == rows
  {
    DenseSnapshotAtIndex(rows, fs);
    forall k | k in rows ensures r[k] == rows[k] {
      assert k in FetchedIds(fs);
      var i :| 0 <= i < |fs| && fs[i].id == k;
    }
  }

  /** Row `j` sits strictly before row `k` in `rows`, both positioned. */
  ghost predicate PlacedBefore(rows: Rows, j: Id, k: Id)
  {
    j in rows && k in rows && rows[j].order.Some? && rows[k].order.Some? && rows[j].order.value < rows[k].order.value
  }

  /**
   * `after` is `before` renumbered by rank: same rows and columns, dense, rows
   * that sorted strictly apart keep their relative order, and a table that
   * was already dense is left as it was.
   */
  ghost predicate RankedRows(before: Rows, after: Rows)
  {
    && after.Keys == before.Keys
    && (forall k | k in before :: after[k].cols == before[k].cols)
    && Dense(after)
    && (forall j, k | j in before && k in before && OrderLt(before[j].order, before[k].order) :: PlacedBefore(after, j, k))
    && (Dense(before) ==> after == before)
  }

  /** As `RankedRows`, with `a` listing every row once with its new index. */
  ghost predicate Ranked(before: Rows, after: Rows, a: seq<Assignment>)
  {
    && RankedRows(before, after)
    && |a| == |before| && DistinctIds(a) && AssignedIds(a) == before.Keys
    && (forall i | 0 <= i < |a| :: a[i].order == i && a[i].id in after && after[a[i].id].order == Some(i))
  }

  /** The renumbering pass of the delete and edit routes yields a ranked table. */
  lemma RanksRanked(rows: Rows, fs: seq<Fetched>)
    requires Snapshot(fs, rows, rows.Keys) && Ascending(fs)
    ensures Ranked(rows, Written(rows, Ranks(fs)), Ranks(fs))
  {
    var a := Ranks(fs);
    var r := Written(rows, a);
    RanksAt(rows, fs);
    DistinctCard(fs);
    assert |rows.Keys| == |rows|;
    assert AssignedIds(a) == FetchedIds(fs) by {
      forall k | k in FetchedIds(fs) ensures k in AssignedIds(a) {
        var i :| 0 <= i < |fs| && fs[i].id == k;
        assert a[i].id == k;
      }
    }
    assert DistinctIds(a);
    IndexedDense(rows, fs, r);
    forall j, k | j in rows && k in rows && OrderLt(rows[j].order, rows[k].order) ensures PlacedBefore(r, j, k) {
      IndexedKeepOrder(rows, fs, r, j, k);
    }
    if Dense(rows) {
      IndexedIdempotent(rows, fs, r);
    }
  }

  // ----- insert at the front: clients -----

  /** JavaScript `order_number + 1`, where a NULL position reads as 0. */
  function PlusOne(o: Option<int>): int
  {
    o.GetOr(0) + 1
  }

  /** The rows named in `written` have their position raised by one. */
  function Bumped(rows: Rows, written: set<Id>): Rows
  {
    map k | k in rows :: if k in written then rows[k].(order := Some(PlusOne(rows[k].order))) else rows[k]
  }

  /** Raising one more row, not yet raised, extends the raised set by it. */
  lemma BumpedStep(rows: Rows, written: set<Id>, k: Id)
    requires k in rows && k !in written
    ensures WithOrder(Bumped(rows, written), k, Some(PlusOne(rows[k].order))) == Bumped(rows, written + {k})
  {
  }

  /**
   * Shifting every row up by one and inserting the new row at 0 keeps a
   * dense table dense exactly when no shift write was refused.
   */
  lemma InsertFrontDense(rows: Rows, refused: set<Id>, id: Id, cols: Columns)
    requires Dense(rows) && id !in rows
    ensures Dense(Bumped(rows, rows.Keys - refused)[id := Row(Some(0), cols)])
        <==> rows.Keys * refused == {}
  {
    if rows.Keys * refused == {} {
      assert rows.Keys - refused == rows.Keys by {
        forall k | k in rows.Keys ensures k !in refused {
          assert k !in rows.Keys * refused;
        }
      }
      RaisedAllDense(rows, id, cols);
    } else {
      var k :| k in rows.Keys * refused;
      InsertFrontCollision(rows, refused, id, cols, k);
    }
  }

  /** With every row raised, the new row at 0 completes a dense table. */
  lemma RaisedAllDense(rows: Rows, id: Id, cols: Columns)
    requires Dense(rows) && id !in rows
    ensures Dense(Bumped(rows, rows.Keys)[id := Row(Some(0), cols)])
  {
    var r := Bumped(rows, rows.Keys)[id := Row(Some(0), cols)];
    assert r.Keys == rows.Keys + {id};
    forall k | k in rows ensures r[k].order == Some(rows[k].order.value + 1) {
      assert rows[k].order.Some?;
      BumpedAt(rows, k);
    }
    RaisedDense(rows, r, id);
  }

  /** A raised row moves up by one. */
  lemma BumpedAt(rows: Rows, k: Id)
    requires k in rows && rows[k].order.Some?
    ensures Bumped(rows, rows.Keys)[k].order == Some(rows[k].order.value + 1)
  {
  }

  /** Density of a table whose old rows all moved up by one and whose new row sits at 0. */
  lemma RaisedDense(rows: Rows, r: Rows, id: Id)
    requires Dense(rows) && id !in rows
    requires r.Keys == rows.Keys + {id} && r[id].order == Some(0)
    requires forall k | k in rows :: r[k].order == Some(rows[k].order.value + 1)
    ensures Dense(r)
  {
    assert |r| == |rows| + 1 by {
      assert |r.Keys| == |rows.Keys| + 1;
    }
    forall k | k in r ensures r[k].order.Some? && 0 <= r[k].order.value < |r| {
      if k != id {
        assert k in rows;
      }
    }
    forall j, k | j in r && k in r && j != k ensures r[j].order != r[k].order {
      if j != id && k != id {
        assert rows[j].order != rows[k].order;
      } else if j == id {
        assert k in rows;
      } else {
        assert j in rows;
      }
    }
  }

  /**
   * If a refused row keeps position p, whoever held p - 1 (or the new row when
   * p is 0) collides with it; by descent some refused row collides.
   */
  lemma {:induction false} InsertFrontCollision(rows: Rows, refused: set<Id>, id: Id, cols: Columns, k: Id)
    requires Dense(rows) && id !in rows
    requires k in rows && k in refused
    ensures !Dense(Bumped(rows, rows.Keys - refused)[id := Row(Some(0), cols)])
    decreases rows[k].order.value
  {
    var r := Bumped(rows, rows.Keys - refused)[id := Row(Some(0), cols)];
    var v := rows[k].order.value;
    assert k in r && r[k].order == Some(v);
    if v == 0 {
      assert id in r && id != k && r[id].order == Some(0);
    } else {
      DenseOnto(rows, v - 1);
      var j :| j in rows && rows[j].order == Some(v - 1);
      if j in refused {
        InsertFrontCollision(rows, refused, id, cols, j);
      } else {
        assert j in r && j != k && r[j].order == Some(v);
      }
    }
  }

  // ----- insert with a given position: tailor_made, blogs, events, news -----

  /** Adding a row to a dense table keeps it dense exactly when the row takes position n. */
  lemma InsertDenseIff(rows: Rows, id: Id, row: Row)
    requires Dense(rows) && id !in rows
    ensures Dense(rows[id := row]) <==> row.order == Some(|rows|)
  {
    var r := rows[id := row];
    assert |r| == |rows| + 1 by {
      assert r.Keys == rows.Keys + {id};
    }
    if row.order == Some(|rows|) {
      forall k | k in r ensures r[k].order.Some? && 0 <= r[k].order.value < |r| {
        if k != id { assert r[k] == rows[k]; }
      }
      forall j, k | j in r && k in r && j != k ensures r[j].order != r[k].order {
        if j != id && k != id { assert r[j] == rows[j] && r[k] == rows[k]; }
      }
    } else if row.order.Some? && 0 <= row.order.value < |rows| {
      DenseOnto(rows, row.order.value);
      var j :| j in rows && rows[j].order == row.order;
      assert j in r && id in r && j != id && r[j].order == r[id].order;
    } else {
      assert id in r && !(r[id].order.Some? && 0 <= r[id].order.value < |r|);
    }
  }

  // ----- delete without renumbering: blogs, legacy clients -----

  /** Deleting a row from a dense table leaves it dense exactly when the row was last. */
  lemma DeleteDenseIff(rows: Rows, k: Id)
    requires Dense(rows) && k in rows
    ensures Dense(rows - {k}) <==> rows[k].order == Some(|rows| - 1)
  {
    var r := rows - {k};
    assert |r| == |rows| - 1 by {
      assert rows.Keys == r.Keys + {k};
    }
    if rows[k].order == Some(|rows| - 1) {
      forall j | j in r ensures r[j].order.Some? && 0 <= r[j].order.value < |r| {
        assert rows[j].order != rows[k].order;
      }
      forall i, j | i in r && j in r && i != j ensures r[i].order != r[j].order {
        assert rows[i].order != rows[j].order;
      }
    } else {
      DenseOnto(rows, |rows| - 1);
      var j :| j in rows && rows[j].order == Some(|rows| - 1);
      assert j in r && !(r[j].order.value < |r|);
    }
  }

  // ----- delete, then close the gap: events -----

  /** `.gt("order_number", bound)`: NULL on either side matches nothing. */
  predicate Above(o: Option<int>, bound: Option<int>)
  {
    o.Some? && bound.Some? && o.value > bound.value
  }

  function AboveSet(rows: Rows, bound: Option<int>): set<Id>
  {
    set k | k in rows && Above(rows[k].order, bound)
  }

  /** The rows named in `written` have their position lowered by one. */
  function Lowered(rows: Rows, written: set<Id>): Rows
  {
    map k | k in rows :: if k in written then rows[k].(order := Some(rows[k].order.GetOr(0) - 1)) else rows[k]
  }

  /** Lowering one more row, not yet lowered, extends the lowered set by it. */
  lemma LoweredStep(rows: Rows, written: set<Id>, k: Id)
    requires k in rows && k !in written
    ensures WithOrder(Lowered(rows, written), k, Some(rows[k].order.GetOr(0) - 1)) == Lowered(rows, written + {k})
  {
  }

  /** Deleting a row and lowering every row above it keeps a dense table dense. */
  lemma DeleteLowerDense(rows: Rows, k: Id)
    requires Dense(rows) && k in rows
    ensures Dense(Lowered(rows - {k}, AboveSet(rows - {k}, rows[k].order)))
  {
    var rest := rows - {k};
    var up := AboveSet(rest, rows[k].order);
    var r := Lowered(rest, up);
    assert r.Keys == rows.Keys - {k};
    forall j | j in r
      ensures r[j].order == if rows[j].order.value > rows[k].order.value then Some(rows[j].order.value - 1) else rows[j].order
    {
      assert j in rest;
    }
    ClosedGapDense(rows, k, r);
  }

  /** Density of a table that lost row `k` and whose rows above it moved down by one. */
  lemma ClosedGapDense(rows: Rows, k: Id, r: Rows)
    requires Dense(rows) && k in rows
    requires r.Keys == rows.Keys - {k}
    requires forall j | j in r ::
      r[j].order == if rows[j].order.value > rows[k].order.value then Some(rows[j].order.value - 1) else rows[j].order
    ensures Dense(r)
  {
    ClosedGapBounded(rows, k, r);
    var p := rows[k].order.value;
    forall i, j | i in r && j in r && i != j ensures r[i].order != r[j].order {
      ClosedGapApart(rows[i].order.value, rows[j].order.value, p);
    }
  }

  /** After the gap closes, every position lies in `0 .. n-2`. */
  lemma ClosedGapBounded(rows: Rows, k: Id, r: Rows)
    requires Dense(rows) && k in rows
    requires r.Keys == rows.Keys - {k}
    requires forall j | j in r ::
      r[j].order == if rows[j].order.value > rows[k].order.value then Some(rows[j].order.value - 1) else rows[j].order
    ensures Bounded(r)
  {
    assert |r| == |rows| - 1 by {
      assert rows.Keys == r.Keys + {k};
    }
    forall j | j in r ensures r[j].order.Some? && 0 <= r[j].order.value < |r| {
      assert rows[j].order != rows[k].order;
    }
  }

  /** Two distinct positions other than `p` stay distinct when those above `p` move down by one. */
  lemma ClosedGapApart(a: int, b: int, p: int)
    requires a != b && a != p && b != p
    ensures (if a > p then a - 1 else a) != (if b > p then b - 1 else b)
  {
  }

  /** Lowering the rows above a deleted position does not close gaps that were already there. */
  lemma DeleteLowerKeepsGaps()
    ensures var rows := map["a" := Row(Some(0), map[]), "b" := Row(Some(2), map[]), "c" := Row(Some(3), map[])];
            !Dense(Lowered(rows - {"a"}, AboveSet(rows - {"a"}, Some(0))))
  {
    var rows := map["a" := Row(Some(0), map[]), "b" := Row(Some(2), map[]), "c" := Row(Some(3), map[])];
    var rest := rows - {"a"};
    assert "b" in AboveSet(rest, Some(0)) && "c" in AboveSet(rest, Some(0));
    var r := Lowered(rest, AboveSet(rest, Some(0)));
    assert r.Keys == {"b", "c"};
    assert r["c"].order == Some(2);
  }

  // ----- edit with a range rewrite: events -----

  /** `.gte("order_number", lo).lte("order_number", hi)`; a NaN bound (`None`) or a NULL position matches nothing. */
  predicate InRange(o: Option<int>, lo: Option<int>, hi: Option<int>)
  {
    o.Some? && lo.Some? && hi.Some? && lo.value <= o.value <= hi.value
  }

  /** `update({ order_number: v }).neq("id", target).gte(lo).lte(hi)`. */
  function RangeRewritten(rows: Rows, target: Id, lo: Option<int>, hi: Option<int>, v: Option<int>): Rows
  {
    map k | k in rows :: if k != target && InRange(rows[k].order, lo, hi) then rows[k].(order := v) else rows[k]
  }

  /** The effect of the events edit on positions: the range rewrite, then the target's new position. */
  function MovedByRewrite(rows: Rows, target: Id, to: int): Rows
    requires target in rows && rows[target].order.Some?
  {
    var from := rows[target].order.value;
    var lo := if from < to then from else to;
    var hi := if from < to then to else from;
    WithOrder(RangeRewritten(rows, target, Some(lo), Some(hi), Some(from)), target, Some(to))
  }

  /**
   * Moving a row of a dense table by two or more positions with the range
   * rewrite breaks density: two of the rows in between both receive the old
   * position.
   */
  lemma RangeRewriteBreaksDensity(rows: Rows, target: Id, to: int)
    requires Dense(rows) && target in rows && 0 <= to < |rows|
    requires to - rows[target].order.value >= 2 || rows[target].order.value - to >= 2
    ensures !Dense(MovedByRewrite(rows, target, to))
  {
    var from := rows[target].order.value;
    var r := MovedByRewrite(rows, target, to);
    var p := if from < to then from + 1 else from - 1;
    var q := if from < to then from + 2 else from - 2;
    DenseOnto(rows, p);
    DenseOnto(rows, q);
    var a :| a in rows && rows[a].order == Some(p);
    var b :| a in rows && b in rows && rows[b].order == Some(q);
    assert a != target && b != target && a != b;
    assert r[a].order == Some(from) && r[b].order == Some(from);
  }

  /** The smallest case: moving the first of three rows to the end leaves two rows at position 0. */
  lemma RangeRewriteExample()
    ensures var rows := map["a" := Row(Some(0), map[]), "b" := Row(Some(1), map[]), "c" := Row(Some(2), map[])];
            var r := MovedByRewrite(rows, "a", 2);
            r["a"].order == Some(2) && r["b"].order == Some(0) && r["c"].order == Some(0) && !Dense(r)
  {
    var rows := map["a" := Row(Some(0), map[]), "b" := Row(Some(1), map[]), "c" := Row(Some(2), map[])];
    var r := MovedByRewrite(rows, "a", 2);
    assert r["b"].order == Some(0) && r["c"].order == Some(0);
  }

  /** Where a row at position `v` goes when another row moves from `from` to `to`, closing and reopening the gap. */
  function Step(v: int, from: int, to: int): int
  {
    if from < v <= to then v - 1
    else if to <= v < from then v + 1
    else v
  }

  /** The evident intent: the rows between the old and new position move one step towards the gap. */
  function MovedByShift(rows: Rows, target: Id, to: int): Rows
    requires target in rows && rows[target].order.Some?
  {
    var from := rows[target].order.value;
    map k | k in rows ::
      if k == target then rows[k].(order := Some(to))
      else if rows[k].order.Some? then rows[k].(order := Some(Step(rows[k].order.value, from, to)))
      else rows[k]
  }

  /** Density of a table in which one row moved to `to` and every other row took its `Step`. */
  lemma SteppedDense(rows: Rows, r: Rows, target: Id, to: int)
    requires Dense(rows) && target in rows && 0 <= to < |rows|
    requires r.Keys == rows.Keys && r[target].order == Some(to)
    requires forall k | k in rows && k != target :: r[k].order == Some(Step(rows[k].order.value, rows[target].order.value, to))
    ensures Dense(r)
  {
    var from := rows[target].order.value;
    assert |r| == |rows|;
    assert Bounded(r) by {
      forall k | k in r ensures r[k].order.Some? && 0 <= r[k].order.value < |r| {
        if k != target {
          assert rows[k].order != rows[target].order;
        }
      }
    }
    assert Injective(r) by {
      forall j, k | j in r && k in r && j != k ensures r[j].order != r[k].order {
        assert rows[j].order != rows[k].order;
        if j != target { assert rows[j].order != rows[target].order; }
        if k != target { assert rows[k].order != rows[target].order; }
      }
    }
  }

  /** Moving a row with the one-step shift keeps a dense table dense. */
  lemma ShiftKeepsDensity(rows: Rows, target: Id, to: int)
    requires Dense(rows) && target in rows && 0 <= to < |rows|
    ensures Dense(MovedByShift(rows, target, to))
  {
    SteppedDense(rows, MovedByShift(rows, target, to), target, to);
  }

  /** A move by one position with the range rewrite is a swap, so density survives it. */
  lemma RangeRewriteAdjacentDense(rows: Rows, target: Id, to: int)
    requires Dense(rows) && target in rows && 0 <= to < |rows|
    requires to - rows[target].order.value == 1 || rows[target].order.value - to == 1
    ensures Dense(MovedByRewrite(rows, target, to))
  {
    var from := rows[target].order.value;
    var lo := if from < to then from else to;
    var hi := if from < to then to else from;
    var w := RangeRewritten(rows, target, Some(lo), Some(hi), Some(from));
    var r := MovedByRewrite(rows, target, to);
    assert r == w[target := w[target].(order := Some(to))];
    forall k | k in rows && k != target
      ensures r[k].order == Some(Step(rows[k].order.value, from, to))
    {
      assert rows[k].order != rows[target].order;
      AdjacentRewriteAt(rows, target, to, k);
    }
    SteppedDense(rows, r, target, to);
  }

  /** Under a move by one position, the one row in the range takes the old position and every other row keeps its own. */
  lemma AdjacentRewriteAt(rows: Rows, target: Id, to: int, k: Id)
    requires target in rows && rows[target].order.Some?
    requires to - rows[target].order.value == 1 || rows[target].order.value - to == 1
    requires k in rows && k != target && rows[k].order.Some? && rows[k].order != rows[target].order
    ensures MovedByRewrite(rows, target, to)[k].order == Some(Step(rows[k].order.value, rows[target].order.value, to))
  {
    var from := rows[target].order.value;
    var lo := if from < to then from else to;
    var hi := if from < to then to else from;
    var w := RangeRewritten(rows, target, Some(lo), Some(hi), Some(from));
    assert MovedByRewrite(rows, target, to)[k] == w[k];
    var v := rows[k].order.value;
    if InRange(rows[k].order, Some(lo), Some(hi)) {
      assert v == to;
    }
  }

  // ----- permutation writes: the update*Order routes -----

  /** Index of the first write the store refuses, or the length when none is. */
  function FirstRefused(items: seq<Assignment>, refused: set<Id>): (n: nat)
    ensures n <= |items|
    ensures forall i | 0 <= i < n :: items[i].id !in refused
    ensures n < |items| ==> items[n].id in refused
  {
    if items == [] then 0
    else if items[0].id in refused then 0
    else 1 + FirstRefused(items[1..], refused)
  }

  /** The writes the store accepts, in request order. */
  function Accepted(items: seq<Assignment>, refused: set<Id>): (r: seq<Assignment>)
    ensures forall i | 0 <= i < |r| :: r[i].id !in refused
    ensures |r| <= |items|
  {
    if items == [] then []
    else (if items[0].id in refused then [] else [items[0]]) + Accepted(items[1..], refused)
  }

  /** The ids whose writes the store refuses, in request order (one error each). */
  function RefusedIds(items: seq<Assignment>, refused: set<Id>): (r: seq<Id>)
    ensures forall i | 0 <= i < |r| :: r[i] in refused
    ensures |r| + |Accepted(items, refused)| == |items|
  {
    if items == [] then []
    else (if items[0].id in refused then [items[0].id] else []) + RefusedIds(items[1..], refused)
  }

  /** Every write is attempted: all listed rows the store accepts get their listed position. */
  lemma {:induction false} AcceptedCovers(items: seq<Assignment>, refused: set<Id>, i: nat)
    requires i < |items| && items[i].id !in refused
    ensures exists j | 0 <= j < |Accepted(items, refused)| :: Accepted(items, refused)[j] == items[i]
  {
    if i == 0 {
      assert Accepted(items, refused)[0] == items[0];
    } else {
      AcceptedCovers(items[1..], refused, i - 1);
      var j :| 0 <= j < |Accepted(items[1..], refused)| && Accepted(items[1..], refused)[j] == items[1..][i - 1];
      var head := if items[0].id in refused then [] else [items[0]];
      assert Accepted(items, refused)[|head| + j] == items[i];
    }
  }

  /** Attempting one more write extends the accepted writes or the refused ids by it. */
  lemma {:induction false} AttemptSnoc(items: seq<Assignment>, refused: set<Id>, x: Assignment)
    ensures Accepted(items + [x], refused) == Accepted(items, refused) + (if x.id in refused then [] else [x])
    ensures RefusedIds(items + [x], refused) == RefusedIds(items, refused) + (if x.id in refused then [x.id] else [])
  {
    AcceptedSnoc(items, refused, x);
    RefusedSnoc(items, refused, x);
  }

  lemma {:induction false} AcceptedSnoc(items: seq<Assignment>, refused: set<Id>, x: Assignment)
    ensures Accepted(items + [x], refused) == Accepted(items, refused) + (if x.id in refused then [] else [x])
    decreases |items|
  {
    if items == [] {
      assert [x][1..] == [];
    } else {
      var ys := items + [x];
      assert ys[0] == items[0] && ys[1..] == items[1..] + [x];
      AcceptedSnoc(items[1..], refused, x);
    }
  }

  lemma {:induction false} RefusedSnoc(items: seq<Assignment>, refused: set<Id>, x: Assignment)
    ensures RefusedIds(items + [x], refused) == RefusedIds(items, refused) + (if x.id in refused then [x.id] else [])
    decreases |items|
  {
    if items == [] {
      assert [x][1..] == [];
    } else {
      var ys := items + [x];
      assert ys[0] == items[0] && ys[1..] == items[1..] + [x];
      RefusedSnoc(items[1..], refused, x);
    }
  }

  /** Stopping at the first refusal applies exactly the writes before it, all of them accepted. */
  lemma FirstRefusedPrefix(items: seq<Assignment>, refused: set<Id>)
    ensures Accepted(items[..FirstRefused(items, refused)], refused) == items[..FirstRefused(items, refused)]
    ensures FirstRefused(items, refused) == |items| <==> RefusedIds(items, refused) == []
  {
    PrefixAccepted(items, refused, FirstRefused(items, refused));
    NoneRefused(items, refused);
  }

  lemma {:induction false} PrefixAccepted(items: seq<Assignment>, refused: set<Id>, n: nat)
    requires n <= |items|
    requires forall i | 0 <= i < n :: items[i].id !in refused
    ensures Accepted(items[..n], refused) == items[..n]
  {
    if n > 0 {
      PrefixAccepted(items, refused, n - 1);
      assert items[..n] == items[..n - 1] + [items[n - 1]];
      AttemptSnoc(items[..n - 1], refused, items[n - 1]);
    }
  }

  lemma {:induction false} NoneRefused(items: seq<Assignment>, refused: set<Id>)
    ensures FirstRefused(items, refused) == |items| <==> RefusedIds(items, refused) == []
    decreases |items|
  {
    if items != [] {
      NoneRefused(items[1..], refused);
    }
  }
}
