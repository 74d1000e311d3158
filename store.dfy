/**
 * The Supabase table as the routes see it: a mutable map from row id to row,
 * with the calls the routes make (count, sorted select, single-row read,
 * delete, single-row and range updates, upsert, insert). The store is outside
 * the program, so whether a call fails is an input (`Faults`).
 */
module Store {
  import opened Base
  import opened Fields
  import opened Rows

  /** Which store calls fail. */
  datatype Faults = Faults(
    lookup: bool,      // the `.single()` read of one row
    fetch: bool,       // the sorted read of `id, order_number`
    count: bool,       // the `count: "exact", head: true` read
    remove: bool,      // the delete
    insert: bool,      // the insert
    bulk: bool,        // a multi-row write: the upsert or the range update
    refused: set<Id>)  // rows whose single-row updates fail

  /** The row filter of a select: every row, or `.gt("order_number", bound)`. */
  datatype Filter = All | Over(bound: Option<int>)

  predicate Matches(o: Option<int>, f: Filter)
  {
    match f
    case All => true
    case Over(b) => Above(o, b)
  }

  function Matching(rows: Rows, f: Filter): set<Id>
  {
    set k | k in rows && Matches(rows[k].order, f)
  }

  /** What an update does to the position column: nothing (the key is absent from the body) or a write. */
  datatype OrderPatch = Keep | SetTo(o: Option<int>)

  /** `update({ ...cols, order? }).eq("id", k)`: the listed columns are overwritten, the others kept. */
  function Patched(rows: Rows, k: Id, cols: Columns, o: OrderPatch): Rows
  {
    if k in rows then rows[k := Row(if o.Keep? then rows[k].order else o.o, rows[k].cols + cols)] else rows
  }

  /** A body's position key: absent leaves the column alone, `null` or a number is written. */
  function PatchOf(o: NumIn): (p: OrderPatch)
    ensures p.Keep? <==> o.Missing?
    ensures o.NullNum? ==> p == SetTo(None)
    ensures o.Num? ==> p == SetTo(Some(o.n))
  {
    match o
    case Missing => Keep
    case NullNum => SetTo(None)
    case Num(n) => SetTo(Some(n))
  }

  /** An update touches the row with the given id and no other; the listed columns win, the others stay. */
  lemma PatchedOnly(rows: Rows, key: Id, cols: Columns, o: OrderPatch)
    ensures Patched(rows, key, cols, o).Keys == rows.Keys
    ensures forall k | k in rows && k != key :: Patched(rows, key, cols, o)[k] == rows[k]
    ensures key in rows ==> forall c | c in cols :: Patched(rows, key, cols, o)[key].cols[c] == cols[c]
    ensures key in rows ==> forall c | c in rows[key].cols && c !in cols :: Patched(rows, key, cols, o)[key].cols[c] == rows[key].cols[c]
    ensures key in rows && o.Keep? ==> Patched(rows, key, cols, o)[key].order == rows[key].order
    ensures key in rows && o.SetTo? ==> Patched(rows, key, cols, o)[key].order == o.o
  {
  }

  /** What a route answers: its status, with the body fields the model tracks. */
  datatype Response =
    | Done                                     // 200 with a message or `{ success: true }`
    | Renumbered(assignments: seq<Assignment>) // 200 listing the new `{ id, position }` pairs
    | Created(id: Id, order: Option<int>)      // 200 with the new row's id (and position when returned)
    | BadRequest                               // 400
    | NotFound                                 // 404
    | ServerError                              // 500 with one message
    | Failures(ids: seq<Id>)                   // 500 listing every failed write

  /** `!id`: an absent, null or empty id. */
  predicate NoId(id: Option<Id>)
  {
    id.None? || id.value == ""
  }

  lemma OrderLeTotal(a: Option<int>, b: Option<int>)
    ensures OrderLe(a, b) || OrderLe(b, a)
  {
  }

  lemma {:induction false} MinExists(rows: Rows, s: set<Id>)
    requires s != {} && s <= rows.Keys
    ensures exists m | m in s :: forall k | k in s :: OrderLe(rows[m].order, rows[k].order)
    decreases |s|
  {
    var x :| x in s;
    if s != {x} {
      MinExists(rows, s - {x});
      var m :| m in s - {x} && forall k | k in s - {x} :: OrderLe(rows[m].order, rows[k].order);
      if !OrderLe(rows[m].order, rows[x].order) {
        assert forall k | k in s :: OrderLe(rows[x].order, rows[k].order);
      } else {
        assert forall k | k in s :: OrderLe(rows[m].order, rows[k].order);
      }
    } else {
      assert forall k | k in s :: OrderLe(rows[x].order, rows[k].order);
    }
  }

  /** Part way through a select: `fs` holds the rows of `keys` taken so far, in order, and every row still in `rest` sorts after them. */
  ghost predicate Selecting(rows: Rows, keys: set<Id>, fs: seq<Fetched>, rest: set<Id>)
  {
    && rest <= keys <= rows.Keys
    && FetchedIds(fs) + rest == keys
    && FetchedIds(fs) !! rest
    && Distinct(fs) && Ascending(fs)
    && (forall i | 0 <= i < |fs| :: fs[i].id in rows && rows[fs[i].id].order == fs[i].order)
    && (forall i, k | 0 <= i < |fs| && k in rest :: OrderLe(fs[i].order, rows[k].order))
  }

  /** Taking a first-sorting row out of `rest` and appending it keeps a select on track. */
  lemma SelectingStep(rows: Rows, keys: set<Id>, fs: seq<Fetched>, rest: set<Id>, m: Id)
    requires Selecting(rows, keys, fs, rest)
    requires m in rest && forall k | k in rest :: OrderLe(rows[m].order, rows[k].order)
    ensures Selecting(rows, keys, fs + [Fetched(m, rows[m].order)], rest - {m})
  {
    var g := fs + [Fetched(m, rows[m].order)];
    FetchedIdsSnoc(fs, Fetched(m, rows[m].order));
    assert m !in FetchedIds(fs);
    forall i | 0 <= i < |fs| ensures g[i].id != m {
      assert fs[i].id in FetchedIds(fs);
    }
    assert Distinct(g);
    assert Ascending(g);
  }

  /** Some non-empty id is not in `s`: the store can always hand out a new id. */
  lemma FreshIdExists(s: set<Id>) returns (x: Id)
    ensures x !in s && x != ""
  {
    x := "r";
    var rest := s;
    while rest != {}
      invariant x != ""
      invariant forall y | y in s - rest :: |y| < |x|
      decreases rest
    {
      var y :| y in rest;
      if |y| >= |x| { x := seq(|y| + 1, _ => 'r'); }
      rest := rest - {y};
    }
  }

  class Table {
    var rows: Rows

    constructor (initial: Rows)
      ensures rows == initial
    {
      rows := initial;
    }

    /** `select("*", { count: "exact", head: true })`. */
    method Count(fails: bool) returns (n: Option<nat>)
      ensures n == if fails then None else Some(|rows|)
    {
      n := if fails then None else Some(|rows|);
    }

    /**
     * `select("id, order_number")` with the filter, `.order("order_number", { ascending: true })`.
     * Rows that tie are returned in some order the store picks.
     */
    method Select(f: Filter, fails: bool) returns (ok: bool, fs: seq<Fetched>)
      ensures ok == !fails
      ensures ok ==> Snapshot(fs, rows, Matching(rows, f)) && Ascending(fs)
      ensures !ok ==> fs == []
    {
      if fails {
        return false, [];
      }
      var rest := Matching(rows, f);
      fs := [];
      while rest != {}
        invariant Selecting(rows, Matching(rows, f), fs, rest)
        decreases rest
      {
        MinExists(rows, rest);
        var m :| m in rest && forall k | k in rest :: OrderLe(rows[m].order, rows[k].order);
        SelectingStep(rows, Matching(rows, f), fs, rest, m);
        fs := fs + [Fetched(m, rows[m].order)];
        rest := rest - {m};
      }
      ok := true;
    }

    /** `select("order_number").eq("id", key).single()`: fails when the row is missing. */
    method Lookup(key: Id, fails: bool) returns (r: Option<Option<int>>)
      ensures r == if fails || key !in rows then None else Some(rows[key].order)
    {
      r := if fails || key !in rows then None else Some(rows[key].order);
    }

    /** `delete().eq("id", key)`; an absent key matches no row. */
    method Delete(key: Option<Id>, fails: bool) returns (ok: bool)
      modifies this
      ensures ok == !fails
      ensures rows == if ok && key.Some? then old(rows) - {key.value} else old(rows)
    {
      ok := !fails;
      if ok && key.Some? {
        rows := rows - {key.value};
      }
    }

    /** `update({ order_number: o }).eq("id", key)`. */
    method UpdateOrder(key: Id, o: Option<int>, refused: set<Id>) returns (ok: bool)
      modifies this
      ensures ok == (key !in refused)
      ensures rows == if ok then WithOrder(old(rows), key, o) else old(rows)
    {
      ok := key !in refused;
      if ok {
        rows := WithOrder(rows, key, o);
      }
    }

    /** `update({ order_number: v }).neq("id", except).gte("order_number", lo).lte("order_number", hi)`. */
    method UpdateRange(except: Id, lo: Option<int>, hi: Option<int>, v: Option<int>, fails: bool) returns (ok: bool)
      modifies this
      ensures ok == !fails
      ensures rows == if ok then RangeRewritten(old(rows), except, lo, hi, v) else old(rows)
    {
      ok := !fails;
      if ok {
        rows := RangeRewritten(rows, except, lo, hi, v);
      }
    }

    /** `upsert(items, { onConflict: "id" })`: one call, all written or none. */
    method Upsert(items: seq<Assignment>, fails: bool) returns (ok: bool)
      modifies this
      ensures ok == !fails
      ensures rows == if ok then Written(old(rows), items) else old(rows)
    {
      ok := !fails;
      if ok {
        for i := 0 to |items|
          invariant rows == Written(old(rows), items[..i])
        {
          WrittenSnoc(old(rows), items[..i], items[i]);
          assert items[..i + 1] == items[..i] + [items[i]];
          rows := WithOrder(rows, items[i].id, Some(items[i].order));
        }
        assert items[..|items|] == items;
      }
    }

    /** `update(payload).eq("id", key)`, the payload's position key handled by `o`. */
    method Update(key: Id, cols: Columns, o: OrderPatch, refused: set<Id>) returns (ok: bool)
      modifies this
      ensures ok == (key !in refused)
      ensures rows == if ok then Patched(old(rows), key, cols, o) else old(rows)
    {
      ok := key !in refused;
      if ok {
        rows := Patched(rows, key, cols, o);
      }
    }

    /** `insert([payload]).select()`: the new row gets an id no row has. */
    method Insert(cols: Columns, o: Option<int>, fails: bool) returns (id: Option<Id>)
      modifies this
      ensures id.None? <==> fails
      ensures id.Some? ==> id.value !in old(rows) && rows == old(rows)[id.value := Row(o, cols)]
      ensures id.None? ==> rows == old(rows)
    {
      if fails {
        return None;
      }
      var _ := FreshIdExists(rows.Keys);
      var k: Id :| k !in rows && k != "";
      rows := rows[k := Row(o, cols)];
      id := Some(k);
    }
  }
}
