/**
 * The store procedures that several routes share word for word: the renumber
 * pass (`select` sorted, `map((row, index) => …)`, `upsert`), delete followed
 * by that pass, and the two ways of writing a client-supplied list of
 * positions (stop at the first error, or attempt every write).
 */
module Protocol {
  import opened Base
  import opened Fields
  import opened Rows
  import opened Store

  /**
   * Sorted fetch of every row, then one upsert giving each row its index.
   * Either call may fail; the fetch writes nothing and the upsert is all or nothing.
   */
  method RankAll(t: Table, fails: Faults) returns (ok: bool, a: seq<Assignment>)
    modifies t
    ensures ok == (!fails.fetch && !fails.bulk)
    ensures !ok ==> t.rows == old(t.rows)
    ensures ok ==> Ranked(old(t.rows), t.rows, a)
  {
    var fetched, fs := t.Select(All, fails.fetch);
    if !fetched {
      return false, [];
    }
    assert Matching(t.rows, All) == t.rows.Keys;
    a := Ranks(fs);
    RanksRanked(t.rows, fs);
    ok := t.Upsert(a, fails.bulk);
  }

  /**
   * The delete routes of clients, news and tailor: reject a missing id, delete
   * the row, then renumber the rest by rank and answer with the assignment.
   */
  method DeleteThenRank(t: Table, id: Option<Id>, fails: Faults) returns (res: Response)
    modifies t
    ensures NoId(id) ==> res == BadRequest && t.rows == old(t.rows)
    ensures !NoId(id) && fails.remove ==> res == ServerError && t.rows == old(t.rows)
    ensures !NoId(id) && !fails.remove && (fails.fetch || fails.bulk) ==>
      res == ServerError && t.rows == old(t.rows) - {id.value}
    ensures !NoId(id) && !fails.remove && !fails.fetch && !fails.bulk ==>
      res.Renumbered? && Ranked(old(t.rows) - {id.value}, t.rows, res.assignments)
  {
    if NoId(id) {
      return BadRequest;
    }
    var deleted := t.Delete(id, fails.remove);
    if !deleted {
      return ServerError;
    }
    var ok, a := RankAll(t, fails);
    res := if ok then Renumbered(a) else ServerError;
  }

  /**
   * The edit routes of news and tailor: reject a missing id, update the row,
   * and only when the body carried a position, renumber every row by rank.
   */
  method PatchThenRank(t: Table, id: Option<Id>, cols: Columns, order: NumIn, fails: Faults) returns (res: Response)
    modifies t
    ensures NoId(id) ==> res == BadRequest && t.rows == old(t.rows)
    ensures !NoId(id) && id.value in fails.refused ==> res == ServerError && t.rows == old(t.rows)
    ensures !NoId(id) && id.value !in fails.refused ==>
      var patched := Patched(old(t.rows), id.value, cols, PatchOf(order));
      if order.Missing? then res == Done && t.rows == patched
      else if fails.fetch || fails.bulk then res == ServerError && t.rows == patched
      else res == Done && RankedRows(patched, t.rows)
  {
    if NoId(id) {
      return BadRequest;
    }
    var updated := t.Update(id.value, cols, PatchOf(order), fails.refused);
    if !updated {
      return ServerError;
    }
    if order.Missing? {
      return Done;
    }
    var ok, _ := RankAll(t, fails);
    res := if ok then Done else ServerError;
  }

  /**
   * The `update*Order` loop of clients, events, news and blogs: one update per
   * item, in request order, returning 500 at the first refused write. The
   * writes before it stay applied; the ones after it are never attempted.
   */
  method WriteUntilRefused(t: Table, items: seq<Assignment>, refused: set<Id>) returns (res: Response)
    modifies t
    ensures t.rows == Written(old(t.rows), items[..FirstRefused(items, refused)])
    ensures res == (if FirstRefused(items, refused) == |items| then Done else ServerError)
  {
    var i := 0;
    while i < |items|
      invariant 0 <= i <= |items|
      invariant forall j | 0 <= j < i :: items[j].id !in refused
      invariant t.rows == Written(old(t.rows), items[..i])
    {
      var ok := t.UpdateOrder(items[i].id, Some(items[i].order), refused);
      if !ok {
        FirstRefusedAt(items, refused, i);
        return ServerError;
      }
      WrittenSnoc(old(t.rows), items[..i], items[i]);
      assert items[..i + 1] == items[..i] + [items[i]];
      i := i + 1;
    }
    FirstRefusedAt(items, refused, |items|);
    assert items[..|items|] == items;
    res := Done;
  }

  /** The first refusal is at `i` when every earlier write is accepted and `i` is the end or refused. */
  lemma {:induction false} FirstRefusedAt(items: seq<Assignment>, refused: set<Id>, i: nat)
    requires i <= |items|
    requires forall j | 0 <= j < i :: items[j].id !in refused
    requires i < |items| ==> items[i].id in refused
    ensures FirstRefused(items, refused) == i
    decreases i
  {
    if i > 0 {
      FirstRefusedAt(items[1..], refused, i - 1);
    }
  }

  /**
   * The tailor `updateTailorOrder` route: a body that is not an array is a 400;
   * otherwise every write is attempted, and any refusal makes a 500 that lists
   * one error per refused write, while the accepted writes persist.
   */
  method WriteAll(t: Table, items: Option<seq<Assignment>>, refused: set<Id>) returns (res: Response)
    modifies t
    ensures items.None? ==> res == BadRequest && t.rows == old(t.rows)
    ensures items.Some? ==> t.rows == Written(old(t.rows), Accepted(items.value, refused))
    ensures items.Some? ==>
      res == (if RefusedIds(items.value, refused) == [] then Done else Failures(RefusedIds(items.value, refused)))
  {
    if items.None? {
      return BadRequest;
    }
    var list := items.value;
    var errors: seq<Id> := [];
    for i := 0 to |list|
      invariant t.rows == Written(old(t.rows), Accepted(list[..i], refused))
      invariant errors == RefusedIds(list[..i], refused)
    {
      AttemptSnoc(list[..i], refused, list[i]);
      assert list[..i + 1] == list[..i] + [list[i]];
      var ok := t.UpdateOrder(list[i].id, Some(list[i].order), refused);
      if ok {
        WrittenSnoc(old(t.rows), Accepted(list[..i], refused), list[i]);
      } else {
        assert Accepted(list[..i], refused) + [] == Accepted(list[..i], refused);
        errors := errors + [list[i].id];
      }
    }
    assert list[..|list|] == list;
    res := if errors == [] then Done else Failures(errors);
  }
}
