/**
 * The clients routes: `clients/addClient` (shift every row down, insert at
 * the front), `clients/deleteClient` (delete, then renumber by rank),
 * `clients/updateClientOrder` (write the listed positions, stop at the first
 * error) and the older `deleteClient` (delete only, no id check).
 */
module ClientsApi {
  import opened Base
  import opened Fields
  import opened Rows
  import opened Store
  import opened Protocol

  /** One language object: `{ name?, job_title?, description? }`. */
  datatype ClientText = ClientText(name: Option<string>, jobTitle: Option<string>, description: Option<string>)
  {
    function Get(f: Field): Option<string>
      requires f in ClientFields
    {
      match f
      case Name => name
      case JobTitle => jobTitle
      case Description => description
    }
  }

  const ClientFields: set<Field> := {Name, JobTitle, Description}

  /** The body of `POST /api/clients/addClient`. */
  datatype AddClientBody = AddClientBody(langs: PerLang<Option<ClientText>>, mediaUrl: Option<string>)

  /**
   * The inserted columns besides the position: every text is trimmed and a
   * blank or missing one is stored as NULL.
   */
  function ClientColumns(t: PerLang<ClientText>, mediaUrl: Option<string>): (c: Columns)
    ensures c.Keys == (set f, l | f in ClientFields :: Localized(f, l)) + {Shared(MediaUrl)}
    ensures forall k | k in c :: StoredText(c[k])
    ensures forall f, l | f in ClientFields :: c[Localized(f, l)] == TrimOrNull(t.Get(l).Get(f))
    ensures c[Shared(MediaUrl)] == TrimOrNull(mediaUrl)
  {
    (map f, l | f in ClientFields :: Localized(f, l) := TrimOrNull(t.Get(l).Get(f)))[Shared(MediaUrl) := TrimOrNull(mediaUrl)]
  }

  /**
   * `POST /api/clients/addClient`. Without all three language objects: 400 and
   * no store call. A failed fetch: 500 and nothing written. Otherwise every
   * fetched row is written at its position plus one (a refused write is only
   * logged), then the new client is inserted at position 0.
   */
  method AddClient(t: Table, body: AddClientBody, fails: Faults) returns (res: Response)
    modifies t
    ensures !Complete(body.langs) ==> res == BadRequest && t.rows == old(t.rows)
    ensures Complete(body.langs) && fails.fetch ==> res == ServerError && t.rows == old(t.rows)
    ensures Complete(body.langs) && !fails.fetch ==>
      var shifted := Bumped(old(t.rows), old(t.rows).Keys - fails.refused);
      if fails.insert then res == ServerError && t.rows == shifted
      else (res.Created? && res.order == Some(0) && res.id !in old(t.rows)
            && t.rows == shifted[res.id := Row(Some(0), ClientColumns(Present(body.langs), body.mediaUrl))])
    ensures Dense(old(t.rows)) && res.Created? ==> (Dense(t.rows) <==> old(t.rows).Keys * fails.refused == {})
  {
    if !Complete(body.langs) {
      return BadRequest;
    }
    var fetched, fs := t.Select(All, fails.fetch);
    if !fetched {
      return ServerError;
    }
    ghost var before := t.rows;
    assert Matching(before, All) == before.Keys;
    ShiftDown(t, fs, fails.refused);
    var cols := ClientColumns(Present(body.langs), body.mediaUrl);
    var id := t.Insert(cols, Some(0), fails.insert);
    if id.None? {
      return ServerError;
    }
    res := Created(id.value, Some(0));
    if Dense(before) {
      InsertFrontDense(before, fails.refused, id.value, cols);
    }
  }

  /**
   * The shift loop of addClient: each fetched row in turn is written at its
   * position plus one (NULL reads as 0); a refused write is only logged.
   */
  method ShiftDown(t: Table, fs: seq<Fetched>, refused: set<Id>)
    modifies t
    requires Snapshot(fs, t.rows, t.rows.Keys)
    ensures t.rows == Bumped(old(t.rows), old(t.rows).Keys - refused)
  {
    ghost var before := t.rows;
    var i := 0;
    while i < |fs|
      invariant 0 <= i <= |fs|
      invariant t.rows == Bumped(before, FetchedIds(fs[..i]) - refused)
    {
      var k := fs[i].id;
      FetchedPrefixStep(fs, i, refused);
      var _ := t.UpdateOrder(k, Some(PlusOne(fs[i].order)), refused);
      if k !in refused {
        BumpedStep(before, FetchedIds(fs[..i]) - refused, k);
      }
      i := i + 1;
    }
    assert fs[..|fs|] == fs;
  }

  /** `DELETE /api/clients/deleteClient`: delete, then renumber the remaining clients by rank. */
  method DeleteClient(t: Table, id: Option<Id>, fails: Faults) returns (res: Response)
    modifies t
    ensures NoId(id) ==> res == BadRequest && t.rows == old(t.rows)
    ensures !NoId(id) && fails.remove ==> res == ServerError && t.rows == old(t.rows)
    ensures !NoId(id) && !fails.remove && (fails.fetch || fails.bulk) ==>
      res == ServerError && t.rows == old(t.rows) - {id.value}
    ensures !NoId(id) && !fails.remove && !fails.fetch && !fails.bulk ==>
      res.Renumbered? && Ranked(old(t.rows) - {id.value}, t.rows, res.assignments)
  {
    res := DeleteThenRank(t, id, fails);
  }

  /** `POST /api/clients/updateClientOrder`: the listed positions in order, up to the first refused write. */
  method UpdateClientOrder(t: Table, items: seq<Assignment>, refused: set<Id>) returns (res: Response)
    modifies t
    ensures t.rows == Written(old(t.rows), items[..FirstRefused(items, refused)])
    ensures res == (if FirstRefused(items, refused) == |items| then Done else ServerError)
  {
    res := WriteUntilRefused(t, items, refused);
  }

  /**
   * The older `DELETE /api/deleteClient`: no id check (an absent id matches no
   * row) and no renumbering, so the other clients keep their positions.
   */
  method LegacyDeleteClient(t: Table, id: Option<Id>, fails: Faults) returns (res: Response)
    modifies t
    ensures res == (if fails.remove then ServerError else Done)
    ensures t.rows == if !fails.remove && id.Some? then old(t.rows) - {id.value} else old(t.rows)
  {
    var ok := t.Delete(id, fails.remove);
    res := if ok then Done else ServerError;
  }
}
