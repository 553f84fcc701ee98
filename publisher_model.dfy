/** The abstract state of PublisherService and the effect of each of its
    operations on it. The element type B of a publisher's book list is left
    open: this layer only counts and carries the list. */
module PublisherModel {
  import opened Wrappers
  import opened Errors
  import opened Records

  /** The publishers table and the next value of its IDENTITY column. */
  datatype PublisherDb<B> = PublisherDb(rows: map<int, PublisherRow<B>>, nextId: int)

  /** publisherRepository.existsByName */
  predicate NameTaken<B>(rows: map<int, PublisherRow<B>>, name: string) {
    exists k :: k in rows && rows[k].name == name
  }

  /** Publisher names are pairwise distinct. The column carries no unique
      constraint, so only the service's checks keep this. */
  predicate NamesUnique<B>(rows: map<int, PublisherRow<B>>) {
    forall i, j :: i in rows && j in rows && rows[i].name == rows[j].name ==> i == j
  }

  predicate Inv<B>(db: PublisherDb<B>) {
    && 1 <= db.nextId
    && (forall k :: k in db.rows ==> 1 <= k < db.nextId)
    && NamesUnique(db.rows)
  }

  function PublisherNotFound(id: int): Error {
    ResourceNotFound("Publisher", "id", IdValue(id))
  }

  /** getPublisherById */
  function GetById<B>(db: PublisherDb<B>, id: int): (r: Result<PublisherResponse<B>, Error>)
    ensures r.Success? <==> id in db.rows
    ensures r.Success? ==> r.value == PublisherResponse(id, db.rows[id])
    ensures r.Failure? ==> r.error == ResourceNotFound("Publisher", "id", IdValue(id))
  {
    if id in db.rows then Success(PublisherResponse(id, db.rows[id])) else Failure(PublisherNotFound(id))
  }

  /** getPublisherByName: some stored publisher with that name, or not found. */
  ghost function GetByName<B>(db: PublisherDb<B>, name: string): (r: Result<PublisherResponse<B>, Error>)
    ensures r.Success? <==> NameTaken(db.rows, name)
    ensures r.Success? ==>
      r.value.id in db.rows && r.value.publisher == db.rows[r.value.id] && r.value.publisher.name == name
    ensures r.Failure? ==> r.error == ResourceNotFound("Publisher", "name", TextValue(name))
  {
    if NameTaken(db.rows, name) then
      var k :| k in db.rows && db.rows[k].name == name;
      Success(PublisherResponse(k, db.rows[k]))
    else
      Failure(ResourceNotFound("Publisher", "name", TextValue(name)))
  }

  /** getAllPublishers (the order is not modelled). */
  function All<B(==)>(db: PublisherDb<B>): (r: set<PublisherResponse<B>>)
    ensures forall x | x in r :: x.id in db.rows && x.publisher == db.rows[x.id]
    ensures forall k | k in db.rows :: PublisherResponse(k, db.rows[k]) in r
  {
    set k | k in db.rows :: PublisherResponse(k, db.rows[k])
  }

  /** createPublisher */
  function Create<B>(db: PublisherDb<B>, req: PublisherRequest): (r: (Result<PublisherResponse<B>, Error>, PublisherDb<B>))
    ensures r.0.Failure? ==> r.1 == db
    ensures r.0.Success? <==> !NameTaken(db.rows, req.name)
  {
    if NameTaken(db.rows, req.name) then
      (Failure(PublisherNameDuplicate(req.name)), db)
    else
      var row := PublisherRow(req.name, req.establishedDate, req.address, []);
      (Success(PublisherResponse(db.nextId, row)), PublisherDb(db.rows[db.nextId := row], db.nextId + 1))
  }

  /** updatePublisher */
  function Update<B>(db: PublisherDb<B>, id: int, req: PublisherRequest): (r: (Result<PublisherResponse<B>, Error>, PublisherDb<B>))
    ensures r.0.Failure? ==> r.1 == db
  {
    if id !in db.rows then
      (Failure(PublisherNotFound(id)), db)
    else if db.rows[id].name != req.name && NameTaken(db.rows, req.name) then
      (Failure(PublisherNameDuplicate(req.name)), db)
    else
      var row := db.rows[id].(name := req.name, address := req.address, establishedDate := req.establishedDate);
      (Success(PublisherResponse(id, row)), db.(rows := db.rows[id := row]))
  }

  /** deletePublisher */
  function Delete<B>(db: PublisherDb<B>, id: int): (r: (Result<(), Error>, PublisherDb<B>))
    ensures r.0.Failure? ==> r.1 == db
  {
    if id !in db.rows then
      (Failure(PublisherNotFound(id)), db)
    else if |db.rows[id].books| != 0 then
      (Failure(PublisherHasBooks(id, |db.rows[id].books|)), db)
    else
      (Success(()), db.(rows := db.rows - {id}))
  }

  // ---------------------------------------------------------------- lookups

  /** Looking up a stored publisher's name finds that very publisher. */
  lemma GetByNameFindsOwner<B>(db: PublisherDb<B>, id: int)
    requires Inv(db) && id in db.rows
    ensures GetByName(db, db.rows[id].name) == Success(PublisherResponse(id, db.rows[id]))
  {
  }

  // ---------------------------------------------------------------- create

  /** A duplicate name is refused and the store is left as it was. */
  lemma CreateRejectsDuplicate<B>(db: PublisherDb<B>, req: PublisherRequest)
    requires NameTaken(db.rows, req.name)
    ensures Create(db, req) == (Failure(PublisherNameDuplicate(req.name)), db)
  {
  }

  /** A successful create stores exactly one new publisher, under a fresh id,
      with the request's fields and no books. */
  lemma CreateStoresOnePublisher<B>(db: PublisherDb<B>, req: PublisherRequest)
    requires Inv(db) && Create(db, req).0.Success?
    ensures var (r, db') := Create(db, req);
      && r.value.id !in db.rows
      && db'.rows.Keys == db.rows.Keys + {r.value.id}
      && |db'.rows| == |db.rows| + 1
      && (forall k :: k in db.rows ==> db'.rows[k] == db.rows[k])
      && db'.rows[r.value.id] == r.value.publisher
      && r.value.publisher == PublisherRow(req.name, req.establishedDate, req.address, [])
  {
  }

  lemma CreatePreservesInv<B>(db: PublisherDb<B>, req: PublisherRequest)
    requires Inv(db)
    ensures Inv(Create(db, req).1)
  {
  }

  /** The created publisher is found again by its id and by its name. */
  lemma CreateThenGet<B>(db: PublisherDb<B>, req: PublisherRequest)
    requires Inv(db) && Create(db, req).0.Success?
    ensures var (r, db') := Create<B>(db, req);
      && GetById(db', r.value.id) == r
      && GetByName(db', req.name) == r
  {
    CreatePreservesInv(db, req);
    var (r, db') := Create<B>(db, req);
    GetByNameFindsOwner(db', r.value.id);
  }

  /** A successful create adds exactly the new publisher to getAllPublishers. */
  lemma CreateAddsToAll<B>(db: PublisherDb<B>, req: PublisherRequest)
    requires Inv(db) && Create(db, req).0.Success?
    ensures var (r, db') := Create<B>(db, req);
      r.value !in All(db) && All(db') == All(db) + {r.value}
  {
    var (r, db') := Create<B>(db, req);
    assert r.value == PublisherResponse(db.nextId, db'.rows[db.nextId]);
    forall x | x in All(db')
      ensures x in All(db) + {r.value}
    {
      if x.id != r.value.id {
        assert x.id in db.rows && x.publisher == db.rows[x.id];
      }
    }
    forall x | x in All(db)
      ensures x in All(db')
    {
      assert x.id in db'.rows && x.publisher == db'.rows[x.id];
    }
  }

  // ---------------------------------------------------------------- update

  /** Keeping the publisher's own name never conflicts. */
  lemma UpdateOwnNameNeverConflicts<B>(db: PublisherDb<B>, id: int, req: PublisherRequest)
    requires id in db.rows && db.rows[id].name == req.name
    ensures Update(db, id, req).0.Success?
  {
  }

  /** Renaming to a name some publisher already has is refused, and nothing changes. */
  lemma UpdateRejectsTakenName<B>(db: PublisherDb<B>, id: int, req: PublisherRequest)
    requires id in db.rows && db.rows[id].name != req.name && NameTaken(db.rows, req.name)
    ensures Update(db, id, req) == (Failure(PublisherNameDuplicate(req.name)), db)
  {
  }

  /** A successful update overwrites name, address and establishedDate, keeps
      the book list, and touches no other publisher. */
  lemma UpdateOverwrites<B>(db: PublisherDb<B>, id: int, req: PublisherRequest)
    requires Update(db, id, req).0.Success?
    ensures var (r, db') := Update(db, id, req);
      && db'.rows.Keys == db.rows.Keys && db'.nextId == db.nextId
      && (forall k :: k in db.rows && k != id ==> db'.rows[k] == db.rows[k])
      && r == Success(PublisherResponse(id, db'.rows[id]))
      && db'.rows[id] == PublisherRow(req.name, req.establishedDate, req.address, db.rows[id].books)
  {
  }

  lemma UpdatePreservesInv<B>(db: PublisherDb<B>, id: int, req: PublisherRequest)
    requires Inv(db)
    ensures Inv(Update(db, id, req).1)
  {
  }

  // ---------------------------------------------------------------- delete

  /** A publisher that owns books is not deleted; the error carries its id and
      the number of books it owns. */
  lemma DeleteRefusedWhileOwningBooks<B>(db: PublisherDb<B>, id: int)
    requires id in db.rows && |db.rows[id].books| > 0
    ensures Delete(db, id) == (Failure(PublisherHasBooks(id, |db.rows[id].books|)), db)
    ensures GetById(Delete(db, id).1, id).Success?
  {
  }

  /** Deletion succeeds exactly for a stored publisher without books, and then
      removes that publisher and no other. */
  lemma DeleteOnlyWhenEmpty<B>(db: PublisherDb<B>, id: int)
    ensures Delete(db, id).0.Success? <==> id in db.rows && db.rows[id].books == []
    ensures Delete(db, id).0.Success? ==>
      Delete(db, id).1.rows == map k | k in db.rows && k != id :: db.rows[k]
  {
  }

  lemma DeletePreservesInv<B>(db: PublisherDb<B>, id: int)
    requires Inv(db)
    ensures Inv(Delete(db, id).1)
  {
  }
}
