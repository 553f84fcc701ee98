/** PublisherService: the publisher repository as a map from generated id to
    Publisher object, and the service operations, each proved to have the
    effect that PublisherModel gives it on the abstract state `Db()`. */
module PublisherServices {
  import opened Wrappers
  import opened Errors
  import opened Records
  import opened Entity
  import PublisherModel

  class PublisherService {
    /** publisherRepository: the stored publishers by id */
    var publishers: map<int, Publisher>
    /** the next value of the publishers table's IDENTITY column */
    var nextId: int
    /** the rows of the stored publishers */
    ghost var Rows: map<int, PublisherRow<Book>>
    /** the stored publishers */
    ghost var Repr: set<object>

    ghost function Db(): PublisherModel.PublisherDb<Book>
      reads this
    {
      PublisherModel.PublisherDb(Rows, nextId)
    }

    /** Each stored publisher is in `Repr` and carries its key as id, `Rows`
        holds the publishers' current values, and the abstract state is a
        reachable one. */
    ghost predicate Valid()
      reads this, Repr
    {
      && publishers.Keys == Rows.Keys
      && (forall k | k in publishers :: publishers[k] in Repr && Stored(publishers[k], k, Rows[k]))
      && PublisherModel.Inv(Db())
    }

    /** The publisher is stored under key `k` with value `row`. */
    static ghost predicate Stored(p: Publisher, k: int, row: PublisherRow<Book>)
      reads p
    {
      p.id == Some(k) && p.Row() == row
    }

    constructor ()
      ensures Valid() && fresh(Repr) && Db() == PublisherModel.PublisherDb(map[], 1)
    {
      publishers := map[];
      nextId := 1;
      Rows := map[];
      Repr := {};
    }

    /** publisherRepository.existsByName */
    predicate ExistsByName(name: string)
      requires Valid()
      reads this, Repr
      ensures ExistsByName(name) <==> PublisherModel.NameTaken(Rows, name)
    {
      exists k | k in publishers :: publishers[k].name == name
    }

    /** getAllPublishers */
    method GetAllPublishers() returns (r: set<PublisherResponse<Book>>)
      requires Valid()
      ensures r == PublisherModel.All(Db())
    {
      r := set k | k in publishers :: PublisherResponse(k, publishers[k].Row());
    }

    /** getPublisherById */
    method GetPublisherById(id: int) returns (r: Result<PublisherResponse<Book>, Error>)
      requires Valid()
      ensures r == PublisherModel.GetById(Db(), id)
    {
      if id !in publishers {
        return Failure(PublisherModel.PublisherNotFound(id));
      }
      r := Success(PublisherResponse(id, publishers[id].Row()));
    }

    /** getPublisherByName */
    method GetPublisherByName(name: string) returns (r: Result<PublisherResponse<Book>, Error>)
      requires Valid()
      ensures r == PublisherModel.GetByName(Db(), name)
    {
      if !ExistsByName(name) {
        return Failure(ResourceNotFound("Publisher", "name", TextValue(name)));
      }
      var k :| k in publishers && publishers[k].name == name;
      r := Success(PublisherResponse(k, publishers[k].Row()));
    }

    /** publisherRepository.save of a new publisher: the IDENTITY column gives
        it the next id. */
    method Save(publisher: Publisher) returns (id: int)
      requires Valid() && publisher !in Repr
      requires PublisherModel.Inv(PublisherModel.PublisherDb(Rows[nextId := publisher.Row()], nextId + 1))
      modifies this, publisher`id
      ensures Valid() && Repr == old(Repr) + {publisher}
      ensures id == old(nextId) && publisher.Row() == old(publisher.Row())
      ensures Db() == PublisherModel.PublisherDb(old(Rows)[id := publisher.Row()], id + 1)
    {
      id := nextId;
      publisher.id := Some(id);
      publishers, Rows, Repr, nextId := publishers[id := publisher], Rows[id := publisher.Row()], Repr + {publisher}, nextId + 1;
      forall k | k in publishers && k != id
        ensures publishers[k] in Repr && Stored(publishers[k], k, Rows[k])
      {
        assert publishers[k] == old(publishers)[k];
      }
    }

    /** createPublisher */
    method CreatePublisher(req: PublisherRequest) returns (r: Result<PublisherResponse<Book>, Error>)
      requires Valid()
      modifies this
      ensures Valid() && fresh(Repr - old(Repr))
      ensures (r, Db()) == PublisherModel.Create(old(Db()), req)
    {
      if ExistsByName(req.name) {
        return Failure(PublisherNameDuplicate(req.name));
      }
      var publisher := new Publisher(req.name, req.establishedDate, req.address);
      PublisherModel.CreatePreservesInv(Db(), req);
      var id := Save(publisher);
      r := Success(PublisherResponse(id, publisher.Row()));
    }

    /** After the publisher under `id` was changed in place, with no other
        stored object touched, the service is valid again once `Rows` records
        the publisher's new value. */
    twostate lemma Restored(id: int)
      requires old(Valid()) && id in old(publishers)
      requires publishers == old(publishers) && nextId == old(nextId) && Repr == old(Repr)
      requires Rows == old(Rows)[id := publishers[id].Row()]
      requires forall o: object | o in old(Repr) && o != this && o != publishers[id] :: unchanged(o)
      requires Stored(publishers[id], id, Rows[id])
      requires PublisherModel.Inv(Db())
      ensures Valid()
    {
      forall k | k in publishers && k != id
        ensures Stored(publishers[k], k, Rows[k])
      {
        assert old(publishers[k].id) == Some(k) != Some(id) == old(publishers[id].id);
      }
    }

    /** The three setters of updatePublisher; the book list is kept. */
    static method Overwrite(publisher: Publisher, req: PublisherRequest)
      modifies publisher
      ensures publisher.Row() == old(publisher.Row()).(name := req.name, address := req.address, establishedDate := req.establishedDate)
      ensures publisher.id == old(publisher.id)
    {
      publisher.name := req.name;
      publisher.address := req.address;
      publisher.establishedDate := req.establishedDate;
    }

    /** updatePublisher */
    method UpdatePublisher(id: int, req: PublisherRequest) returns (r: Result<PublisherResponse<Book>, Error>)
      requires Valid()
      modifies this, Repr
      ensures Valid() && Repr == old(Repr)
      ensures (r, Db()) == PublisherModel.Update(old(Db()), id, req)
    {
      if id !in publishers {
        return Failure(PublisherModel.PublisherNotFound(id));
      }
      var publisher := publishers[id];
      if publisher.name != req.name && ExistsByName(req.name) {
        return Failure(PublisherNameDuplicate(req.name));
      }
      Overwrite(publisher, req);
      PublisherModel.UpdatePreservesInv(old(Db()), id, req);
      Rows := Rows[id := publisher.Row()];
      Restored(id);
      r := Success(PublisherResponse(id, publisher.Row()));
    }

    /** deletePublisher: refused while the publisher still has books. */
    method DeletePublisher(id: int) returns (r: Result<(), Error>)
      requires Valid()
      modifies this
      ensures Valid() && Repr == old(Repr)
      ensures (r, Db()) == PublisherModel.Delete(old(Db()), id)
    {
      if id !in publishers {
        return Failure(PublisherModel.PublisherNotFound(id));
      }
      var publisher := publishers[id];
      if |publisher.books| != 0 {
        return Failure(PublisherHasBooks(id, |publisher.books|));
      }
      PublisherModel.DeletePreservesInv(Db(), id);
      publishers, Rows := publishers - {id}, Rows - {id};
      r := Success(());
    }
  }
}
