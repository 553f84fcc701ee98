/** The abstract state of BookService and the effect of each of its
    operations on it. The books table is a map from generated id to row; a
    book's detail is stored inside its row, because book_details holds at most
    one row per book_id and every detail row belongs to a stored book. */
module BookModel {
  import opened Wrappers
  import opened Errors
  import opened Records

  /** The books table and the next value of its IDENTITY column. */
  datatype BookDb = BookDb(rows: map<int, BookRow>, nextId: int)

  /** An empty database: IDENTITY columns start at 1. */
  const Empty: BookDb := BookDb(map[], 1)

  /** bookRepository.existsByIsbn */
  predicate IsbnTaken(rows: map<int, BookRow>, isbn: string) {
    exists k :: k in rows && rows[k].isbn == isbn
  }

  /** The unique constraint on books.isbn. */
  predicate IsbnsUnique(rows: map<int, BookRow>) {
    forall i, j :: i in rows && j in rows && rows[i].isbn == rows[j].isbn ==> i == j
  }

  /** What every reachable state satisfies: ids come from the counter and
      isbns are pairwise distinct. */
  predicate Inv(db: BookDb) {
    && 1 <= db.nextId
    && (forall k :: k in db.rows ==> 1 <= k < db.nextId)
    && IsbnsUnique(db.rows)
  }

  /** The book_details table, keyed by its unique book_id column. */
  function Details(rows: map<int, BookRow>): map<int, DetailRow> {
    map k | k in rows && rows[k].detail.Some? :: rows[k].detail.value
  }

  function BookNotFound(id: int): Error {
    ResourceNotFound("Book", "id", IdValue(id))
  }

  /** getBookById */
  function GetById(db: BookDb, id: int): (r: Result<BookResponse, Error>)
    ensures r.Success? <==> id in db.rows
    ensures r.Success? ==> r.value == BookResponse(id, db.rows[id])
    ensures r.Failure? ==> r.error == ResourceNotFound("Book", "id", IdValue(id))
  {
    if id in db.rows then Success(BookResponse(id, db.rows[id])) else Failure(BookNotFound(id))
  }

  /** getBookByIsbn: some stored book with that isbn, or not found. */
  ghost function GetByIsbn(db: BookDb, isbn: string): (r: Result<BookResponse, Error>)
    ensures r.Success? <==> IsbnTaken(db.rows, isbn)
    ensures r.Success? ==>
      r.value.id in db.rows && r.value.book == db.rows[r.value.id] && r.value.book.isbn == isbn
    ensures r.Failure? ==> r.error == ResourceNotFound("Book", "ISBN", TextValue(isbn))
  {
    if IsbnTaken(db.rows, isbn) then
      var k :| k in db.rows && db.rows[k].isbn == isbn;
      Success(BookResponse(k, db.rows[k]))
    else
      Failure(ResourceNotFound("Book", "ISBN", TextValue(isbn)))
  }

  /** getAllBooks (the order the database returns them in is not modelled). */
  function All(db: BookDb): (r: set<BookResponse>)
    ensures forall x | x in r :: x.id in db.rows && x.book == db.rows[x.id]
    ensures forall k | k in db.rows :: BookResponse(k, db.rows[k]) in r
  {
    set k | k in db.rows :: BookResponse(k, db.rows[k])
  }

  /** Lower-casing, on the ASCII letters only. */
  function LowerChar(c: char): char {
    if 'A' <= c <= 'Z' then (c as int + 32) as char else c
  }

  function Lower(s: string): (r: string)
    ensures |r| == |s|
  {
    seq(|s|, i requires 0 <= i < |s| => LowerChar(s[i]))
  }

  /** u occurs in t starting at position i. */
  predicate OccursAt(t: string, u: string, i: int) {
    0 <= i <= |t| - |u| && t[i..i + |u|] == u
  }

  /** The `ContainingIgnoreCase` query condition: q occurs in s, ignoring case. */
  predicate ContainsIgnoreCase(s: string, q: string)
    ensures ContainsIgnoreCase(s, q) ==> |q| <= |s|
  {
    exists i | 0 <= i <= |s| :: OccursAt(Lower(s), Lower(q), i)
  }

  /** getBooksByAuthor */
  function SearchByAuthor(db: BookDb, q: string): (r: set<BookResponse>)
    ensures r <= All(db)
    ensures forall x | x in r :: ContainsIgnoreCase(x.book.author, q)
    ensures forall k | k in db.rows && ContainsIgnoreCase(db.rows[k].author, q) :: BookResponse(k, db.rows[k]) in r
  {
    set k | k in db.rows && ContainsIgnoreCase(db.rows[k].author, q) :: BookResponse(k, db.rows[k])
  }

  /** getBooksByTitle */
  function SearchByTitle(db: BookDb, q: string): (r: set<BookResponse>)
    ensures r <= All(db)
    ensures forall x | x in r :: ContainsIgnoreCase(x.book.title, q)
    ensures forall k | k in db.rows && ContainsIgnoreCase(db.rows[k].title, q) :: BookResponse(k, db.rows[k]) in r
  {
    set k | k in db.rows && ContainsIgnoreCase(db.rows[k].title, q) :: BookResponse(k, db.rows[k])
  }

  /** createBook */
  function Create(db: BookDb, req: BookRequest): (r: (Result<BookResponse, Error>, BookDb))
    ensures r.0.Failure? ==> r.1 == db
    ensures r.0.Success? <==> !IsbnTaken(db.rows, req.isbn) && req.detailRequest.Some?
  {
    if IsbnTaken(db.rows, req.isbn) then
      (Failure(IsbnDuplicate(req.isbn)), db)
    else if req.detailRequest.None? then
      // request.getDetailRequest().getDescription() on a null detail request
      (Failure(NullPointer), db)
    else
      var row := BookRow(req.title, req.author, req.isbn, req.price, req.publishDate,
                         Some(DetailOf(req.detailRequest.value)));
      (Success(BookResponse(db.nextId, row)), BookDb(db.rows[db.nextId := row], db.nextId + 1))
  }

  /** updateBook */
  function Update(db: BookDb, id: int, req: BookRequest): (r: (Result<BookResponse, Error>, BookDb))
    ensures r.0.Failure? ==> r.1 == db
  {
    if id !in db.rows then
      (Failure(BookNotFound(id)), db)
    else
      var book := db.rows[id];
      if book.isbn != req.isbn && IsbnTaken(db.rows, req.isbn) then
        (Failure(IsbnDuplicate(req.isbn)), db)
      else
        var row := Overwritten(book, req);
        (Success(BookResponse(id, row)), db.(rows := db.rows[id := row]))
  }

  /** The book after the setters of updateBook: every column from the request,
      and the detail (lazily created if missing) overwritten when the request
      carries one. */
  function Overwritten(book: BookRow, req: BookRequest): (r: BookRow)
    ensures r.title == req.title && r.author == req.author && r.isbn == req.isbn
    ensures r.price == req.price && r.publishDate == req.publishDate
    ensures r.detail == if req.detailRequest.Some? then Some(DetailOf(req.detailRequest.value)) else book.detail
  {
    var detail :=
      if req.detailRequest.Some? then Some(OverwriteDetail(DetailOrEmpty(book.detail), req.detailRequest.value))
      else book.detail;
    BookRow(req.title, req.author, req.isbn, req.price, req.publishDate, detail)
  }

  /** The book after the setters of updateBookPartial. */
  function Patched(book: BookRow, p: BookPatch): (r: BookRow)
    ensures r.title == Pick(p.title, book.title) && r.author == Pick(p.author, book.author)
    ensures r.isbn == Pick(p.isbn, book.isbn) && r.price == Pick(p.price, book.price)
    ensures r.publishDate == Pick(p.publishDate, book.publishDate)
    ensures p.detailRequest.None? ==> r.detail == book.detail
    ensures p.detailRequest.Some? ==> r.detail.Some?
    ensures book.detail.Some? && Complete(book.detail.value) ==> r.detail.Some? && Complete(r.detail.value)
  {
    var scalars := PatchScalars(book, p);
    if p.detailRequest.Some? then MergeInto(scalars, p.detailRequest.value) else scalars
  }

  /** The detail part of a book after updateBookDetailFields: the existing
      detail, or a lazily created empty one, merged with the patch. */
  function MergeInto(book: BookRow, p: DetailPatch): (r: BookRow)
    ensures r.detail.Some? && r.(detail := book.detail) == book
    ensures book.detail.Some? && Complete(book.detail.value) ==> Complete(r.detail.value)
  {
    book.(detail := Some(MergeDetail(DetailOrEmpty(book.detail), p)))
  }

  /** updateBookDetail and updateBookDetailPartial */
  function UpdateDetail(db: BookDb, id: int, p: DetailPatch): (r: (Result<BookResponse, Error>, BookDb))
    ensures r.0.Failure? ==> r.1 == db
  {
    if id !in db.rows then
      (Failure(BookNotFound(id)), db)
    else
      var row := MergeInto(db.rows[id], p);
      (Success(BookResponse(id, row)), db.(rows := db.rows[id := row]))
  }

  /** The isbn check of updateBookPartial: only a supplied isbn that differs
      from the book's own and is already stored conflicts. */
  predicate PatchConflicts(rows: map<int, BookRow>, id: int, p: BookPatch)
    requires id in rows
    ensures PatchConflicts(rows, id, p) ==>
      p.isbn.Some? && exists k :: k in rows && k != id && rows[k].isbn == p.isbn.value
  {
    p.isbn.Some? && rows[id].isbn != p.isbn.value && IsbnTaken(rows, p.isbn.value)
  }

  /** updateBookPartial */
  function UpdatePartial(db: BookDb, id: int, p: BookPatch): (r: (Result<BookResponse, Error>, BookDb))
    ensures r.0.Failure? ==> r.1 == db
  {
    if id !in db.rows then
      (Failure(BookNotFound(id)), db)
    else if PatchConflicts(db.rows, id, p) then
      (Failure(IsbnDuplicate(p.isbn.value)), db)
    else
      var row := Patched(db.rows[id], p);
      (Success(BookResponse(id, row)), db.(rows := db.rows[id := row]))
  }

  /** deleteBook */
  function Delete(db: BookDb, id: int): (r: (Result<(), Error>, BookDb))
    ensures r.0.Failure? ==> r.1 == db
  {
    if id !in db.rows then (Failure(BookNotFound(id)), db)
    else (Success(()), db.(rows := db.rows - {id}))
  }

  /** A full request as the patch that supplies every field. */
  function AsBookPatch(req: BookRequest): BookPatch {
    BookPatch(Some(req.title), Some(req.author), Some(req.isbn), Some(req.price), Some(req.publishDate),
              if req.detailRequest.Some? then Some(AsPatch(req.detailRequest.value)) else None)
  }

  // ---------------------------------------------------------------- lookups

  /** Looking up a stored book's isbn finds that very book: isbns are unique. */
  lemma GetByIsbnFindsOwner(db: BookDb, id: int)
    requires Inv(db) && id in db.rows
    ensures GetByIsbn(db, db.rows[id].isbn) == Success(BookResponse(id, db.rows[id]))
  {
  }

  /** A stored book is found by its own author and title, whatever their case. */
  lemma SearchFindsOwnFields(db: BookDb, id: int)
    requires id in db.rows
    ensures BookResponse(id, db.rows[id]) in SearchByAuthor(db, db.rows[id].author)
    ensures BookResponse(id, db.rows[id]) in SearchByTitle(db, db.rows[id].title)
    ensures BookResponse(id, db.rows[id]) in SearchByAuthor(db, Lower(db.rows[id].author))
  {
    var author := db.rows[id].author;
    ContainsItself(author);
    ContainsItself(db.rows[id].title);
    LowerIdempotent(author);
    assert OccursAt(Lower(author), Lower(Lower(author)), 0);
  }

  lemma ContainsItself(s: string)
    ensures ContainsIgnoreCase(s, s)
  {
    assert OccursAt(Lower(s), Lower(s), 0);
  }

  lemma LowerIdempotent(s: string)
    ensures Lower(Lower(s)) == Lower(s)
  {
  }

  /** The empty query matches every book. */
  lemma EmptyQueryFindsAll(db: BookDb)
    ensures SearchByAuthor(db, "") == All(db) == SearchByTitle(db, "")
  {
    forall k | k in db.rows ensures ContainsIgnoreCase(db.rows[k].author, "") && ContainsIgnoreCase(db.rows[k].title, "") {
      assert OccursAt(Lower(db.rows[k].author), Lower(""), 0);
      assert OccursAt(Lower(db.rows[k].title), Lower(""), 0);
    }
  }

  // ---------------------------------------------------------------- create

  /** A duplicate isbn is refused and the store is left as it was. */
  lemma CreateRejectsDuplicate(db: BookDb, req: BookRequest)
    requires IsbnTaken(db.rows, req.isbn)
    ensures Create(db, req) == (Failure(IsbnDuplicate(req.isbn)), db)
  {
  }

  /** A successful create stores exactly one new book, under a fresh id, with
      the request's fields and a complete detail built from the request. */
  lemma CreateStoresOneBook(db: BookDb, req: BookRequest)
    requires Inv(db) && Create(db, req).0.Success?
    ensures var (r, db') := Create(db, req);
      && r.value.id !in db.rows
      && db'.rows.Keys == db.rows.Keys + {r.value.id}
      && |db'.rows| == |db.rows| + 1
      && (forall k :: k in db.rows ==> db'.rows[k] == db.rows[k])
      && db'.rows[r.value.id] == r.value.book
      && r.value.book.title == req.title && r.value.book.author == req.author
      && r.value.book.isbn == req.isbn && r.value.book.price == req.price
      && r.value.book.publishDate == req.publishDate
      && r.value.book.detail == Some(DetailOf(req.detailRequest.value))
      && Complete(r.value.book.detail.value)
  {
  }

  /** Create keeps ids fresh and isbns pairwise distinct. */
  lemma CreatePreservesInv(db: BookDb, req: BookRequest)
    requires Inv(db)
    ensures Inv(Create(db, req).1)
  {
  }

  /** The created book is found again by its id and by its isbn. */
  lemma CreateThenGet(db: BookDb, req: BookRequest)
    requires Inv(db) && Create(db, req).0.Success?
    ensures var (r, db') := Create(db, req);
      && GetById(db', r.value.id) == r
      && GetByIsbn(db', req.isbn) == r
  {
    CreatePreservesInv(db, req);
    var (r, db') := Create(db, req);
    GetByIsbnFindsOwner(db', r.value.id);
  }

  // ---------------------------------------------------------------- update

  /** Keeping the book's own isbn never conflicts. */
  lemma UpdateOwnIsbnNeverConflicts(db: BookDb, id: int, req: BookRequest)
    requires id in db.rows && db.rows[id].isbn == req.isbn
    ensures Update(db, id, req).0.Success?
  {
  }

  /** A changed isbn that is already stored is refused before anything changes. */
  lemma UpdateRejectsTakenIsbn(db: BookDb, id: int, req: BookRequest)
    requires id in db.rows && db.rows[id].isbn != req.isbn && IsbnTaken(db.rows, req.isbn)
    ensures Update(db, id, req) == (Failure(IsbnDuplicate(req.isbn)), db)
  {
  }

  /** A successful update overwrites all five scalar fields, sets all six detail
      fields when a detail request is given (creating the detail if needed),
      keeps the detail otherwise, and touches no other book. */
  lemma UpdateOverwrites(db: BookDb, id: int, req: BookRequest)
    requires Update(db, id, req).0.Success?
    ensures var (r, db') := Update(db, id, req);
      && db'.rows.Keys == db.rows.Keys && db'.nextId == db.nextId
      && (forall k :: k in db.rows && k != id ==> db'.rows[k] == db.rows[k])
      && r == Success(BookResponse(id, db'.rows[id]))
      && db'.rows[id].title == req.title && db'.rows[id].author == req.author
      && db'.rows[id].isbn == req.isbn && db'.rows[id].price == req.price
      && db'.rows[id].publishDate == req.publishDate
      && db'.rows[id].detail ==
           (if req.detailRequest.Some? then Some(DetailOf(req.detailRequest.value)) else db.rows[id].detail)
  {
  }

  lemma UpdatePreservesInv(db: BookDb, id: int, req: BookRequest)
    requires Inv(db)
    ensures Inv(Update(db, id, req).1)
  {
  }

  /** A full update is the partial update whose patch supplies every field. */
  lemma FullUpdateIsFullPatch(db: BookDb, id: int, req: BookRequest)
    ensures Update(db, id, req) == UpdatePartial(db, id, AsBookPatch(req))
  {
    if id in db.rows && req.detailRequest.Some? {
      var dr := req.detailRequest.value;
      MergeFullPatch(DetailOrEmpty(db.rows[id].detail), dr);
    }
  }

  // ---------------------------------------------------------------- partial update

  /** A successful partial update overwrites exactly the supplied fields of
      that one book, merges a supplied detail patch into its detail (created
      lazily if missing), and leaves every other field and book unchanged. */
  lemma UpdatePartialChangesOnlySupplied(db: BookDb, id: int, p: BookPatch)
    requires UpdatePartial(db, id, p).0.Success?
    ensures var (r, db') := UpdatePartial(db, id, p);
      && db'.rows.Keys == db.rows.Keys && db'.nextId == db.nextId
      && (forall k :: k in db.rows && k != id ==> db'.rows[k] == db.rows[k])
      && r == Success(BookResponse(id, db'.rows[id]))
      && db'.rows[id].title == Pick(p.title, db.rows[id].title)
      && db'.rows[id].author == Pick(p.author, db.rows[id].author)
      && db'.rows[id].isbn == Pick(p.isbn, db.rows[id].isbn)
      && db'.rows[id].price == Pick(p.price, db.rows[id].price)
      && db'.rows[id].publishDate == Pick(p.publishDate, db.rows[id].publishDate)
      && db'.rows[id].detail ==
           (if p.detailRequest.None? then db.rows[id].detail
            else Some(MergeDetail(DetailOrEmpty(db.rows[id].detail), p.detailRequest.value)))
  {
  }

  /** Without a new, different isbn there is nothing to conflict with. */
  lemma UpdatePartialConflictsOnlyOnNewIsbn(db: BookDb, id: int, p: BookPatch)
    requires id in db.rows
    requires p.isbn.None? || p.isbn.value == db.rows[id].isbn
    ensures UpdatePartial(db, id, p).0.Success?
  {
  }

  /** A supplied isbn that differs from the book's own and is already stored
      is refused before anything changes. */
  lemma UpdatePartialRejectsTakenIsbn(db: BookDb, id: int, p: BookPatch)
    requires id in db.rows && p.isbn.Some? && p.isbn.value != db.rows[id].isbn
    requires IsbnTaken(db.rows, p.isbn.value)
    ensures UpdatePartial(db, id, p) == (Failure(IsbnDuplicate(p.isbn.value)), db)
  {
  }

  /** Last patch wins: patching a book with p and then q is patching it with
      their combination. */
  lemma PatchedLastWins(book: BookRow, p: BookPatch, q: BookPatch)
    ensures Patched(Patched(book, p), q) == Patched(book, Then(p, q))
  {
    PatchScalarsLastWins(book, p, q);
    if p.detailRequest.Some? && q.detailRequest.Some? {
      MergeDetailLastWins(DetailOrEmpty(book.detail), p.detailRequest.value, q.detailRequest.value);
    }
  }

  /** An empty patch changes nothing. */
  lemma UpdatePartialNothing(db: BookDb, id: int)
    requires id in db.rows
    ensures UpdatePartial(db, id, NoChange) == (Success(BookResponse(id, db.rows[id])), db)
  {
    assert db.rows[id := db.rows[id]] == db.rows;
  }

  /** Sending the same patch twice has the effect of sending it once. */
  lemma {:induction false} UpdatePartialIdempotent(db: BookDb, id: int, p: BookPatch)
    requires UpdatePartial(db, id, p).0.Success?
    ensures var (r, db') := UpdatePartial(db, id, p);
      UpdatePartial(db', id, p) == (r, db')
  {
    var (r, db') := UpdatePartial(db, id, p);
    var scalars := PatchScalars(db.rows[id], p);
    PatchScalarsIdempotent(db.rows[id], p);
    if p.detailRequest.Some? {
      MergeDetailIdempotent(DetailOrEmpty(scalars.detail), p.detailRequest.value);
    }
    assert db'.rows[id := db'.rows[id]] == db'.rows;
  }

  lemma UpdatePartialPreservesInv(db: BookDb, id: int, p: BookPatch)
    requires Inv(db)
    ensures Inv(UpdatePartial(db, id, p).1)
  {
  }

  // ---------------------------------------------------------------- detail update

  /** The detail update touches only the detail of that one book: it creates
      the detail when missing and overwrites only the supplied fields. */
  lemma UpdateDetailChangesOnlyDetail(db: BookDb, id: int, p: DetailPatch)
    requires id in db.rows
    ensures var (r, db') := UpdateDetail(db, id, p);
      && r.Success? && db'.rows.Keys == db.rows.Keys && db'.nextId == db.nextId
      && (forall k :: k in db.rows && k != id ==> db'.rows[k] == db.rows[k])
      && db'.rows[id] == db.rows[id].(detail := db'.rows[id].detail)
      && db'.rows[id].detail == Some(MergeDetail(DetailOrEmpty(db.rows[id].detail), p))
      && (db.rows[id].detail.None? ==> db'.rows[id].detail == Some(MergeDetail(EmptyDetail, p)))
  {
  }

  /** Sending the same detail patch twice has the effect of sending it once. */
  lemma {:induction false} UpdateDetailIdempotent(db: BookDb, id: int, p: DetailPatch)
    ensures var (r, db') := UpdateDetail(db, id, p);
      UpdateDetail(db', id, p) == (r, db')
  {
    if id in db.rows {
      var (r, db') := UpdateDetail(db, id, p);
      MergeDetailIdempotent(DetailOrEmpty(db.rows[id].detail), p);
      assert db'.rows[id := db'.rows[id]] == db'.rows;
    }
  }

  lemma UpdateDetailPreservesInv(db: BookDb, id: int, p: DetailPatch)
    requires Inv(db)
    ensures Inv(UpdateDetail(db, id, p).1)
  {
  }

  // ---------------------------------------------------------------- delete

  /** Deleting a stored book removes exactly that book and, by cascade, its
      detail; every other book can still be found as before. */
  lemma DeleteRemovesExactly(db: BookDb, id: int)
    requires id in db.rows
    ensures var (r, db') := Delete(db, id);
      && r.Success?
      && db'.rows.Keys == db.rows.Keys - {id}
      && GetById(db', id) == Failure(BookNotFound(id))
      && id !in Details(db'.rows)
      && (forall k :: k != id ==> GetById(db', k) == GetById(db, k))
  {
  }

  /** Deleting a stored book takes exactly that book out of getAllBooks. */
  lemma DeleteRemovesFromAll(db: BookDb, id: int)
    requires id in db.rows
    ensures All(Delete(db, id).1) == All(db) - {BookResponse(id, db.rows[id])}
  {
    var db' := Delete(db, id).1;
    forall x | x in All(db) - {BookResponse(id, db.rows[id])}
      ensures x in All(db')
    {
      assert x.id != id && x.id in db'.rows && x.book == db'.rows[x.id];
    }
  }

  lemma DeletePreservesInv(db: BookDb, id: int)
    requires Inv(db)
    ensures Inv(Delete(db, id).1)
  {
  }

  // ---------------------------------------------------------------- not-null detail columns

  /** Every stored book has a detail whose six not-null columns are all set. */
  predicate DetailsComplete(rows: map<int, BookRow>) {
    forall k | k in rows :: rows[k].detail.Some? && Complete(rows[k].detail.value)
  }

  lemma EmptyDetailsComplete()
    ensures DetailsComplete(Empty.rows)
  {
  }

  lemma CreateKeepsDetailsComplete(db: BookDb, req: BookRequest)
    requires DetailsComplete(db.rows)
    ensures DetailsComplete(Create(db, req).1.rows)
  {
  }

  lemma UpdateKeepsDetailsComplete(db: BookDb, id: int, req: BookRequest)
    requires DetailsComplete(db.rows)
    ensures DetailsComplete(Update(db, id, req).1.rows)
  {
  }

  lemma UpdatePartialKeepsDetailsComplete(db: BookDb, id: int, p: BookPatch)
    requires DetailsComplete(db.rows)
    ensures DetailsComplete(UpdatePartial(db, id, p).1.rows)
  {
  }

  lemma UpdateDetailKeepsDetailsComplete(db: BookDb, id: int, p: DetailPatch)
    requires DetailsComplete(db.rows)
    ensures DetailsComplete(UpdateDetail(db, id, p).1.rows)
  {
  }

  lemma DeleteKeepsDetailsComplete(db: BookDb, id: int)
    requires DetailsComplete(db.rows)
    ensures DetailsComplete(Delete(db, id).1.rows)
  {
  }
}
