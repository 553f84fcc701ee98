/** BookService: the book repository as a map from generated id to Book
    object, and the service operations, each proved to have the effect that
    BookModel gives it on the abstract state `Db()`. */
module BookServices {
  import opened Wrappers
  import opened Errors
  import opened Records
  import opened Entity
  import BookModel

  class BookService {
    /** bookRepository: the stored books by id */
    var books: map<int, Book>
    /** the next value of the books table's IDENTITY column */
    var nextId: int
    /** the rows of the stored books */
    ghost var Rows: map<int, BookRow>
    /** the stored books and their details */
    ghost var Repr: set<object>

    ghost function Db(): BookModel.BookDb
      reads this
    {
      BookModel.BookDb(Rows, nextId)
    }

    /** Each stored book and its detail are in `Repr`, the book carries its
        key as id, its detail points back to it (the detail is the owning side
        of the relation), `Rows` holds the books' current values, and the
        abstract state is a reachable one. */
    ghost predicate Valid()
      reads this, Repr
    {
      && books.Keys == Rows.Keys
      && (forall k | k in books ::
            && books[k] in Repr
            && (books[k].bookDetail != null ==> books[k].bookDetail in Repr)
            && Stored(books[k], k, Rows[k]))
      && BookModel.Inv(Db())
    }

    /** The book is stored under key `k` with value `row`. */
    static ghost predicate Stored(b: Book, k: int, row: BookRow)
      reads b, b.bookDetail
    {
      && b.id == Some(k)
      && (b.bookDetail != null ==> b.bookDetail.book == b)
      && b.Row() == row
    }

    /** book_id is unique: no detail belongs to two stored books, because
        each detail points back to the one book that holds it. */
    lemma DetailOwnedByOneBook(i: int, j: int)
      requires Valid() && i in books && j in books
      requires books[i].bookDetail != null && books[i].bookDetail == books[j].bookDetail
      ensures i == j
    {
    }

    constructor ()
      ensures Valid() && fresh(Repr) && Db() == BookModel.Empty
    {
      books := map[];
      nextId := 1;
      Rows := map[];
      Repr := {};
    }

    /** bookRepository.existsByIsbn */
    predicate ExistsByIsbn(isbn: string)
      requires Valid()
      reads this, Repr
      ensures ExistsByIsbn(isbn) <==> BookModel.IsbnTaken(Rows, isbn)
    {
      exists k | k in books :: books[k].isbn == isbn
    }

    /** getAllBooks */
    method GetAllBooks() returns (r: set<BookResponse>)
      requires Valid()
      ensures r == BookModel.All(Db())
    {
      r := set k | k in books :: BookResponse(k, books[k].Row());
    }

    /** getBookById */
    method GetBookById(id: int) returns (r: Result<BookResponse, Error>)
      requires Valid()
      ensures r == BookModel.GetById(Db(), id)
    {
      if id !in books {
        return Failure(ResourceNotFound("Book", "id", IdValue(id)));
      }
      r := Success(BookResponse(id, books[id].Row()));
    }

    /** getBookByIsbn */
    method GetBookByIsbn(isbn: string) returns (r: Result<BookResponse, Error>)
      requires Valid()
      ensures r == BookModel.GetByIsbn(Db(), isbn)
    {
      if !ExistsByIsbn(isbn) {
        return Failure(ResourceNotFound("Book", "ISBN", TextValue(isbn)));
      }
      var k :| k in books && books[k].isbn == isbn;
      r := Success(BookResponse(k, books[k].Row()));
    }

    /** getBooksByAuthor */
    method GetBooksByAuthor(author: string) returns (r: set<BookResponse>)
      requires Valid()
      ensures r == BookModel.SearchByAuthor(Db(), author)
    {
      r := set k | k in books && BookModel.ContainsIgnoreCase(books[k].author, author) :: BookResponse(k, books[k].Row());
    }

    /** getBooksByTitle */
    method GetBooksByTitle(title: string) returns (r: set<BookResponse>)
      requires Valid()
      ensures r == BookModel.SearchByTitle(Db(), title)
    {
      r := set k | k in books && BookModel.ContainsIgnoreCase(books[k].title, title) :: BookResponse(k, books[k].Row());
    }

    /** bookRepository.save of a new book: the IDENTITY column gives it the
        next id, and the detail is stored with it by cascade. */
    method Save(book: Book) returns (id: int)
      requires Valid()
      requires book !in Repr && book.bookDetail != null && book.bookDetail !in Repr
      requires book.bookDetail.book == book
      requires BookModel.Inv(BookModel.BookDb(Rows[nextId := book.Row()], nextId + 1))
      modifies this, book`id
      ensures Valid() && Repr == old(Repr) + {book, book.bookDetail}
      ensures id == old(nextId) && book.Row() == old(book.Row())
      ensures Db() == BookModel.BookDb(old(Rows)[id := book.Row()], id + 1)
    {
      id := nextId;
      book.id := Some(id);
      books, Rows, Repr, nextId := books[id := book], Rows[id := book.Row()], Repr + {book, book.bookDetail}, nextId + 1;
      forall k | k in books && k != id
        ensures books[k] in Repr && (books[k].bookDetail != null ==> books[k].bookDetail in Repr)
        ensures Stored(books[k], k, Rows[k])
      {
        assert books[k] == old(books)[k];
      }
    }

    /** createBook */
    method CreateBook(req: BookRequest) returns (r: Result<BookResponse, Error>)
      requires Valid()
      modifies this
      ensures Valid() && fresh(Repr - old(Repr))
      ensures (r, Db()) == BookModel.Create(old(Db()), req)
    {
      if ExistsByIsbn(req.isbn) {
        return Failure(IsbnDuplicate(req.isbn));
      }
      if req.detailRequest.None? {
        // request.getDetailRequest().getDescription() throws
        return Failure(NullPointer);
      }
      var detail := new BookDetail(DetailOf(req.detailRequest.value));
      var book := new Book(req.title, req.author, req.isbn, req.price, req.publishDate, detail);
      detail.book := book;
      BookModel.CreatePreservesInv(Db(), req);
      var id := Save(book);
      r := Success(BookResponse(id, book.Row()));
    }

    /** After the book under `id` was changed in place (and possibly given a
        new detail), with no other stored object touched, the service is
        valid again once `Rows` records the book's new value. */
    twostate lemma Restored(id: int)
      requires old(Valid()) && id in old(books)
      requires books == old(books) && nextId == old(nextId)
      requires Rows == old(Rows)[id := books[id].Row()]
      requires old(Repr) <= Repr
      requires forall o: object | o in old(Repr) && o != this && o != books[id] && o != old(books[id].bookDetail) :: unchanged(o)
      requires books[id].bookDetail != null ==> books[id].bookDetail in Repr
      requires Stored(books[id], id, Rows[id])
      requires BookModel.Inv(Db())
      ensures Valid()
    {
      forall k | k in books && k != id
        ensures Stored(books[k], k, Rows[k])
      {
        var b := books[k];
        assert old(b.id) == Some(k) != Some(id) == old(books[id].id);
        assert old(b.bookDetail) != null ==> old(b.bookDetail) != old(books[id].bookDetail);
      }
    }

    /** The detail of the book, created empty and attached to it if the book
        has none yet. */
    static method DetailFor(book: Book) returns (detail: BookDetail)
      requires book.bookDetail != null ==> book.bookDetail.book == book
      modifies book`bookDetail
      ensures detail == book.bookDetail && detail.book == book
      ensures old(book.bookDetail) != null ==> detail == old(book.bookDetail)
      ensures old(book.bookDetail) == null ==> fresh(detail) && detail.Row() == EmptyDetail
    {
      if book.bookDetail == null {
        detail := new BookDetail(EmptyDetail);
        detail.book := book;
        book.bookDetail := detail;
      } else {
        detail := book.bookDetail;
      }
    }

    /** The setters of updateBook. */
    static method Overwrite(book: Book, req: BookRequest)
      requires book.bookDetail != null ==> book.bookDetail.book == book
      modifies book, book.bookDetail
      ensures book.Row() == BookModel.Overwritten(old(book.Row()), req)
      ensures book.id == old(book.id) && book.publisher == old(book.publisher)
      ensures book.bookDetail == old(book.bookDetail) || (old(book.bookDetail) == null && fresh(book.bookDetail))
      ensures book.bookDetail != null ==> book.bookDetail.book == book
    {
      book.title, book.author, book.isbn, book.price, book.publishDate :=
        req.title, req.author, req.isbn, req.price, req.publishDate;
      if req.detailRequest.Some? {
        var detail := DetailFor(book);
        Fill(detail, req.detailRequest.value);
      }
    }

    /** The six detail setters of updateBook. */
    static method Fill(detail: BookDetail, dr: DetailRequest)
      modifies detail
      ensures detail.Row() == OverwriteDetail(old(detail.Row()), dr) && detail.book == old(detail.book)
    {
      detail.description, detail.language, detail.pageCount := Some(dr.description), Some(dr.language), Some(dr.pageCount);
      detail.publisher, detail.coverImageUrl, detail.edition := Some(dr.publisher), Some(dr.coverImageUrl), Some(dr.edition);
    }

    /** updateBook */
    method UpdateBook(id: int, req: BookRequest) returns (r: Result<BookResponse, Error>)
      requires Valid()
      modifies this, Repr
      ensures Valid() && fresh(Repr - old(Repr))
      ensures (r, Db()) == BookModel.Update(old(Db()), id, req)
      ensures forall b: Book | b in old(Repr) :: b.publisher == old(b.publisher)
    {
      if id !in books {
        return Failure(BookModel.BookNotFound(id));
      }
      var book := books[id];
      if book.isbn != req.isbn && ExistsByIsbn(req.isbn) {
        return Failure(IsbnDuplicate(req.isbn));
      }
      Overwrite(book, req);
      BookModel.UpdatePreservesInv(old(Db()), id, req);
      Rows := Rows[id := book.Row()];
      if book.bookDetail != null {
        Repr := Repr + {book.bookDetail};
      }
      Restored(id);
      r := Success(BookResponse(id, book.Row()));
    }

    /** The six guarded detail setters: each field the patch supplies is set. */
    static method Merge(detail: BookDetail, p: DetailPatch)
      modifies detail
      ensures detail.Row() == MergeDetail(old(detail.Row()), p) && detail.book == old(detail.book)
    {
      if p.description.Some? { detail.description := p.description; }
      if p.language.Some? { detail.language := p.language; }
      if p.pageCount.Some? { detail.pageCount := p.pageCount; }
      if p.publisher.Some? { detail.publisher := p.publisher; }
      if p.coverImageUrl.Some? { detail.coverImageUrl := p.coverImageUrl; }
      if p.edition.Some? { detail.edition := p.edition; }
    }

    /** updateBookDetail */
    method UpdateBookDetail(id: int, p: DetailPatch) returns (r: Result<BookResponse, Error>)
      requires Valid()
      modifies this, Repr
      ensures Valid() && fresh(Repr - old(Repr))
      ensures (r, Db()) == BookModel.UpdateDetail(old(Db()), id, p)
      ensures forall b: Book | b in old(Repr) :: b.publisher == old(b.publisher)
    {
      if id !in books {
        return Failure(BookModel.BookNotFound(id));
      }
      var book := books[id];
      var detail := DetailFor(book);
      Merge(detail, p);
      BookModel.UpdateDetailPreservesInv(old(Db()), id, p);
      Rows := Rows[id := book.Row()];
      Repr := Repr + {detail};
      Restored(id);
      r := Success(BookResponse(id, book.Row()));
    }

    /** updateBookDetailFields: the detail of the book, created if missing,
        merged with the patch. */
    static method UpdateBookDetailFields(book: Book, p: DetailPatch)
      requires book.bookDetail != null ==> book.bookDetail.book == book
      modifies book, book.bookDetail
      ensures book.Row() == BookModel.MergeInto(old(book.Row()), p)
      ensures book.id == old(book.id) && book.publisher == old(book.publisher)
      ensures book.bookDetail == old(book.bookDetail) || (old(book.bookDetail) == null && fresh(book.bookDetail))
      ensures book.bookDetail != null && book.bookDetail.book == book
    {
      var detail := DetailFor(book);
      Merge(detail, p);
    }

    /** The five guarded column setters of updateBookPartial. */
    static method PatchColumns(book: Book, p: BookPatch)
      modifies book
      ensures book.Row() == PatchScalars(old(book.Row()), p)
      ensures book.id == old(book.id) && book.bookDetail == old(book.bookDetail) && book.publisher == old(book.publisher)
    {
      if p.title.Some? { book.title := p.title.value; }
      if p.author.Some? { book.author := p.author.value; }
      if p.isbn.Some? { book.isbn := p.isbn.value; }
      if p.price.Some? { book.price := p.price.value; }
      if p.publishDate.Some? { book.publishDate := p.publishDate.value; }
    }

    /** The guarded setters of updateBookPartial. */
    static method Patch(book: Book, p: BookPatch)
      requires book.bookDetail != null ==> book.bookDetail.book == book
      modifies book, book.bookDetail
      ensures book.Row() == BookModel.Patched(old(book.Row()), p)
      ensures book.id == old(book.id) && book.publisher == old(book.publisher)
      ensures book.bookDetail == old(book.bookDetail) || (old(book.bookDetail) == null && fresh(book.bookDetail))
      ensures book.bookDetail != null ==> book.bookDetail.book == book
    {
      PatchColumns(book, p);
      if p.detailRequest.Some? {
        UpdateBookDetailFields(book, p.detailRequest.value);
      }
    }

    /** updateBookPartial */
    method UpdateBookPartial(id: int, p: BookPatch) returns (r: Result<BookResponse, Error>)
      requires Valid()
      modifies this, Repr
      ensures Valid() && fresh(Repr - old(Repr))
      ensures (r, Db()) == BookModel.UpdatePartial(old(Db()), id, p)
      ensures forall b: Book | b in old(Repr) :: b.publisher == old(b.publisher)
    {
      if id !in books {
        return Failure(BookModel.BookNotFound(id));
      }
      var book := books[id];
      if p.isbn.Some? && book.isbn != p.isbn.value && ExistsByIsbn(p.isbn.value) {
        return Failure(IsbnDuplicate(p.isbn.value));
      }
      Patch(book, p);
      BookModel.UpdatePartialPreservesInv(old(Db()), id, p);
      Rows := Rows[id := book.Row()];
      if book.bookDetail != null {
        Repr := Repr + {book.bookDetail};
      }
      Restored(id);
      r := Success(BookResponse(id, book.Row()));
    }

    /** updateBookDetailPartial */
    method UpdateBookDetailPartial(id: int, p: DetailPatch) returns (r: Result<BookResponse, Error>)
      requires Valid()
      modifies this, Repr
      ensures Valid() && fresh(Repr - old(Repr))
      ensures (r, Db()) == BookModel.UpdateDetail(old(Db()), id, p)
      ensures forall b: Book | b in old(Repr) :: b.publisher == old(b.publisher)
    {
      if id !in books {
        return Failure(BookModel.BookNotFound(id));
      }
      var book := books[id];
      UpdateBookDetailFields(book, p);
      BookModel.UpdateDetailPreservesInv(old(Db()), id, p);
      Rows := Rows[id := book.Row()];
      Repr := Repr + {book.bookDetail};
      Restored(id);
      r := Success(BookResponse(id, book.Row()));
    }

    /** deleteBook: the book goes, and its detail with it by cascade. */
    method DeleteBook(id: int) returns (r: Result<(), Error>)
      requires Valid()
      modifies this
      ensures Valid() && Repr == old(Repr)
      ensures (r, Db()) == BookModel.Delete(old(Db()), id)
    {
      if id !in books {
        return Failure(BookModel.BookNotFound(id));
      }
      BookModel.DeletePreservesInv(Db(), id);
      books, Rows := books - {id}, Rows - {id};
      r := Success(());
    }
  }
}
