/** The three JPA entities as mutable objects, with the fields, constructors
    and relationship helpers of the source. Each entity's `Row` is the value of
    its columns (and, for a book, of its detail) at the current moment. */
module Entity {
  import opened Wrappers
  import opened Records
  import Lists

  /** BookDetail: the owning side of the one-to-one with Book. `book` is the
      book_id foreign key column. */
  class BookDetail {
    var description: Option<string>
    var language: Option<string>
    var pageCount: Option<int>
    var publisher: Option<string>
    var coverImageUrl: Option<string>
    var edition: Option<string>
    var book: Book?

    /** The builder: the given column values, no book yet. `BookDetail.builder().build()`
        is this constructor applied to EmptyDetail. */
    constructor (row: DetailRow)
      ensures Row() == row && book == null
    {
      description := row.description;
      language := row.language;
      pageCount := row.pageCount;
      publisher := row.publisher;
      coverImageUrl := row.coverImageUrl;
      edition := row.edition;
      book := null;
    }

    function Row(): DetailRow
      reads this
    {
      DetailRow(description, language, pageCount, publisher, coverImageUrl, edition)
    }
  }

  /** Book: the inverse side of the one-to-one with BookDetail (`mappedBy = "book"`).
      `id` is null until the repository saves the book. Book.java declares no
      `publisher` field, although Publisher.addBook and removeBook set one; the
      model gives the book that field. */
  class Book {
    var id: Option<int>
    var title: string
    var author: string
    var isbn: string
    var price: int
    var publishDate: Date
    var bookDetail: BookDetail?
    var publisher: Publisher?

    /** The builder: the given column values and detail, no id, no publisher. */
    constructor (title: string, author: string, isbn: string, price: int, publishDate: Date, bookDetail: BookDetail?)
      ensures id == None && publisher == null && this.bookDetail == bookDetail
      ensures this.title == title && this.author == author && this.isbn == isbn
      ensures this.price == price && this.publishDate == publishDate
    {
      this.id := None;
      this.title := title;
      this.author := author;
      this.isbn := isbn;
      this.price := price;
      this.publishDate := publishDate;
      this.bookDetail := bookDetail;
      this.publisher := null;
    }

    function Row(): BookRow
      reads this, bookDetail
    {
      BookRow(title, author, isbn, price, publishDate,
              if bookDetail == null then None else Some(bookDetail.Row()))
    }
  }

  /** Publisher: the parent of a one-to-many with Book, whose `books` list and
      each book's `publisher` reference are meant to agree. */
  class Publisher {
    var id: Option<int>
    var name: string
    var establishedDate: Date
    var address: string
    var books: seq<Book>

    /** The builder; `books` defaults to an empty list. */
    constructor (name: string, establishedDate: Date, address: string)
      ensures id == None && books == []
      ensures Row() == PublisherRow(name, establishedDate, address, [])
    {
      this.id := None;
      this.name := name;
      this.establishedDate := establishedDate;
      this.address := address;
      this.books := [];
    }

    function Row(): PublisherRow<Book>
      reads this
    {
      PublisherRow(name, establishedDate, address, books)
    }

    /** Every book in the list points back to this publisher. */
    ghost predicate Synced()
      reads this, books
    {
      forall i :: 0 <= i < |books| ==> books[i].publisher == this
    }

    /** Appends the book (even if it is already in the list) and points it here. */
    method AddBook(book: Book)
      modifies this`books, book`publisher
      ensures books == old(books) + [book] && book.publisher == this
      ensures old(Synced()) ==> Synced()
    {
      books := books + [book];
      book.publisher := this;
    }

    /** Removes the first occurrence of the book, if any, and clears the book's
        publisher in every case. The list and the back-references stay in
        agreement only when the book did not occur in the list twice. */
    method RemoveBook(book: Book)
      modifies this`books, book`publisher
      ensures books == Lists.RemoveFirst<Book>(old(books), book) && book.publisher == null
      ensures old(Synced()) ==> (Synced() <==> multiset(old(books))[book] <= 1)
    {
      ghost var before := books;
      books := Lists.RemoveFirst<Book>(books, book);
      book.publisher := null;
      Lists.RemoveFirstStillContains<Book>(before, book);
      if old(Synced()) {
        if multiset(before)[book] <= 1 {
          forall i | 0 <= i < |books| ensures books[i].publisher == this {
            assert books[i] in Lists.RemoveFirst<Book>(before, book);
            Lists.RemoveFirstWithin<Book>(before, book, books[i]);
            var j :| 0 <= j < |before| && before[j] == books[i];
            assert old(before[j].publisher) == this;
          }
        } else {
          assert book in books;
          var i :| 0 <= i < |books| && books[i] == book;
          assert books[i].publisher == null;
        }
      }
    }
  }
}
