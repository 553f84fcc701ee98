/** The column values of the three entities as plain values, the request
    payloads the services accept, the responses they return, and the
    field-by-field merges that the partial updates perform.

    A row is what one entity object holds in its columns at a given moment;
    the services keep their entities' rows in the abstract state they are
    specified against. */
module Records {
  import opened Wrappers

  /** java.time.LocalDate, treated as an opaque value. */
  datatype Date = Date(year: int, month: int, day: int)

  /** The six columns of a BookDetail. Each is a nullable Java object, because a
      detail built with an empty builder starts with all six null. */
  datatype DetailRow = DetailRow(
    description: Option<string>,
    language: Option<string>,
    pageCount: Option<int>,
    publisher: Option<string>,   // a free-text label, not a Publisher entity
    coverImageUrl: Option<string>,
    edition: Option<string>)

  /** What `BookDetail.builder().build()` produces. */
  const EmptyDetail: DetailRow := DetailRow(None, None, None, None, None, None)

  /** Every column of book_details is declared not null: a detail row satisfies
      the table's constraints only when all six are set. */
  predicate Complete(d: DetailRow) {
    && d.description.Some?
    && d.language.Some?
    && d.pageCount.Some?
    && d.publisher.Some?
    && d.coverImageUrl.Some?
    && d.edition.Some?
  }

  /** The columns of a Book (all declared not null) and its optional detail,
      which lives in book_details under this book's id. */
  datatype BookRow = BookRow(
    title: string,
    author: string,
    isbn: string,
    price: int,
    publishDate: Date,
    detail: Option<DetailRow>)

  /** The columns of a Publisher (all declared not null) and its list of books;
      the element type is left open, so that this layer needs no heap. */
  datatype PublisherRow<B> = PublisherRow(
    name: string,
    establishedDate: Date,
    address: string,
    books: seq<B>)

  /** BookDTO.BookDetailRequest: the six detail fields of a full request. */
  datatype DetailRequest = DetailRequest(
    description: string,
    language: string,
    pageCount: int,
    publisher: string,
    coverImageUrl: string,
    edition: string)

  /** BookDTO.Request: a full create or update request; the detail part may be null. */
  datatype BookRequest = BookRequest(
    title: string,
    author: string,
    isbn: string,
    price: int,
    publishDate: Date,
    detailRequest: Option<DetailRequest>)

  /** BookDTO.BookDetailPatchRequest: every field may be left out (null). */
  datatype DetailPatch = DetailPatch(
    description: Option<string>,
    language: Option<string>,
    pageCount: Option<int>,
    publisher: Option<string>,
    coverImageUrl: Option<string>,
    edition: Option<string>)

  /** BookDTO.PatchRequest: every field may be left out (null). */
  datatype BookPatch = BookPatch(
    title: Option<string>,
    author: Option<string>,
    isbn: Option<string>,
    price: Option<int>,
    publishDate: Option<Date>,
    detailRequest: Option<DetailPatch>)

  /** PublisherDTO.Request */
  datatype PublisherRequest = PublisherRequest(name: string, establishedDate: Date, address: string)

  /** BookDTO.Response: the book's generated id with its columns and detail. */
  datatype BookResponse = BookResponse(id: int, book: BookRow)

  /** PublisherDTO.Response: the publisher's generated id with its columns. */
  datatype PublisherResponse<B> = PublisherResponse(id: int, publisher: PublisherRow<B>)

  /** The six detail setters of createBook and updateBook, fed from a full request. */
  function DetailOf(r: DetailRequest): (d: DetailRow)
    ensures Complete(d)
  {
    DetailRow(Some(r.description), Some(r.language), Some(r.pageCount),
              Some(r.publisher), Some(r.coverImageUrl), Some(r.edition))
  }

  /** The six unconditional detail setters of updateBook, applied to the detail
      the book already has or to a freshly built empty one. Every column is
      overwritten, so nothing of the old detail survives. */
  function OverwriteDetail(d: DetailRow, r: DetailRequest): (o: DetailRow)
    ensures o == DetailOf(r)
  {
    d.(description := Some(r.description), language := Some(r.language),
       pageCount := Some(r.pageCount), publisher := Some(r.publisher),
       coverImageUrl := Some(r.coverImageUrl), edition := Some(r.edition))
  }

  /** A full detail request seen as a patch that supplies all six fields. */
  function AsPatch(r: DetailRequest): DetailPatch {
    DetailPatch(Some(r.description), Some(r.language), Some(r.pageCount),
                Some(r.publisher), Some(r.coverImageUrl), Some(r.edition))
  }

  /** A patch that supplies nothing. */
  const NoDetailChange: DetailPatch := DetailPatch(None, None, None, None, None, None)

  const NoChange: BookPatch := BookPatch(None, None, None, None, None, None)

  /** `if (supplied != null) set(supplied)`: the supplied value wins, otherwise
      the current one stays. */
  function Pick<T>(supplied: Option<T>, current: T): T {
    if supplied.Some? then supplied.value else current
  }

  /** The first of two optional values that is present. */
  function Or<T>(first: Option<T>, second: Option<T>): Option<T> {
    if first.Some? then first else second
  }

  /** The detail a book has, or the empty one that is built when it has none. */
  function DetailOrEmpty(d: Option<DetailRow>): DetailRow {
    if d.Some? then d.value else EmptyDetail
  }

  /** The six guarded setters of updateBookDetailFields. A merge never unsets a
      column, so a detail with every not-null column set keeps them set. */
  function MergeDetail(d: DetailRow, p: DetailPatch): (m: DetailRow)
    ensures Complete(d) ==> Complete(m)
  {
    DetailRow(
      if p.description.Some? then p.description else d.description,
      if p.language.Some? then p.language else d.language,
      if p.pageCount.Some? then p.pageCount else d.pageCount,
      if p.publisher.Some? then p.publisher else d.publisher,
      if p.coverImageUrl.Some? then p.coverImageUrl else d.coverImageUrl,
      if p.edition.Some? then p.edition else d.edition)
  }

  /** The five guarded scalar setters of updateBookPartial; the detail is not
      theirs to change. */
  function PatchScalars(b: BookRow, p: BookPatch): (s: BookRow)
    ensures s.detail == b.detail
  {
    BookRow(
      Pick(p.title, b.title),
      Pick(p.author, b.author),
      Pick(p.isbn, b.isbn),
      Pick(p.price, b.price),
      Pick(p.publishDate, b.publishDate),
      b.detail)
  }

  /** The detail patch that sends p and then q: a field q supplies wins over p's. */
  function ThenDetail(p: DetailPatch, q: DetailPatch): DetailPatch {
    DetailPatch(Or(q.description, p.description), Or(q.language, p.language),
                Or(q.pageCount, p.pageCount), Or(q.publisher, p.publisher),
                Or(q.coverImageUrl, p.coverImageUrl), Or(q.edition, p.edition))
  }

  /** The book patch that sends p and then q: a field q supplies wins over p's,
      and two detail patches combine the same way. */
  function Then(p: BookPatch, q: BookPatch): BookPatch {
    BookPatch(Or(q.title, p.title), Or(q.author, p.author), Or(q.isbn, p.isbn),
              Or(q.price, p.price), Or(q.publishDate, p.publishDate),
              if q.detailRequest.None? then p.detailRequest
              else if p.detailRequest.None? then q.detailRequest
              else Some(ThenDetail(p.detailRequest.value, q.detailRequest.value)))
  }

  /** Last patch wins: merging p and then q is merging their combination. */
  lemma MergeDetailLastWins(d: DetailRow, p: DetailPatch, q: DetailPatch)
    ensures MergeDetail(MergeDetail(d, p), q) == MergeDetail(d, ThenDetail(p, q))
  {
  }

  /** Applying the same detail patch twice gives what applying it once gives. */
  lemma MergeDetailIdempotent(d: DetailRow, p: DetailPatch)
    ensures MergeDetail(MergeDetail(d, p), p) == MergeDetail(d, p)
  {
  }

  /** A patch that supplies nothing leaves the detail as it is. */
  lemma MergeNothing(d: DetailRow)
    ensures MergeDetail(d, NoDetailChange) == d
  {
  }

  /** Overwriting all six fields from a full request is the merge of a patch
      that supplies all six, whatever the detail held before. */
  lemma MergeFullPatch(d: DetailRow, r: DetailRequest)
    ensures MergeDetail(d, AsPatch(r)) == DetailOf(r)
  {
  }

  /** A detail that is created lazily (all six null) and then merged satisfies
      the not-null columns exactly when the patch supplies every field. */
  lemma LazyDetailCompleteIff(p: DetailPatch)
    ensures Complete(MergeDetail(EmptyDetail, p)) <==>
      (p.description.Some? && p.language.Some? && p.pageCount.Some? &&
       p.publisher.Some? && p.coverImageUrl.Some? && p.edition.Some?)
  {
  }

  /** Last patch wins for the five columns as well. */
  lemma PatchScalarsLastWins(b: BookRow, p: BookPatch, q: BookPatch)
    ensures PatchScalars(PatchScalars(b, p), q) == PatchScalars(b, Then(p, q))
  {
  }

  /** Applying the same scalar patch twice gives what applying it once gives. */
  lemma PatchScalarsIdempotent(b: BookRow, p: BookPatch)
    ensures PatchScalars(PatchScalars(b, p), p) == PatchScalars(b, p)
  {
  }
}
