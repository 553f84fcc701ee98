# MySpringBootLab book and publisher services in Dafny

This project models the business logic of a small Spring Boot library
application: the `BookService` and `PublisherService` services and the three
JPA entities they work on (`Book`, `BookDetail`, `Publisher`).

The entities are Dafny classes whose fields the services change in place, as
the Java setters do. `Book` and `BookDetail` are linked both ways: the detail
holds the `book_id` foreign key. Each service is a class holding its repository
as a map from generated id to entity object, plus the next value of the table's
IDENTITY column. Each service also keeps a ghost abstraction of its store: the
current value (`Row`) of every stored entity.

Every service method is proved to have exactly the effect that a pure function
of the abstract store gives it (modules `BookModel` and `PublisherModel`), for
example `ensures (r, Db()) == BookModel.Update(old(Db()), id, req)`. The
properties the services promise are lemmas about those functions:

- a failed check leaves the store unchanged;
- isbns and publisher names stay pairwise distinct;
- a full update overwrites every field;
- a partial update changes exactly the supplied fields and is idempotent;
- a lazily created detail is linked both ways;
- a publisher that owns books cannot be deleted.

`Publisher.addBook` and `removeBook` are modelled on the `books` sequence and
the book's `publisher` back-reference.

Modules and files:

| file | module | contents |
|---|---|---|
| wrappers.dfy | Wrappers | `Option`, `Result` |
| errors.dfy | Errors | the `BusinessException` error codes with their arguments |
| records.dfy | Records | entity rows, request and patch DTOs, the setter groups as functions |
| lists.dfy | Lists | `ArrayList.remove(Object)` as `RemoveFirst` |
| entity.dfy | Entity | classes `Book`, `BookDetail`, `Publisher` |
| book_model.dfy | BookModel | abstract book store, operations, properties |
| book_service.dfy | BookServices | class `BookService` |
| publisher_model.dfy | PublisherModel | abstract publisher store, operations, properties |
| publisher_service.dfy | PublisherServices | class `PublisherService` |

Where the code and its documentation disagree, the model follows the code:

- `createBook` reads `request.getDetailRequest()` without a null check. A
  request without a detail therefore fails (`NullPointer`) and stores nothing,
  although the detail is described as optional.
- `Publisher.addBook`/`removeBook` set a `publisher` field on `Book`, but
  `Book.java` declares no such field. The model gives `Book` a nullable
  `publisher` reference.
- `updateBookDetail` repeats the body of the private `updateBookDetailFields`
  inline. The model spells it out with the same two steps (`DetailFor`, then
  `Merge`), and both operations are proved to have the same effect,
  `BookModel.UpdateDetail`.

Every book that `createBook` stores has a detail with all six not-null columns
set, and every operation keeps it so (`BookModel.DetailsComplete` and the
lemmas that follow it). Starting from an empty store, the branches that create a
missing detail lazily (`BookService.java` lines 112-116, 135-139 and 210-214)
therefore run only for books stored by other paths, such as the repository test
that saves a book without a detail (`BookRepositoryTest.java` lines 29-37). The
model keeps those branches and proves them on any store.

## Model

| member | source | states |
|---|---|---|
| Entity.BookDetail.constructor | src/main/java/com/rookies3/myspringbootlab/entity/BookDetail.java:10-42 | a built detail holds the given column values and no book yet |
| Entity.Book.constructor | src/main/java/com/rookies3/myspringbootlab/entity/Book.java:13-37 | a built book holds the given columns and detail; its id is unset until the store saves it, and it has no publisher |
| Entity.Publisher.constructor | src/main/java/com/rookies3/myspringbootlab/entity/Publisher.java:32-34 | a built publisher has the given name, date and address, no id, and an empty `books` list |
| Entity.Publisher.AddBook | src/main/java/com/rookies3/myspringbootlab/entity/Publisher.java:36-39 | the book is appended as the last element (the list grows by one), its publisher becomes this publisher, and a list whose books all point back here keeps that property |
| Entity.Publisher.RemoveBook | src/main/java/com/rookies3/myspringbootlab/entity/Publisher.java:41-44 | the list loses the first occurrence of the book (unchanged if absent), the book's publisher is cleared in every case, and the list stays in agreement with the back-references exactly when the book did not occur twice |
| Lists.IndexOf | src/main/java/com/rookies3/myspringbootlab/entity/Publisher.java:42 | the returned position holds the element and no earlier position does |
| Lists.RemoveFirst | src/main/java/com/rookies3/myspringbootlab/entity/Publisher.java:42 | removing an absent element changes nothing; removing a present one shortens the list by one |
| Lists.RemoveFirstCutsFirstOccurrence | src/main/java/com/rookies3/myspringbootlab/entity/Publisher.java:42 | the result is the list with the first occurrence cut out and every other element kept in order |
| Lists.RemoveFirstMultiset | src/main/java/com/rookies3/myspringbootlab/entity/Publisher.java:42 | removing takes away exactly one copy of the element and nothing else |
| Lists.RemoveFirstWithin | src/main/java/com/rookies3/myspringbootlab/entity/Publisher.java:42 | every element left after removing was in the list before |
| Lists.RemoveFirstStillContains | src/main/java/com/rookies3/myspringbootlab/entity/Publisher.java:41-44 | after removing, the book is still listed exactly when it was listed more than once |
| Records.DetailOf | src/main/java/com/rookies3/myspringbootlab/service/BookService.java:67-74 | the detail built from a full request has all six not-null columns set |
| Records.OverwriteDetail | src/main/java/com/rookies3/myspringbootlab/service/BookService.java:118-123 | the six unconditional setters leave exactly the detail built from the request, whatever the detail held before (existing or lazily created) |
| Records.MergeDetail | src/main/java/com/rookies3/myspringbootlab/service/BookService.java:216-221 | the six guarded setters never unset a column: a detail with every not-null column set keeps them set |
| Records.MergeDetailLastWins | src/main/java/com/rookies3/myspringbootlab/service/BookService.java:216-221 | merging patch p and then patch q equals merging their combination, in which a field q supplies wins over p's |
| Records.MergeDetailIdempotent | src/main/java/com/rookies3/myspringbootlab/service/BookService.java:216-221 | merging the same patch twice gives what merging it once gives |
| Records.MergeNothing | src/main/java/com/rookies3/myspringbootlab/service/BookService.java:216-221 | a patch supplying nothing leaves the detail as it was |
| Records.MergeFullPatch | src/main/java/com/rookies3/myspringbootlab/service/BookService.java:118-123 | the six unconditional setters of `updateBook` equal a merge of a patch supplying all six fields |
| Records.LazyDetailCompleteIff | src/main/java/com/rookies3/myspringbootlab/entity/BookDetail.java:20-36 | a lazily created detail satisfies the not-null columns after a merge exactly when the patch supplies all six fields |
| Records.PatchScalars | src/main/java/com/rookies3/myspringbootlab/service/BookService.java:175-189 | the five guarded column setters never touch the detail |
| Records.PatchScalarsLastWins | src/main/java/com/rookies3/myspringbootlab/service/BookService.java:175-189 | patching the columns with p and then q equals patching them with the combination in which q's supplied fields win |
| Records.PatchScalarsIdempotent | src/main/java/com/rookies3/myspringbootlab/service/BookService.java:175-189 | applying the same column patch twice gives what applying it once gives |
| BookModel.Lower | src/main/java/com/rookies3/myspringbootlab/service/BookService.java:46-57 | lower-casing keeps the length of the string |
| BookModel.ContainsIgnoreCase | src/main/java/com/rookies3/myspringbootlab/service/BookService.java:46-57 | the `ContainingIgnoreCase` condition: a match is never longer than the searched text |
| BookModel.GetByIsbn | src/main/java/com/rookies3/myspringbootlab/service/BookService.java:39-43 | succeeds exactly when some stored book has the isbn and then returns that book; otherwise fails with not-found naming "Book", "ISBN" and the isbn |
| BookModel.GetByIsbnFindsOwner | src/main/java/com/rookies3/myspringbootlab/service/BookService.java:39-43 | with unique isbns, looking up a stored book's isbn returns that very book |
| BookModel.GetById | src/main/java/com/rookies3/myspringbootlab/service/BookService.java:32-36 | succeeds exactly when the id is stored and then returns that book with its id; otherwise fails with not-found naming "Book", "id" and the id |
| BookModel.All | src/main/java/com/rookies3/myspringbootlab/service/BookService.java:25-29 | every stored book appears with its id, and every element is a stored book with its own id |
| BookModel.SearchByAuthor | src/main/java/com/rookies3/myspringbootlab/service/BookService.java:46-50 | returns only stored books whose author contains the query ignoring case, and every such book |
| BookModel.SearchByTitle | src/main/java/com/rookies3/myspringbootlab/service/BookService.java:53-57 | returns only stored books whose title contains the query ignoring case, and every such book |
| BookModel.SearchFindsOwnFields | src/main/java/com/rookies3/myspringbootlab/service/BookService.java:46-57 | a stored book is found by its own author and by its own title, and by its author in lower case |
| BookModel.EmptyQueryFindsAll | src/main/java/com/rookies3/myspringbootlab/service/BookService.java:46-57 | the empty query matches every stored book, by author and by title |
| BookModel.Create | src/main/java/com/rookies3/myspringbootlab/service/BookService.java:61-89 | a failed create leaves the store unchanged; create succeeds exactly when the isbn is free and a detail request is present |
| BookModel.CreateRejectsDuplicate | src/main/java/com/rookies3/myspringbootlab/service/BookService.java:62-64 | a taken isbn fails with the duplicate-isbn error and the store is unchanged |
| BookModel.CreateStoresOneBook | src/main/java/com/rookies3/myspringbootlab/service/BookService.java:67-88 | a successful create adds exactly one book under a fresh id, with the request's five columns and a complete detail from the request, and leaves every other book as it was |
| BookModel.CreatePreservesInv | src/main/java/com/rookies3/myspringbootlab/service/BookService.java:61-89 | create keeps ids below the counter and isbns pairwise distinct |
| BookModel.CreateThenGet | src/main/java/com/rookies3/myspringbootlab/service/BookService.java:32-43 | the created book is found again by its id and by its isbn |
| BookModel.Update | src/main/java/com/rookies3/myspringbootlab/service/BookService.java:92-127 | a failed update leaves the store unchanged |
| BookModel.Overwritten | src/main/java/com/rookies3/myspringbootlab/service/BookService.java:103-124 | the updated book has the request's five columns; its detail is the one built from the detail request when there is one, and the old detail otherwise |
| BookModel.UpdateOwnIsbnNeverConflicts | src/main/java/com/rookies3/myspringbootlab/service/BookService.java:98-101 | updating a stored book while keeping its own isbn never fails |
| BookModel.UpdateRejectsTakenIsbn | src/main/java/com/rookies3/myspringbootlab/service/BookService.java:98-101 | changing to an isbn another book has fails with the duplicate-isbn error before anything changes |
| BookModel.UpdateOverwrites | src/main/java/com/rookies3/myspringbootlab/service/BookService.java:103-124 | a successful update sets all five columns from the request; it sets all six detail fields (creating the detail if needed) when a detail request is given and keeps the detail otherwise; no other book changes |
| BookModel.UpdatePreservesInv | src/main/java/com/rookies3/myspringbootlab/service/BookService.java:98-124 | update keeps isbns pairwise distinct |
| BookModel.FullUpdateIsFullPatch | src/main/java/com/rookies3/myspringbootlab/service/BookService.java:92-196 | a full update has the same effect as a partial update whose patch supplies every field |
| BookModel.UpdateDetail | src/main/java/com/rookies3/myspringbootlab/service/BookService.java:129-161 | a failed detail update leaves the store unchanged |
| BookModel.MergeInto | src/main/java/com/rookies3/myspringbootlab/service/BookService.java:208-222 | only the detail changes; afterwards the book has one, and a complete detail stays complete |
| BookModel.UpdateDetailChangesOnlyDetail | src/main/java/com/rookies3/myspringbootlab/service/BookService.java:208-222 | the detail update always succeeds for a stored book; it creates the detail if missing, merges only the supplied fields, and changes nothing else in that book or any other |
| BookModel.UpdateDetailIdempotent | src/main/java/com/rookies3/myspringbootlab/service/BookService.java:208-222 | sending the same detail patch twice has the effect of sending it once |
| BookModel.UpdateDetailPreservesInv | src/main/java/com/rookies3/myspringbootlab/service/BookService.java:129-161 | the detail update keeps the store invariant |
| BookModel.UpdatePartial | src/main/java/com/rookies3/myspringbootlab/service/BookService.java:163-196 | a failed partial update leaves the store unchanged |
| BookModel.PatchConflicts | src/main/java/com/rookies3/myspringbootlab/service/BookService.java:169-173 | a conflict means the patch supplies an isbn that another stored book already has |
| BookModel.Patched | src/main/java/com/rookies3/myspringbootlab/service/BookService.java:175-193 | each column takes the supplied value or keeps its own; the detail is kept without a detail patch and present with one; a complete detail stays complete |
| BookModel.PatchedLastWins | src/main/java/com/rookies3/myspringbootlab/service/BookService.java:175-193 | patching with p and then q equals patching with their combination, in which q's supplied fields win |
| BookModel.UpdatePartialRejectsTakenIsbn | src/main/java/com/rookies3/myspringbootlab/service/BookService.java:169-173 | a supplied isbn that differs from the book's own and is already stored fails with the duplicate-isbn error and the store is unchanged |
| BookModel.UpdatePartialChangesOnlySupplied | src/main/java/com/rookies3/myspringbootlab/service/BookService.java:175-193 | a successful partial update sets exactly the supplied columns, merges a supplied detail patch, and leaves every other field and book unchanged |
| BookModel.UpdatePartialConflictsOnlyOnNewIsbn | src/main/java/com/rookies3/myspringbootlab/service/BookService.java:169-173 | without a new, different isbn the partial update of a stored book never fails |
| BookModel.UpdatePartialNothing | src/main/java/com/rookies3/myspringbootlab/service/BookService.java:163-196 | an empty patch changes nothing and returns the stored book |
| BookModel.UpdatePartialIdempotent | src/main/java/com/rookies3/myspringbootlab/service/BookService.java:163-196 | sending the same patch twice has the effect of sending it once |
| BookModel.UpdatePartialPreservesInv | src/main/java/com/rookies3/myspringbootlab/service/BookService.java:169-189 | the partial update keeps isbns pairwise distinct |
| BookModel.Delete | src/main/java/com/rookies3/myspringbootlab/service/BookService.java:228-232 | a failed delete leaves the store unchanged |
| BookModel.DeleteRemovesExactly | src/main/java/com/rookies3/myspringbootlab/service/BookService.java:228-232 | deleting a stored book removes exactly that book and its detail; every other book is found as before |
| BookModel.DeleteRemovesFromAll | src/main/java/com/rookies3/myspringbootlab/service/BookService.java:228-232 | deleting a stored book takes exactly that book out of the list of all books |
| BookModel.DeletePreservesInv | src/main/java/com/rookies3/myspringbootlab/service/BookService.java:228-232 | delete keeps the store invariant |
| BookModel.EmptyDetailsComplete | src/main/java/com/rookies3/myspringbootlab/entity/BookDetail.java:20-36 | an empty store meets the not-null detail columns for every book |
| BookModel.CreateKeepsDetailsComplete | src/main/java/com/rookies3/myspringbootlab/service/BookService.java:67-88 | if every stored book has a detail with all six columns set, create keeps it so |
| BookModel.UpdateKeepsDetailsComplete | src/main/java/com/rookies3/myspringbootlab/service/BookService.java:103-124 | update keeps every stored book's detail complete |
| BookModel.UpdatePartialKeepsDetailsComplete | src/main/java/com/rookies3/myspringbootlab/service/BookService.java:175-193 | the partial update keeps every stored book's detail complete |
| BookModel.UpdateDetailKeepsDetailsComplete | src/main/java/com/rookies3/myspringbootlab/service/BookService.java:129-161 | the detail update keeps every stored book's detail complete |
| BookModel.DeleteKeepsDetailsComplete | src/main/java/com/rookies3/myspringbootlab/service/BookService.java:228-232 | delete keeps every remaining book's detail complete |
| BookServices.BookService.DetailOwnedByOneBook | src/main/java/com/rookies3/myspringbootlab/entity/BookDetail.java:39-42 | no detail belongs to two stored books (the unique `book_id`) |
| BookServices.BookService.ExistsByIsbn | src/main/java/com/rookies3/myspringbootlab/service/BookService.java:62 | true exactly when a stored book has the isbn |
| BookServices.BookService.GetAllBooks | src/main/java/com/rookies3/myspringbootlab/service/BookService.java:25-29 | returns every stored book with its id, as `BookModel.All` |
| BookServices.BookService.GetBookById | src/main/java/com/rookies3/myspringbootlab/service/BookService.java:32-36 | returns the stored book, or fails with not-found naming "Book", "id" and the id |
| BookServices.BookService.GetBookByIsbn | src/main/java/com/rookies3/myspringbootlab/service/BookService.java:39-43 | has the effect of `BookModel.GetByIsbn` |
| BookServices.BookService.GetBooksByAuthor | src/main/java/com/rookies3/myspringbootlab/service/BookService.java:46-50 | returns the books whose author contains the query, ignoring case |
| BookServices.BookService.GetBooksByTitle | src/main/java/com/rookies3/myspringbootlab/service/BookService.java:53-57 | returns the books whose title contains the query, ignoring case |
| BookServices.BookService.Save | src/main/java/com/rookies3/myspringbootlab/service/BookService.java:87 | saving a new book gives it the next id and stores it with its detail; the service stays valid |
| BookServices.BookService.CreateBook | src/main/java/com/rookies3/myspringbootlab/service/BookService.java:61-89 | has the effect of `BookModel.Create`; keeps every stored detail pointing back to its book; the new objects are fresh |
| BookServices.BookService.DetailFor | src/main/java/com/rookies3/myspringbootlab/service/BookService.java:209-214 | returns the book's detail; a missing one is created empty and linked both ways |
| BookServices.BookService.Fill | src/main/java/com/rookies3/myspringbootlab/service/BookService.java:118-123 | the six setters overwrite every detail field from the request and keep the back-reference |
| BookServices.BookService.Overwrite | src/main/java/com/rookies3/myspringbootlab/service/BookService.java:103-124 | the book's new value is `BookModel.Overwritten` of its old value; id, detail link and publisher are kept |
| BookServices.BookService.UpdateBook | src/main/java/com/rookies3/myspringbootlab/service/BookService.java:92-127 | has the effect of `BookModel.Update`, keeps the service valid, and leaves every stored book's publisher as it was |
| BookServices.BookService.Merge | src/main/java/com/rookies3/myspringbootlab/service/BookService.java:216-221 | the six guarded setters produce `MergeDetail` of the old detail and keep the back-reference |
| BookServices.BookService.UpdateBookDetail | src/main/java/com/rookies3/myspringbootlab/service/BookService.java:129-161 | has the effect of `BookModel.UpdateDetail`, keeps the service valid, and leaves every stored book's publisher as it was |
| BookServices.BookService.UpdateBookDetailFields | src/main/java/com/rookies3/myspringbootlab/service/BookService.java:208-222 | the book's new value is its old value with the patch merged into its detail (created if missing and linked both ways); id and publisher are kept |
| BookServices.BookService.PatchColumns | src/main/java/com/rookies3/myspringbootlab/service/BookService.java:175-189 | the five guarded setters produce `PatchScalars` of the old value and leave id, detail and publisher alone |
| BookServices.BookService.Patch | src/main/java/com/rookies3/myspringbootlab/service/BookService.java:175-193 | the book's new value is `BookModel.Patched` of its old value; id, detail link and publisher are kept |
| BookServices.BookService.UpdateBookPartial | src/main/java/com/rookies3/myspringbootlab/service/BookService.java:163-196 | has the effect of `BookModel.UpdatePartial`, keeps the service valid, and leaves every stored book's publisher as it was |
| BookServices.BookService.UpdateBookDetailPartial | src/main/java/com/rookies3/myspringbootlab/service/BookService.java:198-206 | has the effect of `BookModel.UpdateDetail`, keeps the service valid, and leaves every stored book's publisher as it was |
| BookServices.BookService.DeleteBook | src/main/java/com/rookies3/myspringbootlab/service/BookService.java:228-232 | has the effect of `BookModel.Delete` and keeps the service valid |
| PublisherModel.GetByName | src/main/java/com/rookies3/myspringbootlab/service/PublisherService.java:34-38 | succeeds exactly when some stored publisher has the name and returns it; otherwise fails with not-found naming "Publisher", "name" and the name |
| PublisherModel.GetByNameFindsOwner | src/main/java/com/rookies3/myspringbootlab/service/PublisherService.java:34-38 | with unique names, looking up a stored publisher's name returns that very publisher |
| PublisherModel.GetById | src/main/java/com/rookies3/myspringbootlab/service/PublisherService.java:28-32 | succeeds exactly when the id is stored and returns that publisher; otherwise fails with not-found naming "Publisher", "id" and the id |
| PublisherModel.All | src/main/java/com/rookies3/myspringbootlab/service/PublisherService.java:22-26 | every stored publisher appears with its id, and every element is a stored publisher with its own id |
| PublisherModel.Create | src/main/java/com/rookies3/myspringbootlab/service/PublisherService.java:40-53 | a failed create leaves the store unchanged; create succeeds exactly when the name is free |
| PublisherModel.CreateRejectsDuplicate | src/main/java/com/rookies3/myspringbootlab/service/PublisherService.java:42-44 | a taken name fails with the duplicate-name error and the store is unchanged |
| PublisherModel.CreateStoresOnePublisher | src/main/java/com/rookies3/myspringbootlab/service/PublisherService.java:46-52 | a successful create adds exactly one publisher under a fresh id, with the request's fields and no books |
| PublisherModel.CreatePreservesInv | src/main/java/com/rookies3/myspringbootlab/service/PublisherService.java:40-53 | create keeps publisher names pairwise distinct |
| PublisherModel.CreateThenGet | src/main/java/com/rookies3/myspringbootlab/service/PublisherService.java:28-38 | the created publisher is found again by its id and by its name |
| PublisherModel.CreateAddsToAll | src/main/java/com/rookies3/myspringbootlab/service/PublisherService.java:40-53 | a successful create adds exactly the new publisher to the list of all publishers |
| PublisherModel.Update | src/main/java/com/rookies3/myspringbootlab/service/PublisherService.java:55-70 | a failed update leaves the store unchanged |
| PublisherModel.UpdateOwnNameNeverConflicts | src/main/java/com/rookies3/myspringbootlab/service/PublisherService.java:60-63 | updating a stored publisher while keeping its own name never fails |
| PublisherModel.UpdateRejectsTakenName | src/main/java/com/rookies3/myspringbootlab/service/PublisherService.java:60-63 | renaming to a name another publisher has fails with the duplicate-name error and nothing changes |
| PublisherModel.UpdateOverwrites | src/main/java/com/rookies3/myspringbootlab/service/PublisherService.java:65-67 | a successful update sets name, address and establishedDate, keeps the book list, and touches no other publisher |
| PublisherModel.UpdatePreservesInv | src/main/java/com/rookies3/myspringbootlab/service/PublisherService.java:60-67 | update keeps publisher names pairwise distinct |
| PublisherModel.Delete | src/main/java/com/rookies3/myspringbootlab/service/PublisherService.java:72-82 | a failed delete leaves the store unchanged |
| PublisherModel.DeleteRefusedWhileOwningBooks | src/main/java/com/rookies3/myspringbootlab/service/PublisherService.java:77-79 | a publisher owning books is not deleted; the error carries its id and its number of books, and it stays stored |
| PublisherModel.DeleteOnlyWhenEmpty | src/main/java/com/rookies3/myspringbootlab/service/PublisherService.java:73-81 | delete succeeds exactly for a stored publisher with no books, and then removes that publisher and no other |
| PublisherModel.DeletePreservesInv | src/main/java/com/rookies3/myspringbootlab/service/PublisherService.java:72-82 | delete keeps the store invariant |
| PublisherServices.PublisherService.ExistsByName | src/main/java/com/rookies3/myspringbootlab/service/PublisherService.java:42 | true exactly when a stored publisher has the name |
| PublisherServices.PublisherService.GetAllPublishers | src/main/java/com/rookies3/myspringbootlab/service/PublisherService.java:22-26 | returns every stored publisher with its id, as `PublisherModel.All` |
| PublisherServices.PublisherService.GetPublisherById | src/main/java/com/rookies3/myspringbootlab/service/PublisherService.java:28-32 | returns the stored publisher, or fails with not-found naming "Publisher", "id" and the id |
| PublisherServices.PublisherService.GetPublisherByName | src/main/java/com/rookies3/myspringbootlab/service/PublisherService.java:34-38 | has the effect of `PublisherModel.GetByName` |
| PublisherServices.PublisherService.Save | src/main/java/com/rookies3/myspringbootlab/service/PublisherService.java:52 | saving a new publisher gives it the next id and stores it; the service stays valid |
| PublisherServices.PublisherService.CreatePublisher | src/main/java/com/rookies3/myspringbootlab/service/PublisherService.java:40-53 | has the effect of `PublisherModel.Create`; the new publisher is fresh |
| PublisherServices.PublisherService.Overwrite | src/main/java/com/rookies3/myspringbootlab/service/PublisherService.java:65-67 | the three setters change name, address and establishedDate and keep the id and the book list |
| PublisherServices.PublisherService.UpdatePublisher | src/main/java/com/rookies3/myspringbootlab/service/PublisherService.java:55-70 | has the effect of `PublisherModel.Update` and keeps the service valid |
| PublisherServices.PublisherService.DeletePublisher | src/main/java/com/rookies3/myspringbootlab/service/PublisherService.java:72-82 | has the effect of `PublisherModel.Delete` and keeps the service valid |

## Left out

- Controllers, HTTP routing, response wrapping and `@Valid` request validation are not modelled. `getBooksByPublisherId` is called by a controller but not defined in `BookService`, so it is not modelled either.
- Repositories are maps. JPA fetch joins, lazy loading, dirty-checking flush and transaction rollback are not modelled. A failed check is modelled as "store unchanged", which is what rollback gives.
- The race between an existence check and the following insert is a concurrency issue and is not modelled.
- DTO mapping is not modelled. A response is the entity's id with its row. `BusinessException`/`ErrorCode` become the `Error` datatype; HTTP statuses and message texts are not modelled.
- `LocalDate` is an opaque `Date` value.
- BookModel.ContainsIgnoreCase: case folding covers the ASCII letters only; the database's collation is not modelled.
- Result order: `getAllBooks`, `getBooksByAuthor/Title` and `getAllPublishers` return sets, because the database's row order is not modelled.
- Not-null columns are enforced by the database at flush time, which is not modelled. The model types make the book and publisher columns non-null. A detail's columns are optional, and `Records.Complete` states the not-null condition (see `Records.LazyDetailCompleteIff`).
- The fields of a full detail request are taken as non-null, because the DTO class and its validation are not modelled. A patch field is optional.
- `BookDetail.id` is not modelled; a detail is identified by its unique `book_id`, the book it points to.
- Deleting a book is modelled as removing it from the map. The detail goes with it through the cascade. The model does not track deleted objects, which stay in `Repr`.
- A publisher's `books` list is not linked to the book store: `PublisherService` never touches books, and the book service never touches publishers.
- The unique constraint on `isbn` is not enforced by `Save`. `Save` requires an isbn that is not taken, and the services check this before saving.
- Configuration, bootstrap, logging and the live-database repository tests are not modelled.
