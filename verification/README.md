# Book-App catalog service, modelled in Dafny

Book-App is a small Spring REST service with two resources. Authors have a
generated numeric id, a name and an age. Books have a caller-chosen isbn, a
title and a to-one author relation. The services and controllers hold the
service's decision logic:

- the book upsert, where the path isbn always wins over the body's isbn;
- the existence checks that choose 201 or 202, or 404;
- the partial updates, which merge only the fields a patch carries.

This project models that logic as pure functions over finite maps:

- `domain.dfy`: the entities. Every field is nullable, so every field is an `Option`. The stored rows leave out the key.
- `repository.dfy`: the parts of the CRUD repository the services use: `findById`, `existsById`, `deleteById`, and the key enumeration behind `findAll`.
- `book_service.dfy`, `author_service.dfy`: `BookServiceImpl` and `AuthorServiceImpl`. A `RuntimeException` becomes a `Result.Failure` carrying the exception's message.
- `book_controller.dfy`, `author_controller.dfy`: each handler maps a store and a request to the new store, a status and an optional body.
- `http.dfy`: the statuses and their codes. The 500 Spring returns when a service exception escapes a handler is included.
- `api.dfy`: dispatch of one request to its handler, and runs of request sequences.
- `scenarios.dfy`: requests taken from the controller integration tests, with the answers those tests expect. Where a test first saves a book or an author through the service, the scenario starts from the store that save produces.

The book store is a map from isbn to `BookRow(title, author)`. The author store
is a map from id to `AuthorRow(name, age)`, plus the counter of the identity
generator. The database's generator is not part of this model. Its guarantee is
that an allocated id is not already in use. The model meets that guarantee by
allocating the least unused id at or above the counter, and then moving the
counter past that id. The DTO/entity mapper copies fields one to one, so a DTO
is modelled as the entity itself.

The `AuthorService` interface declares `delete` (`AuthorService.java:19`).
`AuthorServiceImpl` has no `delete`, and no author handler removes an author.
The model follows the implementation, so in the model author ids are never
removed (`Api.AuthorIdsOnlyGrow`). In the program a book delete can still remove
an author through the book's cascade relation, which this model leaves out (see
"## Left out").

## Model

| member | source | states |
|---|---|---|
| BookService.CreateUpdateBook | src/main/java/com/lotfi/database/services/impl/BookServiceImpl.java:24-28 | the saved and returned book carries the path isbn whatever isbn the body had, keeps the body's title and author, is stored under that isbn, and every other isbn keeps its book |
| BookService.FindOne | src/main/java/com/lotfi/database/services/impl/BookServiceImpl.java:43-47 | present exactly when the isbn is stored; the book found carries that isbn and the stored columns |
| BookService.IsExists | src/main/java/com/lotfi/database/services/impl/BookServiceImpl.java:49-52 | the store's existence check is true iff `findOne` finds the book |
| BookService.PartialUpdateBook | src/main/java/com/lotfi/database/services/impl/BookServiceImpl.java:54-62 | fails with "Book not found !" exactly when the isbn is absent; otherwise a present title replaces the stored one and an absent one keeps it, the stored author is kept even when the patch has one, the result carries the path isbn, and only that isbn's entry changes |
| BookService.Delete | src/main/java/com/lotfi/database/services/impl/BookServiceImpl.java:64-67 | afterwards the isbn does not exist, the other keys remain and their books are unchanged |
| BookService.FindAll | src/main/java/com/lotfi/database/services/impl/BookServiceImpl.java:30-36 | lists each stored book exactly once: one entry per stored isbn, each entry is what `findOne` returns for its isbn, and no isbn repeats |
| BookService.UpsertThenFindOne | src/main/java/com/lotfi/database/services/impl/BookServiceImpl.java:25-27 | after an upsert `findOne` returns the body's title and author under the path isbn; a second upsert of that isbn replaces them, and lookups of every other isbn are as before |
| BookService.DeleteThenFindOne | src/main/java/com/lotfi/database/services/impl/BookServiceImpl.java:65-67 | after a delete `findOne` of the isbn is empty and lookups of every other isbn are as before |
| BookService.PartialUpdateIdempotent | src/main/java/com/lotfi/database/services/impl/BookServiceImpl.java:55-62 | repeating a partial update of a stored isbn gives the same store and the same book as doing it once |
| AuthorService.FreshId | src/main/java/com/lotfi/database/services/impl/AuthorServiceImpl.java:23-25 | the id allocated for a new author is unused and at or above the generator's counter, and every id between the counter and it is in use |
| AuthorService.FindById | src/main/java/com/lotfi/database/services/impl/AuthorServiceImpl.java:36-39 | present exactly when the id is stored; the author found carries that id and the stored columns |
| AuthorService.IsExists | src/main/java/com/lotfi/database/services/impl/AuthorServiceImpl.java:41-44 | `findById(id).isPresent()` holds exactly when the id is stored |
| AuthorService.Save | src/main/java/com/lotfi/database/services/impl/AuthorServiceImpl.java:22-25 | the saved author always has an id; a missing id becomes one no stored author had, and a given id is kept; name and age are stored as given; `findById` of the id returns the saved author; every other id keeps its author |
| AuthorService.PartialUpdate | src/main/java/com/lotfi/database/services/impl/AuthorServiceImpl.java:46-54 | fails with "Author does not exist" exactly when the id is absent; otherwise the result carries the path id (the patch's id is ignored), name and age are each replaced iff the patch has them (an age of 0 included), and only that id's entry changes |
| AuthorService.FindAll | src/main/java/com/lotfi/database/services/impl/AuthorServiceImpl.java:27-34 | lists each stored author exactly once: one entry per stored id, each entry is what `findById` returns for its id, and no id repeats |
| AuthorService.SaveThenFindById | src/main/java/com/lotfi/database/services/impl/AuthorServiceImpl.java:22-39 | `findById` of a saved author's id returns the saved author; re-saving it with changed fields replaces it under the same id without adding a key |
| AuthorService.SaveTwiceAllocatesDistinctIds | src/main/java/com/lotfi/database/services/impl/AuthorServiceImpl.java:23-25 | two authors saved without ids get different ids and both can be found |
| AuthorService.PartialUpdateIdempotent | src/main/java/com/lotfi/database/services/impl/AuthorServiceImpl.java:47-54 | repeating a partial update of a stored id gives the same store and the same author as doing it once |
| BookController.CreateUpdateBook | src/main/java/com/lotfi/database/controllers/BookController.java:29-42 | PUT answers 202 if the isbn was stored before and 201 otherwise; in both cases the store gets the body's columns under the path isbn and the body returned carries the path isbn |
| BookController.FindByIsbn | src/main/java/com/lotfi/database/controllers/BookController.java:52-59 | GET answers 200 with the stored book iff the isbn is stored, else 404 with no body; it writes nothing |
| BookController.PartialUpdateBook | src/main/java/com/lotfi/database/controllers/BookController.java:61-72 | PATCH of an absent isbn answers 404 and writes nothing; on a stored isbn it answers 200 with the title-merged book, keeping the stored author; it never answers 500 |
| BookController.DeleteBook | src/main/java/com/lotfi/database/controllers/BookController.java:74-81 | DELETE of an absent isbn answers 404 and writes nothing; on a stored isbn it answers 204 and removes exactly that isbn |
| BookController.PutBranchesAgree | src/main/java/com/lotfi/database/controllers/BookController.java:33-41 | on two stores that differ only in whether the isbn is stored, PUT answers 202 and 201 respectively but writes the same store and returns the same body |
| BookController.PutIdempotent | src/main/java/com/lotfi/database/controllers/BookController.java:29-42 | repeating a PUT answers 202 and changes neither the store nor the body |
| BookController.DeleteThenGet | src/main/java/com/lotfi/database/controllers/BookController.java:74-81 | a DELETE of a stored isbn answers 204, and a GET of that isbn afterwards answers 404 |
| AuthorController.CreateAuthor | src/main/java/com/lotfi/database/controllers/AuthorController.java:26-31 | POST answers 201 with the saved author: it has an id, fresh when the body had none; name and age are as sent; it can be found under that id; it adds only that id, and every other id keeps its author |
| AuthorController.CreateThenFindAuthor | src/main/java/com/lotfi/database/controllers/AuthorController.java:26-46 | a GET of the id a POST answered with returns 200 and the same author |
| AuthorController.FindAuthor | src/main/java/com/lotfi/database/controllers/AuthorController.java:39-46 | GET answers 200 with the stored author iff the id is stored, else 404 with no body; it writes nothing |
| AuthorController.FullUpdateAuthor | src/main/java/com/lotfi/database/controllers/AuthorController.java:48-56 | PUT of an absent id answers 404 and writes nothing; on a stored id the body's id is forced to the path id, name and age are replaced as sent (absent fields are stored absent, an age of 0 is stored), and it answers 202 |
| AuthorController.PartialUpdateAuthor | src/main/java/com/lotfi/database/controllers/AuthorController.java:58-65 | PATCH of an absent id answers 404 and writes nothing; on a stored id it answers 200 with the presence-merged author; it never answers 500 |
| AuthorController.PutReplacesPatchMerges | src/main/java/com/lotfi/database/controllers/AuthorController.java:48-65 | PUT and PATCH store the same author when the body has both name and age; when the name is absent, PUT clears it and PATCH keeps it |
| Api.Handle | src/main/java/com/lotfi/database/controllers/BookController.java:29-81 | dispatches each request to its handler here or in AuthorController.java:26-65; no request reaches a service's not-found exception; a 404 writes nothing; a GET writes nothing and answers 200 or 404; a `/books` request leaves the author table alone and an `/authors` request leaves the book table alone; no author id disappears (with the cascade left out) |
| Api.RunNeverServerError | src/main/java/com/lotfi/database/controllers/BookController.java:65-68 | over any sequence of requests, no request reaches a service's not-found exception (the model's only 500), because each PATCH checks existence before it calls the service |
| Api.NotFoundRunLeavesState | src/main/java/com/lotfi/database/controllers/BookController.java:65-78 | a sequence of requests that were all answered 404 leaves both stores as they were; this covers the 404 guards here and those at AuthorController.java:42-45, 50-52 and 60-62 |
| Api.ReadOnlyRunLeavesState | src/main/java/com/lotfi/database/controllers/BookController.java:52-59 | a sequence of GET requests, to this handler or to AuthorController.java:39-46, leaves both stores as they were |
| Api.AuthorRunKeepsBooks | src/main/java/com/lotfi/database/controllers/AuthorController.java:26-65 | a sequence of `/authors` requests leaves the book table (titles and the author each row holds) as it was |
| Api.BookRunKeepsAuthors | src/main/java/com/lotfi/database/controllers/BookController.java:29-81 | a sequence of `/books` requests leaves the author table as it was, the cascade to a book's author being left out |
| Api.AuthorIdsOnlyGrow | src/main/java/com/lotfi/database/services/impl/AuthorServiceImpl.java:22-54 | over any sequence of requests the set of stored author ids only grows: the author service implementation has no delete, and the cascade from a book delete is left out |
| Scenarios.UpsertCreateThenUpdate | src/test/java/com/lotfi/database/controllers/BookControllerIntegrationTests.java:126-190 | PUT of a new isbn answers 201 with that isbn and the title "TITANIC"; with book A saved through the service, a PUT with the title "NEW TITLE" answers 202 with that title under the same isbn |
| Scenarios.DeleteAnswers204Or404 | src/test/java/com/lotfi/database/controllers/BookControllerIntegrationTests.java:228-247 | with book A saved through the service, deleting it answers 204; deleting the absent isbn "1000" answers 404 and writes nothing |
| Scenarios.CreateAuthorWithoutId | src/test/java/com/lotfi/database/controllers/AuthorControllerIntegrationTests.java:54-72 | POST of {abigail, 80} with the id cleared answers 201 with an id, the name "abigail" and the age 80 |
| Scenarios.PatchAuthorName | src/test/java/com/lotfi/database/controllers/AuthorControllerIntegrationTests.java:211-229 | with author {1, abigail, 80} saved, PATCH `/authors/1` with {1, UPDATED, 80} answers 200 with {1, UPDATED, 80} |
| Scenarios.FullUpdateStoresZeroAge | src/test/java/com/lotfi/database/controllers/AuthorControllerIntegrationTests.java:137-189 | with author {1, abigail, 80} saved, a PUT of `/authors/1` with age 0 answers 202 and returns age 0; a PUT of the unknown id 99 answers 404 and writes nothing |

## Left out

- Pagination: the paged `findAll(Pageable)` (`BookServiceImpl.java:38-41`) and `GET /books` (`BookController.java:44-50`). `Page` and `Pageable` are framework types that are not part of this model.
- `GET /authors` (`AuthorController.java:33-37`) is left out as a separate handler. It returns `AuthorService.FindAll` through the field-copying mapper, so its content is what `AuthorService.FindAll` states.
- HTTP routing, JSON (de)serialisation and the mapper classes (`AuthorMapperImpl.java` delegates to ModelMapper, which is not part of this model). A DTO is treated as a field-by-field copy of the entity.
- How the database generates ids. The model keeps only the guarantee that a new id is unused.
- Saving an author whose explicit id is not stored. The model inserts the author under that id. What Hibernate's merge does in that case is decided by the database layer, not by the service code.
- Java's 64-bit `Long` ids and 32-bit `Integer` ages are unbounded integers here. No arithmetic is done on them apart from id allocation.
- The cascade from a book to its author. A test comment (`BookEntityRepositoryIntegrationTests.java:34`) says the book-to-author relation cascades all operations. The entity class that configures this is not part of this model. Here the author is only a value inside the book row. So a book PUT does not write its author into the author table, and a book DELETE does not remove the author.
- Api.Handle: "no 500", "a `/books` request leaves the author table alone" and "no author id disappears" hold only because the cascade (save, merge and remove) of a book's author is left out. In the program a book delete removes the book's author, and it fails when another book shares that author.
- Api.RunNeverServerError: holds only because the cascade of a book's author is left out. The model's 500 stands for a service's not-found exception only. In the program a book delete removes the book's author, and it fails when another book shares that author.
- Api.BookRunKeepsAuthors: holds only because the cascade (save, merge and remove) of a book's author is left out. In the program a book PUT writes its author and a book delete removes it, and that delete fails when another book shares the author.
- Api.AuthorIdsOnlyGrow: holds only because the cascade remove of a book's author is left out. In the program a book delete removes the book's author, so an author id can disappear, and the delete fails when another book shares that author.
- Api.AuthorRunKeepsBooks: the author inside a book row is a snapshot taken when the book was written. In the program a book refers to its author row, so a book read shows later author updates. The lemma is about the book table only, not about what book reads return.
- The repository's custom queries (`ageLessThan`, `findAuthorsWithAgeGreaterThan`). The repository source is not part of this model.
- Concurrency. Each request is handled as one atomic step. The lost update between two interleaved read-merge-save partial updates is therefore not modelled.
- The service interfaces `AuthorService.java` and `BookService.java`, which disagree with their implementations (`delete` on authors, `saveBook` on books). Only the implementations are modelled.
- The fact that the Java services mutate the entity passed in (`setIsbn`, `setId`). That write to the caller's object is never read afterwards, so the model passes values.
