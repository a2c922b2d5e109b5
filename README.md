# Library loan ledger — a Dafny model

This project models the loan ledger of a library REST API and proves properties of it. The API keeps four tables: authors, books, members and loans. A member borrows a book with `createLoan`. That is one transaction: lock the book row, check the book exists, check it is available, check the member exists, insert an open loan and clear the book's `available` flag. `returnLoan` is the other transaction: lock the loan row, check it exists and is still open, set its `returnedAt`, then set its book's flag again. Any error rolls the whole transaction back.

The model has these parts:

- `Records` (records.dfy): the rows, the five error codes with the `code` and `message` strings the source gives them, and the four tables as one value.
- `Ledger` (ledger.dfy): the transactions as functions from the tables before to the tables after plus the result. It also holds the consistency invariant and the lemmas about it:
  - a book is available exactly when no open loan refers to it;
  - no book has two open loans.
- `Repo` (repo.dfy): src/data/repo.js as a class `Database` whose four map fields the methods reassign. Each method is tied to the matching `Ledger` function or states its new tables directly. Its modifies clause names the only tables it may change.
- `LoanRoutes` (loan_routes.dfy): src/routes/loans.js. It turns a request and what the repository returned or threw into a status, a Location header and a JSON body.
- `SeedStore` (seed_store.dfy): src/data/store.js. Its arrays start empty and `seed()` fills them. The lemma there shows the seeded state is a valid starting state for the ledger.

Stand-ins for external effects:

- SQL `NOW()` is a `now: Timestamp` parameter.
- `uuidv4()` is an id parameter. Its precondition `Unused` says the id is not a key of any table and no row refers to it.
- The HTTP request body fields are `Option<string>`. `None` means absent or null.

## Model

| member | source | states |
|---|---|---|
| Ledger.CreateLoan | src/data/repo.js:115-142 | The checks run in this order: unknown book gives BOOK_NOT_FOUND; unavailable book gives BOOK_UNAVAILABLE (even if the member is unknown); unknown member gives MEMBER_NOT_FOUND. Each error holds exactly when its condition holds. Success holds exactly when all three checks pass. Any error leaves all four tables unchanged. A success adds exactly one new loan: the fresh id, the given book and member, borrowedAt = now, no returnedAt. It also clears that book's flag and leaves every other loan, book, author and member unchanged. |
| Ledger.ReturnLoan | src/data/repo.js:144-167 | An unknown id gives LOAN_NOT_FOUND. A loan that already has returnedAt gives ALREADY_RETURNED. Both leave the tables unchanged. A success returns the same loan with returnedAt = now; its book, member and borrowedAt are kept. It changes no other loan. It sets available on the loan's book, or on no book if that row is gone, and changes nothing else. |
| Ledger.CreateBook | src/data/repo.js:53-58 | The new book is inserted under the fresh id with available = true. Existing books and the other tables are unchanged. |
| Ledger.CreateMember | src/data/repo.js:84-89 | The new member is inserted under the fresh id. Existing members and the other tables are unchanged. |
| Ledger.CreateLoanPreservesConsistency | src/data/repo.js:120-135 | If the invariant holds before createLoan, it holds after, whatever the outcome. The invariant is: available exactly when no open loan refers to the book, and at most one open loan per book. |
| Ledger.ReturnLoanPreservesConsistency | src/data/repo.js:149-160 | If the invariant holds before returnLoan, it holds after, whatever the outcome. |
| Ledger.CreateBookPreservesConsistency | src/data/repo.js:56 | A book inserted with available = 1 under a fresh id keeps the invariant. |
| Ledger.CreateMemberPreservesConsistency | src/data/repo.js:87 | Inserting a member keeps the invariant. |
| Ledger.CreateLoanPreservesReferences | src/data/repo.js:120-133 | A borrow only creates a loan whose book and member exist, so resolving references stay resolved. |
| Ledger.ReturnLoanPreservesReferences | src/data/repo.js:156-158 | A return changes no reference, so resolving references stay resolved. |
| Ledger.DeletingOpenLoanStrandsBook | src/data/repo.js:169-172 | Deleting an open loan leaves its book unavailable with no open loan, so the invariant fails. The administrative delete is outside the invariant. |
| Ledger.DeletingBookKeepsConsistency | src/data/repo.js:66-69 | Deleting a book row keeps the availability invariant. |
| Ledger.DeletingLoanedBookStrandsLoan | src/data/repo.js:66-69 | Deleting a book that a loan refers to leaves that loan naming no book, so references no longer resolve. |
| Ledger.SecondBorrowOfSameBookFails | src/data/repo.js:120-133 | In any state, of two borrows of the same book in a row at most one succeeds. After a success, the second gives BOOK_UNAVAILABLE and changes nothing. |
| Ledger.BorrowedBookHasOneOpenLoan | src/data/repo.js:124-133 | From a consistent state, a successful borrow leaves its book out on exactly one open loan: the one it created. |
| Ledger.SecondReturnFails | src/data/repo.js:149-160 | After a successful return, a second return of the same loan gives ALREADY_RETURNED and changes nothing, so the book's availability stays as the first return set it. A failed return fails again the same way. |
| Ledger.ApplyPreservesConsistency | src/data/repo.js:53-167 | Each operation the invariant is claimed for keeps it: borrow, return, book insert, member insert. |
| Ledger.RunPreservesConsistency | src/data/repo.js:115-167 | Any sequence of those operations that starts from a consistent state ends in one. |
| Ledger.ApplyEvolvesLoans | src/data/repo.js:131-158 | One operation keeps every loan. It either leaves a loan as it was or closes an open loan and changes none of its other fields. Any loan it adds is open. |
| Ledger.RunEvolvesLoans | src/data/repo.js:115-167 | Over any sequence of borrows, returns and inserts, every loan stays present and evolves only from open to closed. `deleteLoan` is not one of these operations. |
| Ledger.ClosedLoansAreFinal | src/data/repo.js:153-157 | CLOSED is absorbing: no later borrow, return or insert alters or reopens a returned loan. None of them changes a loan's book, member or borrowedAt. |
| Ledger.BorrowReturnScenario | src/data/repo.js:115-167 | Start with book B1 available and member M1. Borrowing opens L1 and takes B1 off the shelf. Returning L1 closes it at the return time and puts B1 back. A second return gives ALREADY_RETURNED. |
| Repo.Database.GetAuthors | src/data/repo.js:4-8 | The list and the lookup by id agree: an author is listed exactly when a lookup of its id returns it, and an id appears in the list exactly when the lookup finds a row. |
| Repo.Database.GetAuthorById | src/data/repo.js:10-14 | Returns null exactly when the id is unknown; otherwise the row with that id. |
| Repo.Database.CreateAuthor | src/data/repo.js:16-21 | Inserts and returns the author under the fresh id; a lookup of that id then finds it. Only the authors table changes. The invariant is kept. |
| Repo.Database.UpdateAuthor | src/data/repo.js:23-27 | Renames an existing author and returns it, as a lookup then finds it. An unknown id changes nothing and returns null. |
| Repo.Database.DeleteAuthor | src/data/repo.js:29-32 | Removes exactly that author row, if any; a lookup of that id then gives null. |
| Repo.Database.GetBooks | src/data/repo.js:35-43 | The inner join with authors: a book is listed exactly when a lookup of its id returns it and its author row exists. An id appears in the list exactly when the lookup finds a book whose author exists. |
| Repo.Database.GetBookById | src/data/repo.js:45-51 | Returns null exactly when the id is unknown; otherwise the row with that id. |
| Repo.Database.CreateBook | src/data/repo.js:53-58 | Implements Ledger.CreateBook: an available new book, which a lookup of its id then finds. Only the books table changes. The invariant is kept. |
| Repo.Database.UpdateBook | src/data/repo.js:60-64 | Overwrites title, authorId and available of an existing book and returns it, as a lookup then finds it. An unknown id changes nothing and returns null. |
| Repo.Database.DeleteBook | src/data/repo.js:66-69 | Removes exactly that book row, if any; a lookup of that id then gives null. Loans keep their bookId. |
| Repo.Database.GetMembers | src/data/repo.js:72-76 | The list and the lookup by id agree: a member is listed exactly when a lookup of its id returns it, and an id appears in the list exactly when the lookup finds a row. |
| Repo.Database.GetMemberById | src/data/repo.js:78-82 | Returns null exactly when the id is unknown; otherwise the row with that id. |
| Repo.Database.CreateMember | src/data/repo.js:84-89 | Implements Ledger.CreateMember; a lookup of the new id then finds the member. Only the members table changes. |
| Repo.Database.UpdateMember | src/data/repo.js:91-95 | Renames an existing member and returns it, as a lookup then finds it. An unknown id changes nothing and returns null. |
| Repo.Database.DeleteMember | src/data/repo.js:97-100 | Removes exactly that member row, if any; a lookup of that id then gives null. |
| Repo.Database.GetLoans | src/data/repo.js:103-107 | The list and the lookup by id agree: a loan is listed exactly when a lookup of its id returns it, and an id appears in the list exactly when the lookup finds a row. |
| Repo.Database.GetLoanById | src/data/repo.js:109-113 | Returns null exactly when the id is unknown; otherwise the row with that id. |
| Repo.Database.CreateLoan | src/data/repo.js:115-142 | Implements Ledger.CreateLoan. The tables after equal its `after`, and the return value equals its result. A created loan is what a lookup of its id then finds. Only books and loans may change. The invariant is kept. |
| Repo.Database.ReturnLoan | src/data/repo.js:144-167 | Implements Ledger.ReturnLoan in the same sense. A returned loan is what a lookup then finds. Only books and loans may change. The invariant is kept. |
| Repo.Database.DeleteLoan | src/data/repo.js:169-172 | Removes exactly that loan row, if any; a lookup of that id then gives null. No other table changes. |
| LoanRoutes.FromLedger | src/data/repo.js:121-154 | A thrown ledger error carries one of the five codes BOOK_NOT_FOUND, BOOK_UNAVAILABLE, MEMBER_NOT_FOUND, LOAN_NOT_FOUND, ALREADY_RETURNED, and a non-empty message. |
| LoanRoutes.FromLedgerIsInjective | src/routes/loans.js:20-33 | Two ledger errors with the same code are the same error, and likewise for the message. So the routes' dispatch on `err.code` tells the five errors apart. |
| LoanRoutes.Caught | src/routes/loans.js:16-19 | A returned row reaches the handler unchanged, and a thrown error reaches it as an error, exactly when the call threw. What it catches keeps the code and the message of the error thrown, one of the five ledger codes, so the caught error identifies the thrown one. |
| LoanRoutes.BorrowResponse | src/routes/loans.js:16-23 | A created loan gives 201, Location `/loans/<id>` and the loan. BOOK_NOT_FOUND or MEMBER_NOT_FOUND gives 404. BOOK_UNAVAILABLE gives 409. Every other code gives 500. An error body carries `err.message`. Every outcome gets exactly one of 201/404/409/500. |
| LoanRoutes.ReturnResponse | src/routes/loans.js:28-35 | A success gives 200 and the loan. LOAN_NOT_FOUND gives 404. ALREADY_RETURNED gives 400. Every other code gives 500. Every outcome gets exactly one of 200/400/404/500. |
| LoanRoutes.GetLoanResponse | src/routes/loans.js:39-43 | An unknown loan gives 404 with the body `{error: 'not found'}`, and exactly then is the status 404; otherwise 200 with no Location header and the loan. |
| LoanRoutes.BorrowStatusFollowsLedger | src/routes/loans.js:17-22 | A POST /loans that reaches createLoan never answers 500, because createLoan throws only BOOK_NOT_FOUND, BOOK_UNAVAILABLE and MEMBER_NOT_FOUND. It answers 201, 404 or 409 exactly when the transaction succeeds, finds a row missing, or finds the book out. |
| LoanRoutes.ReturnStatusFollowsLedger | src/routes/loans.js:29-34 | A return answers 200, 404 or 400 exactly when the loan is open, unknown or closed. It never answers 500, because returnLoan throws only LOAN_NOT_FOUND and ALREADY_RETURNED. |
| LoanRoutes.ListLoans | src/routes/loans.js:7-10 | GET /loans answers 200 with no Location header. A loan is in its items exactly when a lookup of its id returns it, and an id appears there exactly when the lookup finds a row. |
| LoanRoutes.PostLoan | src/routes/loans.js:13-24 | A missing or empty bookId or memberId answers 400 without calling createLoan, so every table is unchanged. Otherwise the answer maps createLoan's outcome and the tables are the transaction's result. |
| LoanRoutes.PostReturn | src/routes/loans.js:27-36 | The answer maps returnLoan's outcome, and the tables are the transaction's result. |
| LoanRoutes.DeleteLoan | src/routes/loans.js:46-51 | An unknown id answers 404 and deletes nothing. Otherwise exactly that loan is deleted and the answer is 200 with `{success: true, id}`. |
| SeedStore.SeedAuthors | src/data/store.js:15-17 | Two authors, under the first two fresh ids. |
| SeedStore.SeedBooks | src/data/store.js:19-21 | Two books, both available, each written by a seeded author. |
| SeedStore.SeedMembers | src/data/store.js:23-24 | One member. |
| SeedStore.SeedIsValidInitialState | src/data/store.js:14-25 | Seen as tables, the seeded arrays hold every row under its own id: exactly two books, two authors, one member and no loans. Every book is available. The availability invariant holds, and every book's author exists. |
| SeedStore.MemoryStore.constructor | src/data/store.js:4-7 | All four arrays start empty. |
| SeedStore.MemoryStore.Seed | src/data/store.js:14-25 | Appends the seeded authors, then books, then members. Loans are untouched. |
| SeedStore.Load | src/data/store.js:4-27 | After loading there are exactly 2 authors, 2 books, 1 member and no loans. Both books are available. The state is consistent, and its references resolve. |

## Notes on the code

- No separate error type exists for store failures. An error without one of the five ledger codes falls through to 500 (src/routes/loans.js:22, 34). `LoanRoutes.Thrown` carries an arbitrary code for this reason.
- The availability invariant is kept by `createLoan`, `returnLoan`, `createBook`, `createMember` and the seed, and also by `deleteBook` (`Ledger.DeletingBookKeepsConsistency`). `updateBook` can break it, because it sets `available` as told (src/data/repo.js:60-64). `deleteLoan` can break it, because it leaves the book's flag alone (`Ledger.DeletingOpenLoanStrandsBook`). `deleteBook` and `deleteMember` can instead leave loans naming a missing row (`Ledger.DeletingLoanedBookStrandsLoan`).
- `returnLoan` sets the flag with an UPDATE that matches no row once the book is deleted. The model then leaves the books table as it was.
- The return route also answers 500 to every unrecognised error (src/routes/loans.js:34).

## Left out

- Concurrency: row locks (`FOR UPDATE`), the connection pool, and `beginTransaction`/`commit`/`rollback`/`release`. Each transaction is one atomic step. Its checks come before its writes, so an error path restores the state it started from. Interleavings are not modelled.
- Database driver failures: connection loss, lock timeout, a failing INSERT. No method models these. The routes still map any error code that is not a ledger code to 500.
- `uuidv4()` collisions: a fresh id is a precondition (`Unused`), so the INSERT failure a duplicate key would cause is not modelled.
- `created_at`, `updated_at` and the `nowISO()` timestamps are not part of the rows. SQL `NOW()` matters only as `borrowedAt` and `returnedAt`.
- The SQL schema (sql/create_library.sql) is not part of this model. The tables are modelled without foreign keys or cascades. So `createBook` does not check its authorId, and deletes leave references as they were.
- The order of the rows a list query returns: lists are sets.
- Key comparison: ids are compared as exact strings. Every `WHERE id = ?` in src/data/repo.js compares under the column's collation, and MySQL's default collations ignore letter case. So a lookup with an upper-cased copy of a uuid finds the row in SQL but not in the model. The schema that fixes the collation is not part of this model.
- Request body fields that are JSON values other than strings (numbers, booleans) are not modelled. `Truthy` covers absent, null and the empty string.
- The ETag and caching code in src/routes/books.js and src/routes/authors.js, src/routes/members.js and src/index.js: HTTP glue outside the ledger.
- src/data/db.js (`initPool`, `runSqlFile`) and scripts/benchmark.js, scripts/migrate.js: database I/O and operational tooling.
