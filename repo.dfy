/**
 * src/data/repo.js: the data-access layer over the four tables. Each table
 * is a map field that the methods below reassign, as the INSERT, UPDATE and
 * DELETE statements change the rows; each read query is a function of the
 * fields. A method's modifies clause names the only tables it may change.
 */
module Repo {
  import opened Wrappers
  import opened Records
  import Ledger

  class Database {
    var authors: map<Id, Author>
    var books: map<Id, Book>
    var members: map<Id, Member>
    var loans: map<Id, Loan>

    /** The four tables as one value. */
    function Snapshot(): Tables
      reads this
    {
      Tables(authors, books, members, loans)
    }

    ghost predicate Valid()
      reads this
    {
      KeysMatch(Snapshot())
    }

    /** A database whose tables hold no rows yet. */
    constructor ()
      ensures Valid()
      ensures authors == map[] && books == map[] && members == map[] && loans == map[]
    {
      authors, books, members, loans := map[], map[], map[], map[];
    }

    // -------------------------------------------------------------------------
    // Authors
    // -------------------------------------------------------------------------

    /** getAuthors: every author row, so the list and the lookup by id agree. */
    function GetAuthors(): (r: set<Author>)
      reads this
      requires Valid()
      ensures forall a :: a in r <==> GetAuthorById(a.id) == Some(a)
      ensures forall id :: (exists a :: a in r && a.id == id) <==> GetAuthorById(id).Some?
    {
      authors.Values
    }

    /** getAuthorById: the row with that id, or null. */
    function GetAuthorById(id: Id): (r: Option<Author>)
      reads this
      requires Valid()
      ensures r.None? <==> id !in authors
      ensures r.Some? ==> r.value == authors[id] && r.value.id == id
    {
      if id in authors then Some(authors[id]) else None
    }

    /** createAuthor: insert under a fresh id and read the row back. */
    method CreateAuthor(id: Id, name: string) returns (a: Author)
      requires Valid() && Unused(Snapshot(), id)
      modifies this`authors
      ensures Valid()
      ensures a == Author(id, name) && id !in old(authors)
      ensures authors == old(authors)[id := a]
      ensures GetAuthorById(id) == Some(a)
      ensures old(Ledger.Consistent(Snapshot())) ==> Ledger.Consistent(Snapshot())
    {
      authors := authors[id := Author(id, name)];
      var row := GetAuthorById(id);
      a := row.value;
    }

    /** updateAuthor: rename the author if the row exists; read it back (null otherwise). */
    method UpdateAuthor(id: Id, name: string) returns (r: Option<Author>)
      requires Valid()
      modifies this`authors
      ensures Valid()
      ensures id in old(authors) ==> r == Some(Author(id, name)) && authors == old(authors)[id := Author(id, name)]
      ensures id !in old(authors) ==> r == None && authors == old(authors)
      ensures GetAuthorById(id) == r
    {
      if id in authors {
        authors := authors[id := authors[id].(name := name)];
      }
      r := GetAuthorById(id);
    }

    /** deleteAuthor: remove the row if there is one; books keep their authorId. */
    method DeleteAuthor(id: Id)
      requires Valid()
      modifies this`authors
      ensures Valid()
      ensures authors == old(authors) - {id}
      ensures GetAuthorById(id) == None
    {
      authors := authors - {id};
    }

    // -------------------------------------------------------------------------
    // Books
    // -------------------------------------------------------------------------

    /** getBooks: the inner join of books with authors, so a book whose author row is gone is not listed. */
    function GetBooks(): (r: set<Book>)
      reads this
      requires Valid()
      ensures forall b :: b in r <==> GetBookById(b.id) == Some(b) && b.authorId in authors
      ensures forall id :: (exists b :: b in r && b.id == id) <==>
                GetBookById(id).Some? && GetBookById(id).value.authorId in authors
    {
      set k | k in books && books[k].authorId in authors :: books[k]
    }

    /** getBookById: the row with that id, or null. */
    function GetBookById(id: Id): (r: Option<Book>)
      reads this
      requires Valid()
      ensures r.None? <==> id !in books
      ensures r.Some? ==> r.value == books[id] && r.value.id == id
    {
      if id in books then Some(books[id]) else None
    }

    /** createBook: insert with available = 1 under a fresh id and read the row back. */
    method CreateBook(id: Id, title: string, authorId: Id) returns (b: Book)
      requires Valid() && Unused(Snapshot(), id)
      modifies this`books
      ensures Valid()
      ensures Snapshot() == Ledger.CreateBook(old(Snapshot()), id, title, authorId).after
      ensures b == Ledger.CreateBook(old(Snapshot()), id, title, authorId).row
      ensures b.available && GetBookById(id) == Some(b)
      ensures old(Ledger.Consistent(Snapshot())) ==> Ledger.Consistent(Snapshot())
    {
      if Ledger.Consistent(Snapshot()) {
        Ledger.CreateBookPreservesConsistency(Snapshot(), id, title, authorId);
      }
      books := books[id := Book(id, title, authorId, true)];
      var row := GetBookById(id);
      b := row.value;
    }

    /**
     * updateBook: overwrite title, authorId and available if the row exists;
     * read it back (null otherwise). It sets the flag as told, so it is not
     * one of the operations the ledger's consistency is claimed for.
     */
    method UpdateBook(id: Id, title: string, authorId: Id, available: bool) returns (r: Option<Book>)
      requires Valid()
      modifies this`books
      ensures Valid()
      ensures id in old(books) ==>
        r == Some(Book(id, title, authorId, available)) && books == old(books)[id := r.value]
      ensures id !in old(books) ==> r == None && books == old(books)
      ensures GetBookById(id) == r
    {
      if id in books {
        books := books[id := Book(id, title, authorId, available)];
      }
      r := GetBookById(id);
    }

    /** deleteBook: remove the row if there is one; loans keep their bookId. */
    method DeleteBook(id: Id)
      requires Valid()
      modifies this`books
      ensures Valid()
      ensures books == old(books) - {id}
      ensures GetBookById(id) == None
    {
      books := books - {id};
    }

    // -------------------------------------------------------------------------
    // Members
    // -------------------------------------------------------------------------

    /** getMembers: every member row, so the list and the lookup by id agree. */
    function GetMembers(): (r: set<Member>)
      reads this
      requires Valid()
      ensures forall m :: m in r <==> GetMemberById(m.id) == Some(m)
      ensures forall id :: (exists m :: m in r && m.id == id) <==> GetMemberById(id).Some?
    {
      members.Values
    }

    /** getMemberById: the row with that id, or null. */
    function GetMemberById(id: Id): (r: Option<Member>)
      reads this
      requires Valid()
      ensures r.None? <==> id !in members
      ensures r.Some? ==> r.value == members[id] && r.value.id == id
    {
      if id in members then Some(members[id]) else None
    }

    /** createMember: insert under a fresh id and read the row back. */
    method CreateMember(id: Id, name: string) returns (m: Member)
      requires Valid() && Unused(Snapshot(), id)
      modifies this`members
      ensures Valid()
      ensures Snapshot() == Ledger.CreateMember(old(Snapshot()), id, name).after
      ensures m == Ledger.CreateMember(old(Snapshot()), id, name).row
      ensures GetMemberById(id) == Some(m)
      ensures old(Ledger.Consistent(Snapshot())) ==> Ledger.Consistent(Snapshot())
    {
      members := members[id := Member(id, name)];
      var row := GetMemberById(id);
      m := row.value;
    }

    /** updateMember: rename the member if the row exists; read it back (null otherwise). */
    method UpdateMember(id: Id, name: string) returns (r: Option<Member>)
      requires Valid()
      modifies this`members
      ensures Valid()
      ensures id in old(members) ==> r == Some(Member(id, name)) && members == old(members)[id := Member(id, name)]
      ensures id !in old(members) ==> r == None && members == old(members)
      ensures GetMemberById(id) == r
    {
      if id in members {
        members := members[id := members[id].(name := name)];
      }
      r := GetMemberById(id);
    }

    /** deleteMember: remove the row if there is one; loans keep their memberId. */
    method DeleteMember(id: Id)
      requires Valid()
      modifies this`members
      ensures Valid()
      ensures members == old(members) - {id}
      ensures GetMemberById(id) == None
    {
      members := members - {id};
    }

    // -------------------------------------------------------------------------
    // Loans
    // -------------------------------------------------------------------------

    /** getLoans: every loan row, so the list and the lookup by id agree. */
    function GetLoans(): (r: set<Loan>)
      reads this
      requires Valid()
      ensures forall l :: l in r <==> GetLoanById(l.id) == Some(l)
      ensures forall id :: (exists l :: l in r && l.id == id) <==> GetLoanById(id).Some?
    {
      loans.Values
    }

    /** getLoanById: the row with that id, or null. */
    function GetLoanById(id: Id): (r: Option<Loan>)
      reads this
      requires Valid()
      ensures r.None? <==> id !in loans
      ensures r.Some? ==> r.value == loans[id] && r.value.id == id
    {
      if id in loans then Some(loans[id]) else None
    }

    /**
     * createLoan as one transaction: the checks on the locked book row and the
     * member row come before any write, so an error leaves the tables as the
     * transaction found them, which is what its rollback restores.
     */
    method CreateLoan(bookId: Id, memberId: Id, id: Id, now: Timestamp) returns (r: Result<Loan, ErrorCode>)
      requires Valid() && Unused(Snapshot(), id)
      modifies this`books, this`loans
      ensures Valid()
      ensures Snapshot() == Ledger.CreateLoan(old(Snapshot()), bookId, memberId, id, now).after
      ensures r == Ledger.CreateLoan(old(Snapshot()), bookId, memberId, id, now).result
      ensures r.Success? ==> GetLoanById(id) == Some(r.value)
      ensures old(Ledger.Consistent(Snapshot())) ==> Ledger.Consistent(Snapshot())
    {
      if Ledger.Consistent(Snapshot()) {
        Ledger.CreateLoanPreservesConsistency(Snapshot(), bookId, memberId, id, now);
      }
      if bookId !in books {
        return Failure(BookNotFound);
      }
      if !books[bookId].available {
        return Failure(BookUnavailable);
      }
      if memberId !in members {
        return Failure(MemberNotFound);
      }
      loans := loans[id := Loan(id, bookId, memberId, now, None)];
      books := books[bookId := books[bookId].(available := false)];
      var row := GetLoanById(id);
      r := Success(row.value);
    }

    /**
     * returnLoan as one transaction: the checks on the locked loan row come
     * before any write; then the loan is closed and its book's flag set.
     */
    method ReturnLoan(loanId: Id, now: Timestamp) returns (r: Result<Loan, ErrorCode>)
      requires Valid()
      modifies this`books, this`loans
      ensures Valid()
      ensures Snapshot() == Ledger.ReturnLoan(old(Snapshot()), loanId, now).after
      ensures r == Ledger.ReturnLoan(old(Snapshot()), loanId, now).result
      ensures r.Success? ==> GetLoanById(loanId) == Some(r.value)
      ensures old(Ledger.Consistent(Snapshot())) ==> Ledger.Consistent(Snapshot())
    {
      if Ledger.Consistent(Snapshot()) {
        Ledger.ReturnLoanPreservesConsistency(Snapshot(), loanId, now);
      }
      if loanId !in loans {
        return Failure(LoanNotFound);
      }
      if loans[loanId].returnedAt.Some? {
        return Failure(AlreadyReturned);
      }
      var bookId := loans[loanId].bookId;
      loans := loans[loanId := loans[loanId].(returnedAt := Some(now))];
      if bookId in books {
        books := books[bookId := books[bookId].(available := true)];
      }
      var row := GetLoanById(loanId);
      r := Success(row.value);
    }

    /**
     * deleteLoan: remove the row if there is one. The book's flag is left as
     * it was, so deleting an open loan is outside the ledger's consistency.
     */
    method DeleteLoan(id: Id)
      requires Valid()
      modifies this`loans
      ensures Valid()
      ensures loans == old(loans) - {id}
      ensures GetLoanById(id) == None
    {
      loans := loans - {id};
    }
  }
}
