/**
 * The loan ledger of src/data/repo.js as transitions on the value of the four
 * tables. Each transition is one committed transaction: createLoan and
 * returnLoan read a locked row, check it, and either write both the loan and
 * the book's availability flag or roll back to the tables they started from.
 */
module Ledger {
  import opened Wrappers
  import opened Records

  /** The tables after a transaction, and the row it returned or the error it threw. */
  datatype Step<T> = Step(after: Tables, result: Result<T, ErrorCode>)

  /** The tables after an INSERT, and the row read back by id. */
  datatype Insert<T> = Insert(after: Tables, row: T)

  // ---------------------------------------------------------------------------
  // The consistency the ledger keeps between books.available and the loans table
  // ---------------------------------------------------------------------------

  ghost predicate HasOpenLoan(loans: map<Id, Loan>, bookId: Id)
  {
    exists k :: k in loans && loans[k].IsOpen() && loans[k].bookId == bookId
  }

  /** A book is available exactly when no open loan refers to it. */
  ghost predicate AvailabilityMatchesLoans(t: Tables)
  {
    forall b :: b in t.books ==> (t.books[b].available <==> !HasOpenLoan(t.loans, b))
  }

  /** No book is out on two open loans at once. */
  ghost predicate AtMostOneOpenLoan(t: Tables)
  {
    forall k1, k2 ::
      (k1 in t.loans && k2 in t.loans && t.loans[k1].IsOpen() && t.loans[k2].IsOpen()
       && t.loans[k1].bookId == t.loans[k2].bookId) ==> k1 == k2
  }

  ghost predicate Consistent(t: Tables)
  {
    AvailabilityMatchesLoans(t) && AtMostOneOpenLoan(t)
  }

  /** Every book names an existing author, every loan an existing book and member. */
  ghost predicate ReferencesResolve(t: Tables)
  {
    && (forall b :: b in t.books ==> t.books[b].authorId in t.authors)
    && (forall k :: k in t.loans ==> t.loans[k].bookId in t.books && t.loans[k].memberId in t.members)
  }

  // ---------------------------------------------------------------------------
  // The transactions
  // ---------------------------------------------------------------------------

  /**
   * createLoan(bookId, memberId): check the book exists, then that it is
   * available, then that the member exists; only then insert the loan (with
   * the fresh id and borrowedAt = now) and clear the book's flag.
   */
  function CreateLoan(t: Tables, bookId: Id, memberId: Id, id: Id, now: Timestamp): (s: Step<Loan>)
    requires Unused(t, id)
    // the checks, in the order the transaction makes them
    ensures s.result == Failure(BookNotFound) <==> bookId !in t.books
    ensures s.result == Failure(BookUnavailable) <==> bookId in t.books && !t.books[bookId].available
    ensures s.result == Failure(MemberNotFound) <==>
      bookId in t.books && t.books[bookId].available && memberId !in t.members
    ensures s.result.Success? <==>
      bookId in t.books && t.books[bookId].available && memberId in t.members
    // rollback: a failed borrow leaves every table as it was
    ensures s.result.Failure? ==> s.after == t
    // a successful borrow adds one open loan and takes only that book off the shelf
    ensures s.result.Success? ==>
      && s.result.value == Loan(id, bookId, memberId, now, None)
      && s.after.loans.Keys == t.loans.Keys + {id}
      && id !in t.loans
      && s.after.loans[id] == s.result.value
      && (forall k :: k in t.loans ==> s.after.loans[k] == t.loans[k])
      && s.after.books.Keys == t.books.Keys
      && s.after.books[bookId] == t.books[bookId].(available := false)
      && (forall b :: b in t.books && b != bookId ==> s.after.books[b] == t.books[b])
      && s.after.authors == t.authors
      && s.after.members == t.members
    ensures KeysMatch(t) ==> KeysMatch(s.after)
  {
    if bookId !in t.books then Step(t, Failure(BookNotFound))
    else if !t.books[bookId].available then Step(t, Failure(BookUnavailable))
    else if memberId !in t.members then Step(t, Failure(MemberNotFound))
    else
      var loan := Loan(id, bookId, memberId, now, None);
      var after := t.(loans := t.loans[id := loan],
                      books := t.books[bookId := t.books[bookId].(available := false)]);
      Step(after, Success(after.loans[id]))
  }

  /**
   * returnLoan(loanId): check the loan exists, then that it is still open;
   * only then set its returnedAt to now and set its book's flag. The UPDATE of
   * the book matches no row when the book has since been deleted.
   */
  function ReturnLoan(t: Tables, loanId: Id, now: Timestamp): (s: Step<Loan>)
    ensures s.result == Failure(LoanNotFound) <==> loanId !in t.loans
    ensures s.result == Failure(AlreadyReturned) <==> loanId in t.loans && !t.loans[loanId].IsOpen()
    ensures s.result.Success? <==> loanId in t.loans && t.loans[loanId].IsOpen()
    // rollback: a failed return leaves every table as it was
    ensures s.result.Failure? ==> s.after == t
    // a successful return closes only that loan and puts only its book back
    ensures s.result.Success? ==>
      var before := t.loans[loanId];
      && s.result.value == before.(returnedAt := Some(now))
      && s.after.loans.Keys == t.loans.Keys
      && s.after.loans[loanId] == s.result.value
      && (forall k :: k in t.loans && k != loanId ==> s.after.loans[k] == t.loans[k])
      && s.after.books.Keys == t.books.Keys
      && (before.bookId in t.books ==>
            s.after.books[before.bookId] == t.books[before.bookId].(available := true))
      && (forall b :: b in t.books && b != before.bookId ==> s.after.books[b] == t.books[b])
      && s.after.authors == t.authors
      && s.after.members == t.members
    ensures KeysMatch(t) ==> KeysMatch(s.after)
  {
    if loanId !in t.loans then Step(t, Failure(LoanNotFound))
    else if t.loans[loanId].returnedAt.Some? then Step(t, Failure(AlreadyReturned))
    else
      var bookId := t.loans[loanId].bookId;
      var loans := t.loans[loanId := t.loans[loanId].(returnedAt := Some(now))];
      var books := if bookId in t.books
                   then t.books[bookId := t.books[bookId].(available := true)]
                   else t.books;
      var after := t.(loans := loans, books := books);
      Step(after, Success(after.loans[loanId]))
  }

  /** createBook: a new book always goes in with available = 1. */
  function CreateBook(t: Tables, id: Id, title: string, authorId: Id): (s: Insert<Book>)
    requires Unused(t, id)
    ensures s.row == Book(id, title, authorId, true)
    ensures id !in t.books && s.after.books.Keys == t.books.Keys + {id}
    ensures s.after.books[id] == s.row
    ensures forall b :: b in t.books ==> s.after.books[b] == t.books[b]
    ensures s.after.authors == t.authors && s.after.members == t.members && s.after.loans == t.loans
    ensures KeysMatch(t) ==> KeysMatch(s.after)
  {
    var after := t.(books := t.books[id := Book(id, title, authorId, true)]);
    Insert(after, after.books[id])
  }

  /** createMember: insert a member under a fresh id. */
  function CreateMember(t: Tables, id: Id, name: string): (s: Insert<Member>)
    requires Unused(t, id)
    ensures s.row == Member(id, name)
    ensures id !in t.members && s.after.members.Keys == t.members.Keys + {id}
    ensures s.after.members[id] == s.row
    ensures forall m :: m in t.members ==> s.after.members[m] == t.members[m]
    ensures s.after.authors == t.authors && s.after.books == t.books && s.after.loans == t.loans
    ensures KeysMatch(t) ==> KeysMatch(s.after)
  {
    var after := t.(members := t.members[id := Member(id, name)]);
    Insert(after, after.members[id])
  }

  // ---------------------------------------------------------------------------
  // The invariant is preserved, whatever the outcome
  // ---------------------------------------------------------------------------

  lemma CreateLoanPreservesConsistency(t: Tables, bookId: Id, memberId: Id, id: Id, now: Timestamp)
    requires Unused(t, id) && Consistent(t)
    ensures Consistent(CreateLoan(t, bookId, memberId, id, now).after)
  {
    var s := CreateLoan(t, bookId, memberId, id, now);
    if s.result.Success? {
      var t' := s.after;
      assert !HasOpenLoan(t.loans, bookId);
      forall b | b in t'.books
        ensures t'.books[b].available <==> !HasOpenLoan(t'.loans, b)
      {
        if b == bookId {
          assert t'.loans[id].IsOpen() && t'.loans[id].bookId == bookId;
        } else {
          if HasOpenLoan(t'.loans, b) {
            var k :| k in t'.loans && t'.loans[k].IsOpen() && t'.loans[k].bookId == b;
            assert k != id && k in t.loans;
          }
          if HasOpenLoan(t.loans, b) {
            var k :| k in t.loans && t.loans[k].IsOpen() && t.loans[k].bookId == b;
            assert k in t'.loans && t'.loans[k] == t.loans[k];
          }
        }
      }
      forall k1, k2 |
        k1 in t'.loans && k2 in t'.loans && t'.loans[k1].IsOpen() && t'.loans[k2].IsOpen()
        && t'.loans[k1].bookId == t'.loans[k2].bookId
        ensures k1 == k2
      {
      }
    }
  }

  lemma ReturnLoanPreservesConsistency(t: Tables, loanId: Id, now: Timestamp)
    requires Consistent(t)
    ensures Consistent(ReturnLoan(t, loanId, now).after)
  {
    var s := ReturnLoan(t, loanId, now);
    if s.result.Success? {
      var t' := s.after;
      var bookId := t.loans[loanId].bookId;
      forall b | b in t'.books
        ensures t'.books[b].available <==> !HasOpenLoan(t'.loans, b)
      {
        if HasOpenLoan(t'.loans, b) {
          var k :| k in t'.loans && t'.loans[k].IsOpen() && t'.loans[k].bookId == b;
          assert k != loanId && k in t.loans && t.loans[k] == t'.loans[k];
        }
        if b != bookId && HasOpenLoan(t.loans, b) {
          var k :| k in t.loans && t.loans[k].IsOpen() && t.loans[k].bookId == b;
          assert k != loanId && t'.loans[k] == t.loans[k];
        }
      }
      forall k1, k2 |
        k1 in t'.loans && k2 in t'.loans && t'.loans[k1].IsOpen() && t'.loans[k2].IsOpen()
        && t'.loans[k1].bookId == t'.loans[k2].bookId
        ensures k1 == k2
      {
        assert k1 != loanId && k2 != loanId;
        assert t.loans[k1] == t'.loans[k1] && t.loans[k2] == t'.loans[k2];
      }
    }
  }

  /** A new book is available and, its id being fresh, has no loan: the invariant holds for it. */
  lemma CreateBookPreservesConsistency(t: Tables, id: Id, title: string, authorId: Id)
    requires Unused(t, id) && Consistent(t)
    ensures Consistent(CreateBook(t, id, title, authorId).after)
  {
    var t' := CreateBook(t, id, title, authorId).after;
    forall b | b in t'.books
      ensures t'.books[b].available <==> !HasOpenLoan(t'.loans, b)
    {
    }
  }

  lemma CreateMemberPreservesConsistency(t: Tables, id: Id, name: string)
    requires Unused(t, id) && Consistent(t)
    ensures Consistent(CreateMember(t, id, name).after)
  {
  }

  /** A borrow only links a book and a member that exist, and keeps every book's author. */
  lemma CreateLoanPreservesReferences(t: Tables, bookId: Id, memberId: Id, id: Id, now: Timestamp)
    requires Unused(t, id) && ReferencesResolve(t)
    ensures ReferencesResolve(CreateLoan(t, bookId, memberId, id, now).after)
  {
    var s := CreateLoan(t, bookId, memberId, id, now);
    if s.result.Success? {
      var t' := s.after;
      forall b | b in t'.books ensures t'.books[b].authorId in t'.authors {
        assert t'.books[b].authorId == t.books[b].authorId;
      }
    }
  }

  /** A return changes no reference of any row. */
  lemma ReturnLoanPreservesReferences(t: Tables, loanId: Id, now: Timestamp)
    requires ReferencesResolve(t)
    ensures ReferencesResolve(ReturnLoan(t, loanId, now).after)
  {
    var s := ReturnLoan(t, loanId, now);
    if s.result.Success? {
      var t' := s.after;
      forall b | b in t'.books ensures t'.books[b].authorId in t'.authors {
        assert t'.books[b].authorId == t.books[b].authorId;
      }
    }
  }

  /**
   * deleteLoan does not touch the books table: deleting the open loan of a
   * book that is out leaves the book unavailable with no open loan, which is
   * why the ledger's consistency is not claimed for the administrative paths.
   */
  lemma DeletingOpenLoanStrandsBook(t: Tables, loanId: Id)
    requires Consistent(t) && loanId in t.loans && t.loans[loanId].IsOpen()
    requires t.loans[loanId].bookId in t.books
    ensures var t' := t.(loans := t.loans - {loanId});
            var bookId := t.loans[loanId].bookId;
            !t'.books[bookId].available && !HasOpenLoan(t'.loans, bookId) && !Consistent(t')
  {
    var bookId := t.loans[loanId].bookId;
    var t' := t.(loans := t.loans - {loanId});
    assert HasOpenLoan(t.loans, bookId);
  }

  /**
   * deleteBook, by contrast, keeps the consistency: it only drops a book
   * from the rows the invariant ranges over. What it can break is that
   * references resolve, as a loan of the deleted book then names no book.
   */
  lemma DeletingBookKeepsConsistency(t: Tables, bookId: Id)
    requires Consistent(t)
    ensures Consistent(t.(books := t.books - {bookId}))
  {
  }

  lemma DeletingLoanedBookStrandsLoan(t: Tables, bookId: Id, loanId: Id)
    requires loanId in t.loans && t.loans[loanId].bookId == bookId
    ensures !ReferencesResolve(t.(books := t.books - {bookId}))
  {
  }

  // ---------------------------------------------------------------------------
  // Repeated calls: the sequential form of the row-lock guarantee
  // ---------------------------------------------------------------------------

  /**
   * Two borrows of the same book one after the other: once the first has
   * succeeded the second throws BOOK_UNAVAILABLE and changes nothing. This
   * holds in any state, including one the administrative paths left behind.
   */
  lemma SecondBorrowOfSameBookFails(
    t: Tables, bookId: Id, member1: Id, id1: Id, now1: Timestamp, member2: Id, id2: Id, now2: Timestamp)
    requires Unused(t, id1)
    requires Unused(CreateLoan(t, bookId, member1, id1, now1).after, id2)
    ensures
      var first := CreateLoan(t, bookId, member1, id1, now1);
      var second := CreateLoan(first.after, bookId, member2, id2, now2);
      && !(first.result.Success? && second.result.Success?)
      && (first.result.Success? ==> second.result == Failure(BookUnavailable) && second.after == first.after)
  {
  }

  /**
   * From a consistent state, a successful borrow leaves the book out on
   * exactly one open loan, the one it created.
   */
  lemma BorrowedBookHasOneOpenLoan(t: Tables, bookId: Id, memberId: Id, id: Id, now: Timestamp)
    requires Unused(t, id) && Consistent(t)
    ensures
      var s := CreateLoan(t, bookId, memberId, id, now);
      s.result.Success? ==>
        forall k :: (k in s.after.loans && s.after.loans[k].IsOpen() && s.after.loans[k].bookId == bookId) <==> k == id
  {
    var s := CreateLoan(t, bookId, memberId, id, now);
    if s.result.Success? {
      assert !HasOpenLoan(t.loans, bookId);
      forall k | k in s.after.loans && s.after.loans[k].IsOpen() && s.after.loans[k].bookId == bookId
        ensures k == id
      {
      }
    }
  }

  /**
   * Two returns of the same loan one after the other: once the first has
   * succeeded the second throws ALREADY_RETURNED and changes nothing, so the
   * book keeps the availability the first return gave it; a first return that
   * failed fails again the same way.
   */
  lemma SecondReturnFails(t: Tables, loanId: Id, now1: Timestamp, now2: Timestamp)
    ensures
      var first := ReturnLoan(t, loanId, now1);
      var second := ReturnLoan(first.after, loanId, now2);
      && (first.result.Success? ==>
            second.result == Failure(AlreadyReturned) && second.after == first.after)
      && (first.result.Failure? ==> second == first)
  {
  }

  // ---------------------------------------------------------------------------
  // The life of a loan: open, then closed once, then never changed again
  // ---------------------------------------------------------------------------

  /** A loan row stays as it was, or an open loan is closed keeping every other field. */
  ghost predicate LoanEvolves(before: Loan, after: Loan)
  {
    after == before || (before.IsOpen() && !after.IsOpen() && after == before.(returnedAt := after.returnedAt))
  }

  /** No loan disappears, and every loan evolves as above. */
  ghost predicate LoansEvolve(t: Tables, t': Tables)
  {
    forall k :: k in t.loans ==> k in t'.loans && LoanEvolves(t.loans[k], t'.loans[k])
  }

  /** The operations that the ledger's consistency is claimed for. */
  datatype Op =
    | Borrow(bookId: Id, memberId: Id, loanId: Id, now: Timestamp)
    | Return(loanId: Id, now: Timestamp)
    | AddBook(bookId: Id, title: string, authorId: Id)
    | AddMember(memberId: Id, name: string)

  /** Every id an operation inserts is a fresh uuid. */
  ghost predicate Applicable(t: Tables, op: Op)
  {
    match op
    case Borrow(_, _, id, _) => Unused(t, id)
    case Return(_, _) => true
    case AddBook(id, _, _) => Unused(t, id)
    case AddMember(id, _) => Unused(t, id)
  }

  function Apply(t: Tables, op: Op): Tables
    requires Applicable(t, op)
  {
    match op
    case Borrow(bookId, memberId, id, now) => CreateLoan(t, bookId, memberId, id, now).after
    case Return(loanId, now) => ReturnLoan(t, loanId, now).after
    case AddBook(id, title, authorId) => CreateBook(t, id, title, authorId).after
    case AddMember(id, name) => CreateMember(t, id, name).after
  }

  ghost predicate Admissible(t: Tables, ops: seq<Op>)
    decreases |ops|
  {
    ops == [] || (Applicable(t, ops[0]) && Admissible(Apply(t, ops[0]), ops[1..]))
  }

  /** The tables after the operations have committed one after another. */
  function Run(t: Tables, ops: seq<Op>): Tables
    requires Admissible(t, ops)
    decreases |ops|
  {
    if ops == [] then t else Run(Apply(t, ops[0]), ops[1..])
  }

  lemma ApplyPreservesConsistency(t: Tables, op: Op)
    requires Applicable(t, op) && Consistent(t)
    ensures Consistent(Apply(t, op))
  {
    match op
    case Borrow(bookId, memberId, id, now) => CreateLoanPreservesConsistency(t, bookId, memberId, id, now);
    case Return(loanId, now) => ReturnLoanPreservesConsistency(t, loanId, now);
    case AddBook(id, title, authorId) => CreateBookPreservesConsistency(t, id, title, authorId);
    case AddMember(id, name) => CreateMemberPreservesConsistency(t, id, name);
  }

  /** The availability invariant holds after every operation of any run that starts from it. */
  lemma {:induction false} RunPreservesConsistency(t: Tables, ops: seq<Op>)
    requires Admissible(t, ops) && Consistent(t)
    ensures Consistent(Run(t, ops))
    decreases |ops|
  {
    if ops != [] {
      ApplyPreservesConsistency(t, ops[0]);
      RunPreservesConsistency(Apply(t, ops[0]), ops[1..]);
    }
  }

  /** One operation leaves old loans as they were or closes an open one; a loan it adds is open. */
  lemma ApplyEvolvesLoans(t: Tables, op: Op)
    requires Applicable(t, op)
    ensures LoansEvolve(t, Apply(t, op))
    ensures forall k :: k in Apply(t, op).loans && k !in t.loans ==> Apply(t, op).loans[k].IsOpen()
  {
  }

  lemma LoansEvolveTransitive(t1: Tables, t2: Tables, t3: Tables)
    requires LoansEvolve(t1, t2) && LoansEvolve(t2, t3)
    ensures LoansEvolve(t1, t3)
  {
  }

  lemma {:induction false} RunEvolvesLoans(t: Tables, ops: seq<Op>)
    requires Admissible(t, ops)
    ensures LoansEvolve(t, Run(t, ops))
    decreases |ops|
  {
    if ops != [] {
      ApplyEvolvesLoans(t, ops[0]);
      RunEvolvesLoans(Apply(t, ops[0]), ops[1..]);
      LoansEvolveTransitive(t, Apply(t, ops[0]), Run(t, ops));
    }
  }

  /**
   * CLOSED is absorbing: a returned loan is never reopened or altered by any
   * later borrow, return or insert; an open loan keeps its book, member and
   * borrowedAt for ever.
   */
  lemma ClosedLoansAreFinal(t: Tables, ops: seq<Op>, k: Id)
    requires Admissible(t, ops) && k in t.loans
    ensures k in Run(t, ops).loans
    ensures !t.loans[k].IsOpen() ==> Run(t, ops).loans[k] == t.loans[k]
    ensures var l := Run(t, ops).loans[k];
            l.bookId == t.loans[k].bookId && l.memberId == t.loans[k].memberId
            && l.borrowedAt == t.loans[k].borrowedAt
  {
    RunEvolvesLoans(t, ops);
  }

  // ---------------------------------------------------------------------------
  // A worked scenario: borrow, return, return again
  // ---------------------------------------------------------------------------

  /**
   * Book B1 on the shelf and member M1: borrowing B1 opens loan L1 and takes
   * B1 off the shelf; returning L1 closes it at the return time and puts B1
   * back; returning L1 again throws ALREADY_RETURNED.
   */
  lemma BorrowReturnScenario()
    ensures
      var t0 := Tables(map["A1" := Author("A1", "Jane Austen")],
                       map["B1" := Book("B1", "Pride and Prejudice", "A1", true)],
                       map["M1" := Member("M1", "Alice")],
                       map[]);
      && Consistent(t0)
      && Unused(t0, "L1")
      && var borrow := CreateLoan(t0, "B1", "M1", "L1", 100);
         && borrow.result == Success(Loan("L1", "B1", "M1", 100, None))
         && !borrow.after.books["B1"].available
         && var ret := ReturnLoan(borrow.after, "L1", 200);
            && ret.result == Success(Loan("L1", "B1", "M1", 100, Some(200)))
            && ret.after.books["B1"].available
            && ReturnLoan(ret.after, "L1", 300).result == Failure(AlreadyReturned)
  {
    var t0 := Tables(map["A1" := Author("A1", "Jane Austen")],
                     map["B1" := Book("B1", "Pride and Prejudice", "A1", true)],
                     map["M1" := Member("M1", "Alice")],
                     map[]);
    assert !HasOpenLoan(t0.loans, "B1");
  }
}
