/**
 * src/routes/loans.js: the HTTP handlers for /loans. Each handler validates
 * its input, calls the repository, and turns the row it got back, or the
 * error that was thrown, into a status code and a JSON body.
 */
module LoanRoutes {
  import opened Wrappers
  import opened Records
  import Ledger
  import Repo

  /**
   * An error as the handler catches it: `err.code` and `err.message`. The
   * ledger's own errors carry one of its five codes; an error of the database
   * driver carries some other code.
   */
  datatype Thrown = Thrown(code: string, message: string)

  /** A ledger error as thrown: its code is one of the five, and its message is not empty. */
  function FromLedger(e: ErrorCode): (x: Thrown)
    ensures x.code in LedgerCodes && x.message != ""
  {
    Thrown(e.Code(), e.Message())
  }

  /** The code of a thrown ledger error tells which error it was, and so does its message. */
  lemma FromLedgerIsInjective(e1: ErrorCode, e2: ErrorCode)
    ensures FromLedger(e1).code == FromLedger(e2).code ==> e1 == e2
    ensures FromLedger(e1).message == FromLedger(e2).message ==> e1 == e2
  {
  }

  /**
   * What a repository call delivers to the handler: the row it returned, or
   * the error it threw, which then carries one of the five ledger codes.
   */
  function Caught(r: Result<Loan, ErrorCode>): (c: Result<Loan, Thrown>)
    ensures r.Success? ==> c == Success(r.value)
    ensures c.Failure? <==> r.Failure?
    ensures c.Failure? ==>
      c.error.code in LedgerCodes && c.error.code == r.error.Code() && c.error.message == r.error.Message()
  {
    match r
    case Success(loan) => Success(loan)
    case Failure(e) => Failure(FromLedger(e))
  }

  datatype Body =
    | LoanJson(loan: Loan)
    | ErrorJson(error: string)
    | ItemsJson(items: set<Loan>)
    | DeletedJson(success: bool, id: Id)

  /** Status code, Location header (if set) and JSON body of a response. */
  datatype Response = Response(status: nat, location: Option<string>, body: Body)

  /** A field of the request body: absent or null, or a string. */
  type Field = Option<string>

  /** JavaScript truthiness of a field: present and not the empty string. */
  predicate Truthy(f: Field)
  {
    f.Some? && f.value != ""
  }

  const MissingFields := Response(400, None, ErrorJson("bookId and memberId required"))
  const NotFound := Response(404, None, ErrorJson("not found"))

  const BorrowCodes404: set<string> := {"BOOK_NOT_FOUND", "MEMBER_NOT_FOUND"}

  /** POST /loans once createLoan has returned or thrown. */
  function BorrowResponse(outcome: Result<Loan, Thrown>): (r: Response)
    ensures outcome.Success? ==>
      r.status == 201 && r.location == Some("/loans/" + outcome.value.id) && r.body == LoanJson(outcome.value)
    ensures outcome.Failure? ==> r.location == None && r.body == ErrorJson(outcome.error.message)
    ensures outcome.Failure? ==> (r.status == 404 <==> outcome.error.code in BorrowCodes404)
    ensures outcome.Failure? ==> (r.status == 409 <==> outcome.error.code == "BOOK_UNAVAILABLE")
    ensures outcome.Failure? ==>
      (r.status == 500 <==> outcome.error.code !in BorrowCodes404 && outcome.error.code != "BOOK_UNAVAILABLE")
    ensures r.status in {201, 404, 409, 500}
  {
    match outcome
    case Success(loan) => Response(201, Some("/loans/" + loan.id), LoanJson(loan))
    case Failure(err) =>
      if err.code == "BOOK_NOT_FOUND" || err.code == "MEMBER_NOT_FOUND" then Response(404, None, ErrorJson(err.message))
      else if err.code == "BOOK_UNAVAILABLE" then Response(409, None, ErrorJson(err.message))
      else Response(500, None, ErrorJson(err.message))
  }

  /** POST /loans/:id/return once returnLoan has returned or thrown. */
  function ReturnResponse(outcome: Result<Loan, Thrown>): (r: Response)
    ensures outcome.Success? ==> r.status == 200 && r.body == LoanJson(outcome.value)
    ensures r.location == None
    ensures outcome.Failure? ==> r.body == ErrorJson(outcome.error.message)
    ensures outcome.Failure? ==> (r.status == 404 <==> outcome.error.code == "LOAN_NOT_FOUND")
    ensures outcome.Failure? ==> (r.status == 400 <==> outcome.error.code == "ALREADY_RETURNED")
    ensures outcome.Failure? ==>
      (r.status == 500 <==> outcome.error.code != "LOAN_NOT_FOUND" && outcome.error.code != "ALREADY_RETURNED")
    ensures r.status in {200, 400, 404, 500}
  {
    match outcome
    case Success(loan) => Response(200, None, LoanJson(loan))
    case Failure(err) =>
      if err.code == "LOAN_NOT_FOUND" then Response(404, None, ErrorJson(err.message))
      else if err.code == "ALREADY_RETURNED" then Response(400, None, ErrorJson(err.message))
      else Response(500, None, ErrorJson(err.message))
  }

  /** GET /loans/:id and the existence check of DELETE /loans/:id. */
  function GetLoanResponse(found: Option<Loan>): (r: Response)
    ensures found.None? <==> r.status == 404
    ensures found.None? ==> r == NotFound
    ensures found.Some? ==> r.status == 200 && r.location == None && r.body == LoanJson(found.value)
  {
    match found
    case None => NotFound
    case Some(loan) => Response(200, None, LoanJson(loan))
  }

  /**
   * Through these handlers a borrow never answers 500: every error createLoan
   * throws has a code that maps to 404 or 409, and each status tells which
   * check of the transaction decided it.
   */
  lemma BorrowStatusFollowsLedger(t: Tables, bookId: Id, memberId: Id, id: Id, now: Timestamp)
    requires Unused(t, id)
    ensures
      var r := BorrowResponse(Caught(Ledger.CreateLoan(t, bookId, memberId, id, now).result));
      && (r.status == 201 <==> bookId in t.books && t.books[bookId].available && memberId in t.members)
      && (r.status == 404 <==> bookId !in t.books || (t.books[bookId].available && memberId !in t.members))
      && (r.status == 409 <==> bookId in t.books && !t.books[bookId].available)
      && r.status != 500
  {
  }

  /** Likewise a return answers 404 for an unknown loan, 400 for a closed one, 200 otherwise, never 500. */
  lemma ReturnStatusFollowsLedger(t: Tables, loanId: Id, now: Timestamp)
    ensures
      var r := ReturnResponse(Caught(Ledger.ReturnLoan(t, loanId, now).result));
      && (r.status == 200 <==> loanId in t.loans && t.loans[loanId].IsOpen())
      && (r.status == 404 <==> loanId !in t.loans)
      && (r.status == 400 <==> loanId in t.loans && !t.loans[loanId].IsOpen())
      && r.status != 500
  {
  }

  /** GET /loans: 200 with every loan row, each as a lookup of its id finds it. */
  function ListLoans(db: Repo.Database): (r: Response)
    reads db
    requires db.Valid()
    ensures r.status == 200 && r.location == None && r.body.ItemsJson?
    ensures forall l :: l in r.body.items <==> db.GetLoanById(l.id) == Some(l)
    ensures forall id :: (exists l :: l in r.body.items && l.id == id) <==> db.GetLoanById(id).Some?
  {
    Response(200, None, ItemsJson(db.GetLoans()))
  }

  /**
   * POST /loans: a body without a truthy bookId and memberId is answered 400
   * before createLoan is called, so nothing changes; otherwise the answer is
   * the mapping of what createLoan returned or threw.
   */
  method PostLoan(db: Repo.Database, bookId: Field, memberId: Field, id: Id, now: Timestamp) returns (r: Response)
    requires db.Valid() && Unused(db.Snapshot(), id)
    modifies db`books, db`loans
    ensures db.Valid()
    ensures !(Truthy(bookId) && Truthy(memberId)) ==> r == MissingFields && db.Snapshot() == old(db.Snapshot())
    ensures Truthy(bookId) && Truthy(memberId) ==>
      var s := Ledger.CreateLoan(old(db.Snapshot()), bookId.value, memberId.value, id, now);
      db.Snapshot() == s.after && r == BorrowResponse(Caught(s.result))
  {
    if !Truthy(bookId) || !Truthy(memberId) {
      return MissingFields;
    }
    var outcome := db.CreateLoan(bookId.value, memberId.value, id, now);
    r := BorrowResponse(Caught(outcome));
  }

  /** POST /loans/:id/return: the mapping of what returnLoan returned or threw. */
  method PostReturn(db: Repo.Database, loanId: Id, now: Timestamp) returns (r: Response)
    requires db.Valid()
    modifies db`books, db`loans
    ensures db.Valid()
    ensures var s := Ledger.ReturnLoan(old(db.Snapshot()), loanId, now);
            db.Snapshot() == s.after && r == ReturnResponse(Caught(s.result))
  {
    var outcome := db.ReturnLoan(loanId, now);
    r := ReturnResponse(Caught(outcome));
  }

  /** DELETE /loans/:id: 404 and no change for an unknown id, else the row is deleted and 200. */
  method DeleteLoan(db: Repo.Database, id: Id) returns (r: Response)
    requires db.Valid()
    modifies db`loans
    ensures db.Valid()
    ensures id !in old(db.loans) ==> r == NotFound && db.loans == old(db.loans)
    ensures id in old(db.loans) ==>
      r == Response(200, None, DeletedJson(true, id)) && db.loans == old(db.loans) - {id}
  {
    var found := db.GetLoanById(id);
    if found.None? {
      return GetLoanResponse(found);
    }
    db.DeleteLoan(id);
    r := Response(200, None, DeletedJson(true, id));
  }
}
