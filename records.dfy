/**
 * The rows of the library database (the `authors`, `books`, `members` and
 * `loans` tables that src/data/repo.js reads and writes) and the error codes
 * that its loan transactions throw.
 */
module Records {
  import opened Wrappers

  /** Row ids are the strings that uuidv4() produces. */
  type Id = string

  /** A value of SQL NOW(); only its order and identity matter here. */
  type Timestamp = nat

  datatype Author = Author(id: Id, name: string)

  /** `available` is the denormalised flag that the loan ledger keeps in step with the loans table. */
  datatype Book = Book(id: Id, title: string, authorId: Id, available: bool)

  datatype Member = Member(id: Id, name: string)

  /** A loan is open while `returnedAt` is unset; returning it sets `returnedAt` once. */
  datatype Loan = Loan(id: Id, bookId: Id, memberId: Id, borrowedAt: Timestamp, returnedAt: Option<Timestamp>)
  {
    predicate IsOpen() { returnedAt.None? }
  }

  /** The `code` values that createLoan and returnLoan attach to the errors they throw. */
  datatype ErrorCode = BookNotFound | BookUnavailable | MemberNotFound | LoanNotFound | AlreadyReturned
  {
    /** The string stored in `err.code`. */
    function Code(): string
    {
      match this
      case BookNotFound => "BOOK_NOT_FOUND"
      case BookUnavailable => "BOOK_UNAVAILABLE"
      case MemberNotFound => "MEMBER_NOT_FOUND"
      case LoanNotFound => "LOAN_NOT_FOUND"
      case AlreadyReturned => "ALREADY_RETURNED"
    }

    /** The string stored in `err.message`. */
    function Message(): string
    {
      match this
      case BookNotFound => "book not found"
      case BookUnavailable => "book not available"
      case MemberNotFound => "member not found"
      case LoanNotFound => "loan not found"
      case AlreadyReturned => "already returned"
    }
  }

  /** Every `code` the loan transactions throw. */
  const LedgerCodes: set<string> :=
    {"BOOK_NOT_FOUND", "BOOK_UNAVAILABLE", "MEMBER_NOT_FOUND", "LOAN_NOT_FOUND", "ALREADY_RETURNED"}

  /** The four tables, each a map from the primary key to its row. */
  datatype Tables = Tables(
    authors: map<Id, Author>,
    books: map<Id, Book>,
    members: map<Id, Member>,
    loans: map<Id, Loan>)

  /** Every row is stored under its own primary key. */
  ghost predicate KeysMatch(t: Tables)
  {
    && (forall k :: k in t.authors ==> t.authors[k].id == k)
    && (forall k :: k in t.books ==> t.books[k].id == k)
    && (forall k :: k in t.members ==> t.members[k].id == k)
    && (forall k :: k in t.loans ==> t.loans[k].id == k)
  }

  /**
   * What the model assumes of uuidv4(): the id it returns is neither a key of
   * any table nor referred to by any row.
   */
  ghost predicate Unused(t: Tables, id: Id)
  {
    && id !in t.authors && id !in t.books && id !in t.members && id !in t.loans
    && (forall k :: k in t.books ==> t.books[k].authorId != id)
    && (forall k :: k in t.loans ==> t.loans[k].bookId != id && t.loans[k].memberId != id)
  }
}
