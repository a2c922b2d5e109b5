/**
 * src/data/store.js: an in-memory variant of the store. Its four tables are
 * arrays that start empty; seed() pushes two authors, one book by each, and
 * one member, and no loan.
 */
module SeedStore {
  import opened Records
  import Ledger

  /** The five values uuidv4() returns during seed(), in the order it draws them. */
  datatype SeedIds = SeedIds(author1: Id, author2: Id, book1: Id, book2: Id, member1: Id)

  /** uuidv4() never repeats itself. */
  predicate Distinct(ids: SeedIds)
  {
    && ids.author1 != ids.author2 && ids.author1 != ids.book1 && ids.author1 != ids.book2 && ids.author1 != ids.member1
    && ids.author2 != ids.book1 && ids.author2 != ids.book2 && ids.author2 != ids.member1
    && ids.book1 != ids.book2 && ids.book1 != ids.member1
    && ids.book2 != ids.member1
  }

  function SeedAuthors(ids: SeedIds): (r: seq<Author>)
    ensures |r| == 2 && r[0].id == ids.author1 && r[1].id == ids.author2
  {
    [Author(ids.author1, "Jane Austen"), Author(ids.author2, "George Orwell")]
  }

  /** Both seeded books are on the shelf and each is written by a seeded author. */
  function SeedBooks(ids: SeedIds): (r: seq<Book>)
    ensures |r| == 2 && r[0].id == ids.book1 && r[1].id == ids.book2
    ensures forall i :: 0 <= i < |r| ==> r[i].available
    ensures forall i :: 0 <= i < |r| ==> exists a :: a in SeedAuthors(ids) && r[i].authorId == a.id
  {
    var authors := SeedAuthors(ids);
    [Book(ids.book1, "Pride and Prejudice", authors[0].id, true),
     Book(ids.book2, "1984", authors[1].id, true)]
  }

  function SeedMembers(ids: SeedIds): (r: seq<Member>)
    ensures |r| == 1 && r[0].id == ids.member1
  {
    [Member(ids.member1, "Alice")]
  }

  function AuthorKey(a: Author): Id { a.id }
  function BookKey(b: Book): Id { b.id }
  function MemberKey(m: Member): Id { m.id }
  function LoanKey(l: Loan): Id { l.id }

  /**
   * The rows of an array keyed by id, as a lookup by id finds them: the key
   * of every row is present, and the row found under a key is the first one
   * that has it.
   */
  function ById<R>(rows: seq<R>, key: R -> Id): (m: map<Id, R>)
    ensures forall i :: 0 <= i < |rows| ==> key(rows[i]) in m
    ensures forall k :: k in m ==> exists i :: 0 <= i < |rows| && key(rows[i]) == k && m[k] == rows[i]
    ensures forall i :: 0 <= i < |rows| && (forall j :: 0 <= j < i ==> key(rows[j]) != key(rows[i]))
              ==> m[key(rows[i])] == rows[i]
  {
    if rows == [] then map[]
    else
      var rest := ById(rows[1..], key);
      assert forall i :: 1 <= i < |rows| ==> rows[i] == rows[1..][i - 1];
      rest[key(rows[0]) := rows[0]]
  }

  /** The arrays as the four tables of the ledger. */
  function TablesOf(authors: seq<Author>, books: seq<Book>, members: seq<Member>, loans: seq<Loan>): Tables
  {
    Tables(ById(authors, AuthorKey), ById(books, BookKey), ById(members, MemberKey), ById(loans, LoanKey))
  }

  /**
   * The seeded store is a valid initial state for the ledger: every row sits
   * under its own id, both books are available and no loan is open, and
   * every book's author exists.
   */
  lemma SeedIsValidInitialState(ids: SeedIds)
    requires Distinct(ids)
    ensures var t := TablesOf(SeedAuthors(ids), SeedBooks(ids), SeedMembers(ids), []);
            && KeysMatch(t)
            && t.books.Keys == {ids.book1, ids.book2}
            && t.authors.Keys == {ids.author1, ids.author2}
            && t.members.Keys == {ids.member1}
            && t.loans == map[]
            && (forall b :: b in t.books ==> t.books[b].available)
            && Ledger.Consistent(t)
            && Ledger.ReferencesResolve(t)
  {
    var t := TablesOf(SeedAuthors(ids), SeedBooks(ids), SeedMembers(ids), []);
    assert t.books.Keys == {ids.book1, ids.book2};
    assert t.authors.Keys == {ids.author1, ids.author2};
  }

  class MemoryStore {
    var books: seq<Book>
    var authors: seq<Author>
    var members: seq<Member>
    var loans: seq<Loan>

    function Snapshot(): Tables
      reads this
    {
      TablesOf(authors, books, members, loans)
    }

    /** The module-level arrays, before seed() runs. */
    constructor ()
      ensures books == [] && authors == [] && members == [] && loans == []
    {
      books, authors, members, loans := [], [], [], [];
    }

    /** seed(): push two authors, then two books, then one member; loans are not touched. */
    method Seed(ids: SeedIds)
      modifies this
      ensures authors == old(authors) + SeedAuthors(ids)
      ensures books == old(books) + SeedBooks(ids)
      ensures members == old(members) + SeedMembers(ids)
      ensures loans == old(loans)
    {
      var a1 := Author(ids.author1, "Jane Austen");
      var a2 := Author(ids.author2, "George Orwell");
      authors := authors + [a1, a2];
      var b1 := Book(ids.book1, "Pride and Prejudice", a1.id, true);
      var b2 := Book(ids.book2, "1984", a2.id, true);
      books := books + [b1, b2];
      var m1 := Member(ids.member1, "Alice");
      members := members + [m1];
    }
  }

  /** Loading store.js: the arrays are created empty and seed() runs once. */
  method Load(ids: SeedIds) returns (s: MemoryStore)
    requires Distinct(ids)
    ensures fresh(s)
    ensures |s.authors| == 2 && |s.books| == 2 && |s.members| == 1 && s.loans == []
    ensures forall i :: 0 <= i < |s.books| ==> s.books[i].available
    ensures KeysMatch(s.Snapshot()) && Ledger.Consistent(s.Snapshot()) && Ledger.ReferencesResolve(s.Snapshot())
  {
    s := new MemoryStore();
    s.Seed(ids);
    assert s.authors == SeedAuthors(ids) && s.books == SeedBooks(ids) && s.members == SeedMembers(ids);
    assert s.Snapshot() == TablesOf(SeedAuthors(ids), SeedBooks(ids), SeedMembers(ids), []);
    SeedIsValidInitialState(ids);
  }
}
