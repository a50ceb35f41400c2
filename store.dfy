/**
 * The persistent store as the engine sees it: three tables keyed by
 * store-assigned ids, the counters fresh ids are drawn from, the
 * repository lookups the engine calls, and the invariant every
 * operation keeps.
 */
module Store {
  import opened Entities
  import opened Lists

  datatype Db = Db(
    books: map<BookId, Book>,
    authors: map<AuthorId, Author>,
    users: map<UserId, User>,
    nextBookId: nat,
    nextAuthorId: nat)

  // ---------------------------------------------------------------------
  // Repository lookups (derived queries of the store interfaces)

  /** existsByTitle / findByTitle: the lowest stored id below `n` with this title. */
  function TitleBelow(books: map<BookId, Book>, title: string, n: nat): (r: Option<BookId>)
    ensures r.Some? ==> r.value < n && r.value in books && books[r.value].title == title
    ensures r.None? ==> forall id :: id in books && id < n ==> books[id].title != title
  {
    if n == 0 then None
    else match TitleBelow(books, title, n - 1)
      case Some(id) => Some(id)
      case None => if n - 1 in books && books[n - 1].title == title then Some(n - 1) else None
  }

  function FindByTitle(db: Db, title: string): Option<BookId> {
    TitleBelow(db.books, title, db.nextBookId)
  }

  /** existsBySurname / findBySurname: the lowest stored id below `n` with this surname. */
  function SurnameBelow(authors: map<AuthorId, Author>, surname: string, n: nat): (r: Option<AuthorId>)
    ensures r.Some? ==> r.value < n && r.value in authors && authors[r.value].surname == surname
    ensures r.None? ==> forall id :: id in authors && id < n ==> authors[id].surname != surname
  {
    if n == 0 then None
    else match SurnameBelow(authors, surname, n - 1)
      case Some(id) => Some(id)
      case None => if n - 1 in authors && authors[n - 1].surname == surname then Some(n - 1) else None
  }

  /** The stored ids below `n`, in increasing order. */
  function IdsBelow<V>(m: map<nat, V>, n: nat): (r: seq<nat>)
    ensures forall id :: id in r <==> id in m && id < n
    ensures forall i, j :: 0 <= i < j < |r| ==> r[i] < r[j]
  {
    if n == 0 then []
    else
      var init := IdsBelow(m, n - 1);
      assert forall i :: 0 <= i < |init| ==> init[i] < n - 1 by {
        forall i | 0 <= i < |init| ensures init[i] < n - 1 {
          assert init[i] in init;
        }
      }
      init + (if n - 1 in m then [n - 1] else [])
  }

  /** findAll on the books table, in id order. */
  function FindAll(db: Db): seq<BookId> {
    IdsBelow(db.books, db.nextBookId)
  }

  // ---------------------------------------------------------------------
  // The store invariant

  ghost predicate IdsBelowCounter<V>(m: map<nat, V>, next: nat) {
    forall id :: id in m ==> id < next
  }

  /** No two books share a title. */
  ghost predicate TitlesUnique(books: map<BookId, Book>) {
    forall x, y :: x in books && y in books && books[x].title == books[y].title ==> x == y
  }

  /** No two authors share a surname. */
  ghost predicate SurnamesUnique(authors: map<AuthorId, Author>) {
    forall x, y :: x in authors && y in authors && authors[x].surname == authors[y].surname ==> x == y
  }

  /**
   * The book side of the book-author link is backed by the author side:
   * each author a book lists is stored, listed once, and lists the book.
   * (The converse need not hold.)
   */
  ghost predicate AuthorsBacked(books: map<BookId, Book>, authors: map<AuthorId, Author>) {
    forall id :: id in books ==>
      && Distinct(books[id].authors)
      && forall a :: a in books[id].authors ==> a in authors && id in authors[a].books
  }

  /** The same for the book-user link. */
  ghost predicate UsersBacked(books: map<BookId, Book>, users: map<UserId, User>) {
    forall id :: id in books ==>
      && Distinct(books[id].users)
      && forall u :: u in books[id].users ==> u in users && id in users[u].books
  }

  /** No stored author has an empty book list. */
  ghost predicate NoOrphanAuthors(authors: map<AuthorId, Author>) {
    forall a :: a in authors ==> authors[a].books != []
  }

  ghost predicate Valid(db: Db) {
    && IdsBelowCounter(db.books, db.nextBookId)
    && IdsBelowCounter(db.authors, db.nextAuthorId)
    && TitlesUnique(db.books)
    && SurnamesUnique(db.authors)
    && AuthorsBacked(db.books, db.authors)
    && UsersBacked(db.books, db.users)
    && NoOrphanAuthors(db.authors)
  }

  /** The title lookup below `n` does not see entries written at or above `n`. */
  lemma {:induction false} TitleBelowUpdate(books: map<BookId, Book>, title: string, n: nat, k: BookId, b: Book)
    requires n <= k
    ensures TitleBelow(books[k := b], title, n) == TitleBelow(books, title, n)
  {
    if n > 0 {
      TitleBelowUpdate(books, title, n - 1, k, b);
    }
  }

  /** With unique titles and ids below the counter, the title lookup finds the one book with that title. */
  lemma FindByTitleExact(db: Db, title: string)
    requires IdsBelowCounter(db.books, db.nextBookId) && TitlesUnique(db.books)
    ensures FindByTitle(db, title).None? <==> forall id :: id in db.books ==> db.books[id].title != title
    ensures forall id :: id in db.books && db.books[id].title == title ==> FindByTitle(db, title) == Some(id)
  {
  }

  lemma SurnameBelowExact(authors: map<AuthorId, Author>, surname: string, n: nat)
    requires IdsBelowCounter(authors, n) && SurnamesUnique(authors)
    ensures SurnameBelow(authors, surname, n).None? <==> forall id :: id in authors ==> authors[id].surname != surname
    ensures forall id :: id in authors && authors[id].surname == surname ==> SurnameBelow(authors, surname, n) == Some(id)
  {
  }
}
