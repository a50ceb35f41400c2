/**
 * The read-only queries: all books, books by author, one book by id, and
 * the books a user owns, as projections of the stored records.
 */
module Queries {
  import opened Entities
  import opened Lists
  import opened Store

  /** Views of the listed ids that name a stored book, in list order. */
  function ViewsOf(books: map<BookId, Book>, ids: seq<BookId>): seq<BookView> {
    if ids == [] then []
    else
      var id := ids[|ids| - 1];
      ViewsOf(books, ids[..|ids| - 1]) + (if id in books then [ViewOf(id, books[id])] else [])
  }

  /** getAllBooks: one view per stored book, in findAll order. */
  function AllBooks(db: Db): seq<BookView> {
    ViewsOf(db.books, FindAll(db))
  }

  /** What findBooksByAuthor adds for one book: one view per entry of its author list equal to the id. */
  function AuthorMatches(id: BookId, book: Book, authorId: AuthorId): seq<BookView> {
    Repeat(ViewOf(id, book), multiset(book.authors)[authorId])
  }

  function ByAuthor(books: map<BookId, Book>, ids: seq<BookId>, authorId: AuthorId): seq<BookView> {
    if ids == [] then []
    else
      var id := ids[|ids| - 1];
      ByAuthor(books, ids[..|ids| - 1], authorId) + (if id in books then AuthorMatches(id, books[id], authorId) else [])
  }

  /** findBooksByAuthor: the scan over findAll. */
  function BooksByAuthor(db: Db, authorId: AuthorId): seq<BookView> {
    ByAuthor(db.books, FindAll(db), authorId)
  }

  /** Reference definition: the listed ids of stored books whose author list names the author. */
  function WithAuthor(books: map<BookId, Book>, ids: seq<BookId>, authorId: AuthorId): (r: seq<BookId>)
    ensures forall id :: id in r <==> id in ids && id in books && authorId in books[id].authors
  {
    if ids == [] then []
    else
      var id := ids[|ids| - 1];
      WithAuthor(books, ids[..|ids| - 1], authorId) + (if id in books && authorId in books[id].authors then [id] else [])
  }

  /** findBookById. */
  function BookById(db: Db, bookId: BookId): Result<BookView> {
    if bookId in db.books then Success(ViewOf(bookId, db.books[bookId])) else Failure(BookDoesntExist)
  }

  /** getBooksOwnedByUser: the views of the user's list, in list order. */
  function BooksOwnedByUser(db: Db, userId: UserId): Result<seq<BookView>> {
    if userId !in db.users then Failure(UserDoesntExist) else Success(ViewsOf(db.books, db.users[userId].books))
  }

  /** Reference definition: the entries of `ids` that name a stored book, in list order. */
  function StoredOnly(books: map<BookId, Book>, ids: seq<BookId>): (r: seq<BookId>)
    ensures forall id :: id in r <==> id in ids && id in books
  {
    if ids == [] then []
    else
      var id := ids[|ids| - 1];
      StoredOnly(books, ids[..|ids| - 1]) + (if id in books then [id] else [])
  }

  // ---------------------------------------------------------------------

  predicate Increasing(ids: seq<nat>) {
    forall i, j :: 0 <= i < j < |ids| ==> ids[i] < ids[j]
  }

  /** One more id on the scan of getAllBooks / getBooksOwnedByUser. */
  lemma ViewsOfSnoc(books: map<BookId, Book>, ids: seq<BookId>, i: nat)
    requires i < |ids|
    ensures ViewsOf(books, ids[..i + 1]) ==
      ViewsOf(books, ids[..i]) + (if ids[i] in books then [ViewOf(ids[i], books[ids[i]])] else [])
  {
    assert ids[..i + 1][..i] == ids[..i];
  }

  /** One more id on the scan of findBooksByAuthor. */
  lemma ByAuthorSnoc(books: map<BookId, Book>, ids: seq<BookId>, i: nat, authorId: AuthorId)
    requires i < |ids|
    ensures ByAuthor(books, ids[..i + 1], authorId) ==
      ByAuthor(books, ids[..i], authorId) + (if ids[i] in books then AuthorMatches(ids[i], books[ids[i]], authorId) else [])
  {
    assert ids[..i + 1][..i] == ids[..i];
  }

  /** When every listed id is stored, there is exactly one view per id, in order. */
  lemma {:induction false} ViewsOfStored(books: map<BookId, Book>, ids: seq<BookId>)
    requires forall id :: id in ids ==> id in books
    ensures |ViewsOf(books, ids)| == |ids|
    ensures forall i :: 0 <= i < |ids| ==> ViewsOf(books, ids)[i] == ViewOf(ids[i], books[ids[i]])
  {
    if ids != [] {
      var init := ids[..|ids| - 1];
      assert forall id :: id in init ==> id in ids;
      ViewsOfStored(books, init);
    }
  }

  /** findAll names every stored book once, in increasing id order. */
  lemma FindAllSpec(db: Db)
    requires IdsBelowCounter(db.books, db.nextBookId)
    ensures var ids := FindAll(db);
      && Distinct(ids)
      && |ids| == |db.books|
      && (forall id :: id in ids <==> id in db.books)
  {
    var ids := FindAll(db);
    assert Distinct(ids);
    DistinctCard<BookId>(ids);
    var keys := set x: BookId | x in ids;
    assert keys == db.books.Keys;
    assert |keys| == |ids|;
    assert |db.books.Keys| == |db.books|;
  }

  /**
   * getAllBooks returns exactly one view per stored book: as many entries as
   * there are books, each the view of a stored book, no book twice, every
   * book present.
   */
  lemma AllBooksSpec(db: Db)
    requires IdsBelowCounter(db.books, db.nextBookId)
    ensures var r := AllBooks(db);
      && |r| == |db.books|
      && (forall i :: 0 <= i < |r| ==> r[i].id in db.books && r[i] == ViewOf(r[i].id, db.books[r[i].id]))
      && (forall i, j :: 0 <= i < j < |r| ==> r[i].id != r[j].id)
      && (forall id :: id in db.books ==> exists i :: 0 <= i < |r| && r[i].id == id)
  {
    var ids := FindAll(db);
    FindAllSpec(db);
    ViewsOfIncreasing(db.books, ids);
  }

  /** The views of increasing stored ids: one per id, each the view of its book, no id twice. */
  lemma ViewsOfIncreasing(books: map<BookId, Book>, ids: seq<BookId>)
    requires (forall id :: id in ids ==> id in books) && Increasing(ids)
    ensures var r := ViewsOf(books, ids);
      && |r| == |ids|
      && (forall i :: 0 <= i < |r| ==> r[i].id in ids && r[i].id in books && r[i] == ViewOf(r[i].id, books[r[i].id]))
      && (forall i, j :: 0 <= i < j < |r| ==> r[i].id != r[j].id)
      && (forall id :: id in ids ==> exists i :: 0 <= i < |r| && r[i].id == id)
  {
    ViewsOfStored(books, ids);
    var r := ViewsOf(books, ids);
    assert forall i :: 0 <= i < |r| ==> r[i].id == ids[i];
    forall id | id in ids ensures exists i :: 0 <= i < |r| && r[i].id == id {
      var i :| 0 <= i < |ids| && ids[i] == id;
      assert r[i].id == id;
    }
    forall i, j | 0 <= i < j < |r| ensures r[i].id != r[j].id {
      assert r[i].id == ids[i] && r[j].id == ids[j];
    }
  }

  /**
   * With no author listed twice by a book, the scan over the author lists
   * gives exactly the views of the books that list the author, in id order,
   * each once.
   */
  lemma {:induction false} ByAuthorFilters(books: map<BookId, Book>, ids: seq<BookId>, authorId: AuthorId)
    requires forall id :: id in books ==> Distinct(books[id].authors)
    ensures ByAuthor(books, ids, authorId) == ViewsOf(books, WithAuthor(books, ids, authorId))
  {
    if ids != [] {
      var init := ids[..|ids| - 1];
      var id := ids[|ids| - 1];
      ByAuthorFilters(books, init, authorId);
      var w := WithAuthor(books, init, authorId);
      if id in books && authorId in books[id].authors {
        AuthorMatchesDistinct(id, books[id], authorId);
        assert WithAuthor(books, ids, authorId) == w + [id];
        assert (w + [id])[..|w|] == w;
      } else {
        if id in books {
          AuthorMatchesDistinct(id, books[id], authorId);
        }
        assert WithAuthor(books, ids, authorId) == w;
      }
    }
  }

  /** With a duplicate-free author list, a book matches an author at most once. */
  lemma AuthorMatchesDistinct(id: BookId, book: Book, authorId: AuthorId)
    requires Distinct(book.authors)
    ensures AuthorMatches(id, book, authorId) == if authorId in book.authors then [ViewOf(id, book)] else []
  {
    DistinctCount(book.authors, authorId);
  }

  /**
   * findBooksByAuthor returns one view per stored book whose author list
   * names the author, and no other.
   */
  lemma BooksByAuthorSpec(db: Db, authorId: AuthorId)
    requires IdsBelowCounter(db.books, db.nextBookId)
    requires forall id :: id in db.books ==> Distinct(db.books[id].authors)
    ensures var r := BooksByAuthor(db, authorId);
      && (forall i :: 0 <= i < |r| ==>
            r[i].id in db.books && authorId in db.books[r[i].id].authors
            && r[i] == ViewOf(r[i].id, db.books[r[i].id]))
      && (forall i, j :: 0 <= i < j < |r| ==> r[i].id != r[j].id)
      && (forall id :: id in db.books && authorId in db.books[id].authors ==>
            exists i :: 0 <= i < |r| && r[i].id == id)
  {
    var ids := FindAll(db);
    ByAuthorFilters(db.books, ids, authorId);
    WithAuthorOrdered(db.books, ids, authorId);
    var w := WithAuthor(db.books, ids, authorId);
    ViewsOfIncreasing(db.books, w);
    assert forall id :: id in db.books ==> id in ids;
  }

  lemma {:induction false} WithAuthorOrdered(books: map<BookId, Book>, ids: seq<BookId>, authorId: AuthorId)
    requires Increasing(ids)
    ensures Increasing(WithAuthor(books, ids, authorId))
  {
    if ids != [] {
      var init := ids[..|ids| - 1];
      WithAuthorOrdered(books, init, authorId);
      var w := WithAuthor(books, init, authorId);
      var last := ids[|ids| - 1];
      forall k | 0 <= k < |w| ensures w[k] < last {
        assert w[k] in w;
        assert w[k] in init;
        var i :| 0 <= i < |init| && init[i] == w[k];
        assert ids[i] == w[k];
      }
      var r := WithAuthor(books, ids, authorId);
      if r != w {
        assert r == w + [last];
        forall i, j | 0 <= i < j < |r| ensures r[i] < r[j] {
          assert r[i] == w[i];
          if j < |w| { assert r[j] == w[j]; }
        }
      }
    }
  }

  /**
   * findBookById fails with BookDoesntExist exactly for an unknown id and
   * otherwise returns that book's view.
   */
  lemma BookByIdSpec(db: Db, bookId: BookId)
    ensures BookById(db, bookId).Failure? <==> bookId !in db.books
    ensures BookById(db, bookId).Failure? ==> BookById(db, bookId).error == BookDoesntExist
    ensures BookById(db, bookId).Success? ==> BookById(db, bookId).value.id == bookId
  {
  }

  /** The views of a list are the views of its stored entries. */
  lemma {:induction false} ViewsOfStoredOnly(books: map<BookId, Book>, ids: seq<BookId>)
    ensures ViewsOf(books, ids) == ViewsOf(books, StoredOnly(books, ids))
  {
    if ids != [] {
      var init := ids[..|ids| - 1];
      var id := ids[|ids| - 1];
      ViewsOfStoredOnly(books, init);
      var kept := StoredOnly(books, init);
      if id in books {
        assert StoredOnly(books, ids) == kept + [id];
        assert (kept + [id])[..|kept|] == kept;
        assert ViewsOf(books, kept + [id]) == ViewsOf(books, kept) + [ViewOf(id, books[id])];
      } else {
        assert StoredOnly(books, ids) == kept;
      }
    }
  }

  /**
   * getBooksOwnedByUser fails with UserDoesntExist exactly for an unknown
   * user. Otherwise it returns one view per entry of the user's list that
   * names a stored book, in list order (so the empty sequence for an empty
   * list), and one view per entry when every entry is stored.
   */
  lemma BooksOwnedByUserSpec(db: Db, userId: UserId)
    ensures BooksOwnedByUser(db, userId).Failure? <==> userId !in db.users
    ensures BooksOwnedByUser(db, userId).Failure? ==> BooksOwnedByUser(db, userId).error == UserDoesntExist
    ensures userId in db.users && db.users[userId].books == [] ==> BooksOwnedByUser(db, userId) == Success([])
    ensures userId in db.users ==>
      var r := BooksOwnedByUser(db, userId).value;
      var kept := StoredOnly(db.books, db.users[userId].books);
      |r| == |kept| && forall i :: 0 <= i < |kept| ==> r[i] == ViewOf(kept[i], db.books[kept[i]])
    ensures userId in db.users && (forall id :: id in db.users[userId].books ==> id in db.books) ==>
      var r := BooksOwnedByUser(db, userId).value;
      var owned := db.users[userId].books;
      |r| == |owned| && forall i :: 0 <= i < |owned| ==> r[i] == ViewOf(owned[i], db.books[owned[i]])
  {
    if userId in db.users {
      var owned := db.users[userId].books;
      ViewsOfStoredOnly(db.books, owned);
      ViewsOfStored(db.books, StoredOnly(db.books, owned));
      if forall id :: id in owned ==> id in db.books {
        ViewsOfStored(db.books, owned);
      }
    }
  }
}
