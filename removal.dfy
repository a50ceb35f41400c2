/**
 * removeBook and removeBookFromUser: detaching a book from the records that
 * list it, deleting authors left without books, and deleting the book.
 */
module Removal {
  import opened Entities
  import opened Lists
  import opened Store
  import opened Saving
  import opened NameParser
  import opened AuthorLinking

  /** The users loop of removeBook: every listed user loses one copy of the book's id. */
  function DetachUsers(users: map<UserId, User>, book: BookId, us: seq<UserId>): map<UserId, User>
    decreases |us|
  {
    if us == [] then users
    else
      var u := us[0];
      var next := if u in users then users[u := User(RemoveFirst(users[u].books, book))] else users;
      DetachUsers(next, book, us[1..])
  }

  /**
   * The authors loop of removeBook: every listed author loses one copy of
   * the book's id, and is then deleted if its list is empty and saved
   * otherwise.
   */
  function DetachAuthors(authors: map<AuthorId, Author>, book: BookId, listed: seq<AuthorId>): map<AuthorId, Author>
    decreases |listed|
  {
    if listed == [] then authors
    else
      var a := listed[0];
      var next :=
        if a !in authors then authors
        else
          var rest := RemoveFirst(authors[a].books, book);
          if rest == [] then authors - {a} else authors[a := authors[a].(books := rest)];
      DetachAuthors(next, book, listed[1..])
  }

  function RemoveBook(db: Db, bookId: BookId): Effect {
    if bookId !in db.books then Effect(db, Failed(BookDoesntExist))
    else
      var book := db.books[bookId];
      var users := DetachUsers(db.users, bookId, book.users);
      var authors := DetachAuthors(db.authors, bookId, book.authors);
      Effect(db.(users := users, authors := authors, books := db.books - {bookId}), Done)
  }

  function RemoveBookFromUser(db: Db, bookId: BookId, userId: UserId): Effect {
    if bookId !in db.books then Effect(db, Failed(BookDoesntExist))
    else if userId !in db.users then Effect(db, Failed(UserDoesntExist))
    else
      var user := db.users[userId];
      var users :=
        if bookId in user.books then db.users[userId := User(RemoveFirst(user.books, bookId))]
        else db.users;
      var book := db.books[bookId];
      Effect(db.(users := users, books := db.books[bookId := book.(users := RemoveFirst(book.users, userId))]), Done)
  }

  // ---------------------------------------------------------------------
  // The two loops

  /**
   * With no user listed twice, the users loop takes one copy of the book's
   * id out of each listed user's list and touches no other user.
   */
  lemma {:induction false} DetachUsersSpec(users: map<UserId, User>, book: BookId, us: seq<UserId>)
    requires Distinct(us)
    ensures var r := DetachUsers(users, book, us);
      && r.Keys == users.Keys
      && forall u :: u in users ==>
           r[u] == if u in us then User(RemoveFirst(users[u].books, book)) else users[u]
    decreases |us|
  {
    if us != [] {
      DistinctTail(us);
      var u := us[0];
      var next := if u in users then users[u := User(RemoveFirst(users[u].books, book))] else users;
      DetachUsersSpec(next, book, us[1..]);
    }
  }

  /**
   * With no author listed twice, the authors loop deletes exactly the listed
   * authors whose list loses its last entry, shortens the other listed
   * authors' lists by one copy of the book's id, and leaves every author
   * that is not listed as it was, even one whose list names the book.
   */
  lemma {:induction false} DetachAuthorsSpec(authors: map<AuthorId, Author>, book: BookId, listed: seq<AuthorId>)
    requires Distinct(listed)
    ensures var r := DetachAuthors(authors, book, listed);
      && (forall a :: a in r <==> a in authors && (a in listed ==> RemoveFirst(authors[a].books, book) != []))
      && (forall a :: a in r ==>
            r[a] == if a in listed then authors[a].(books := RemoveFirst(authors[a].books, book)) else authors[a])
    decreases |listed|
  {
    if listed != [] {
      DistinctTail(listed);
      var a := listed[0];
      var next :=
        if a !in authors then authors
        else
          var rest := RemoveFirst(authors[a].books, book);
          if rest == [] then authors - {a} else authors[a := authors[a].(books := rest)];
      DetachAuthorsSpec(next, book, listed[1..]);
    }
  }

  // ---------------------------------------------------------------------
  // removeBook

  /**
   * removeBook: an unknown id fails with BookDoesntExist and changes
   * nothing. Otherwise every user the book lists loses one copy of its id;
   * every author it lists loses one copy and is deleted exactly when its
   * list becomes empty, and kept with the shortened list otherwise; the
   * book record is deleted; no other record changes.
   */
  lemma RemoveBookEffect(db: Db, bookId: BookId)
    requires Valid(db)
    ensures var e := RemoveBook(db, bookId);
      && (bookId !in db.books ==> e == Effect(db, Failed(BookDoesntExist)))
      && (bookId in db.books ==>
            var book := db.books[bookId];
            && e.status == Done
            && e.db.books == db.books - {bookId}
            && e.db.nextBookId == db.nextBookId && e.db.nextAuthorId == db.nextAuthorId
            && e.db.users.Keys == db.users.Keys
            && (forall u :: u in db.users ==>
                  e.db.users[u] == if u in book.users then User(RemoveFirst(db.users[u].books, bookId)) else db.users[u])
            && (forall a :: a in e.db.authors <==>
                  a in db.authors && (a in book.authors ==> RemoveFirst(db.authors[a].books, bookId) != []))
            && (forall a :: a in e.db.authors ==>
                  e.db.authors[a] == if a in book.authors
                                     then db.authors[a].(books := RemoveFirst(db.authors[a].books, bookId))
                                     else db.authors[a]))
  {
    if bookId in db.books {
      var book := db.books[bookId];
      DetachUsersSpec(db.users, bookId, book.users);
      DetachAuthorsSpec(db.authors, bookId, book.authors);
    }
  }

  /** Orphan cleanup: an author whose only book is removed is no longer stored. */
  lemma RemoveBookDropsOrphan(db: Db, bookId: BookId, a: AuthorId)
    requires Valid(db) && bookId in db.books && a in db.books[bookId].authors
    requires db.authors[a].books == [bookId]
    ensures a !in RemoveBook(db, bookId).db.authors
  {
    RemoveBookEffect(db, bookId);
  }

  /** removeBook keeps the store invariant. */
  lemma RemoveBookPreservesValid(db: Db, bookId: BookId)
    requires Valid(db)
    ensures Valid(RemoveBook(db, bookId).db)
  {
    if bookId in db.books {
      RemoveBookTables(db, bookId);
      RemoveBookAuthorsBacked(db, bookId);
      RemoveBookUsersBacked(db, bookId);
    }
  }

  lemma RemoveBookTables(db: Db, bookId: BookId)
    requires Valid(db) && bookId in db.books
    ensures var w := RemoveBook(db, bookId).db;
      && IdsBelowCounter(w.books, w.nextBookId) && IdsBelowCounter(w.authors, w.nextAuthorId)
      && TitlesUnique(w.books) && SurnamesUnique(w.authors) && NoOrphanAuthors(w.authors)
  {
    var book := db.books[bookId];
    DetachAuthorsSpec(db.authors, bookId, book.authors);
  }

  lemma RemoveBookAuthorsBacked(db: Db, bookId: BookId)
    requires Valid(db) && bookId in db.books
    ensures AuthorsBacked(RemoveBook(db, bookId).db.books, RemoveBook(db, bookId).db.authors)
  {
    var e := RemoveBook(db, bookId);
    var book := db.books[bookId];
    DetachAuthorsSpec(db.authors, bookId, book.authors);
    forall id, a | id in e.db.books && a in e.db.books[id].authors
      ensures a in e.db.authors && id in e.db.authors[a].books
    {
      assert id != bookId && id in db.authors[a].books;
      if a in book.authors {
        RemoveFirstKeepsOthers(db.authors[a].books, bookId, id);
      }
    }
  }

  lemma RemoveBookUsersBacked(db: Db, bookId: BookId)
    requires Valid(db) && bookId in db.books
    ensures UsersBacked(RemoveBook(db, bookId).db.books, RemoveBook(db, bookId).db.users)
  {
    var e := RemoveBook(db, bookId);
    var book := db.books[bookId];
    DetachUsersSpec(db.users, bookId, book.users);
    forall id, u | id in e.db.books && u in e.db.books[id].users
      ensures u in e.db.users && id in e.db.users[u].books
    {
      assert id != bookId && id in db.users[u].books;
      if u in book.users {
        RemoveFirstKeepsOthers(db.users[u].books, bookId, id);
      }
    }
  }

  /** No book lists a user. */
  ghost predicate NoBookUsers(db: Db) {
    forall id :: id in db.books ==> db.books[id].users == []
  }

  /**
   * Under the assumed addBookToUser, which writes only the user's side, no
   * operation ever puts a user on a book's list: from an empty catalogue,
   * every book's user list stays empty.
   */
  lemma NoBookUsersKept(db: Db, info: VolumeInfo, bookId: BookId, userId: UserId)
    requires NoBookUsers(db)
    ensures NoBookUsers(SaveBook(db, info, userId).db)
    ensures NoBookUsers(RemoveBook(db, bookId).db)
    ensures NoBookUsers(RemoveBookFromUser(db, bookId, userId).db)
  {
  }

  /** So removeBook leaves every user's list as it was, the removed id included. */
  lemma RemoveBookKeepsOwnerLists(db: Db, bookId: BookId)
    requires NoBookUsers(db)
    ensures RemoveBook(db, bookId).db.users == db.users
  {
  }

  // ---------------------------------------------------------------------
  // An author linked by surname alone outlives its books

  /** The author record created for one author string. */
  function AuthorFor(authorName: string, books: seq<BookId>): Author {
    Author(ParsedName(authorName).name, ParsedName(authorName).surname, books)
  }

  /** From an empty catalogue, saving a title by one author creates author 0, listed by book 0. */
  lemma SurnameLinkFirstSave(t1: string, n1: string, d: Details, u: UserId)
    ensures SaveBook(Db(map[], map[], map[u := User([])], 0, 0), VolumeInfo(t1, d, [n1]), u).db
         == Db(map[0 := Book(t1, d, [0], [])], map[0 := AuthorFor(n1, [0])], map[u := User([0])], 1, 1)
  {
    var db0 := Db(map[], map[], map[u := User([])], 0, 0);
    var info := VolumeInfo(t1, d, [n1]);
    var acc := Linked(map[], 0, []);
    var linked := Linked(map[0 := AuthorFor(n1, [0])], 1, [0]);
    assert SurnameBelow(acc.authors, ParsedName(n1).surname, 0) == None;
    assert LinkOne(acc, 0, n1) == linked;
    assert LinkAuthors(acc, 0, [n1]) == LinkAuthors(linked, 0, []);
    assert LinkedFor(db0, info) == linked;
    var w := NewTitleWrites(db0, info);
    assert w == Db(map[0 := Book(t1, d, [0], [])], linked.authors, map[u := User([])], 1, 1);
    assert SaveBook(db0, info, u) == AddBookToUser(w, u, 0);
  }

  /**
   * Saving a second title by an author string with the same surname finds
   * author 0 by surname: the author gains book 1, but book 1 lists no author.
   */
  lemma SurnameLinkSecondSave(t1: string, t2: string, n1: string, n2: string, d: Details, u: UserId)
    requires t1 != t2 && ParsedName(n2).surname == ParsedName(n1).surname
    ensures SaveBook(Db(map[0 := Book(t1, d, [0], [])], map[0 := AuthorFor(n1, [0])], map[u := User([0])], 1, 1),
                     VolumeInfo(t2, d, [n2]), u).db
         == Db(map[0 := Book(t1, d, [0], []), 1 := Book(t2, d, [], [])], map[0 := AuthorFor(n1, [0, 1])],
               map[u := User([0, 1])], 2, 1)
  {
    var db1 := Db(map[0 := Book(t1, d, [0], [])], map[0 := AuthorFor(n1, [0])], map[u := User([0])], 1, 1);
    var info := VolumeInfo(t2, d, [n2]);
    assert FindByTitle(db1, t2) == None;
    assert SurnameBelow(db1.authors, ParsedName(n2).surname, 1) == Some(0);
    var acc := Linked(db1.authors, 1, []);
    var linked := Linked(map[0 := AuthorFor(n1, [0, 1])], 1, []);
    assert [0] + [1] == [0, 1];
    assert LinkOne(acc, 1, n2) == linked;
    assert LinkAuthors(acc, 1, [n2]) == LinkAuthors(linked, 1, []);
    assert LinkedFor(db1, info) == linked;
    var w := NewTitleWrites(db1, info);
    assert w == Db(map[0 := Book(t1, d, [0], []), 1 := Book(t2, d, [], [])], linked.authors, map[u := User([0])], 2, 1);
    assert SaveBook(db1, info, u) == AddBookToUser(w, u, 1);
  }

  /** Removing book 0 takes it off author 0's list, which keeps book 1. */
  lemma SurnameLinkFirstRemoval(t1: string, t2: string, n1: string, d: Details, u: UserId)
    ensures RemoveBook(Db(map[0 := Book(t1, d, [0], []), 1 := Book(t2, d, [], [])], map[0 := AuthorFor(n1, [0, 1])],
                          map[u := User([0, 1])], 2, 1), 0).db
         == Db(map[1 := Book(t2, d, [], [])], map[0 := AuthorFor(n1, [1])], map[u := User([0, 1])], 2, 1)
  {
    assert RemoveFirst([0, 1], 0) == [1];
    assert map[0 := Book(t1, d, [0], []), 1 := Book(t2, d, [], [])] - {0} == map[1 := Book(t2, d, [], [])];
  }

  /**
   * Two titles saved in turn for one user, by two author strings with the
   * same parsed surname ("Frank Herbert", then "Brian Herbert"), give one
   * author who lists both books, while only the first book lists that
   * author. Once both books are removed the store holds no book, yet it
   * still holds that author, whose list names the removed book 1. The
   * invariant holds, and the user keeps both removed ids.
   */
  lemma SurnameLinkedAuthorOutlivesBooks(t1: string, t2: string, n1: string, n2: string, d: Details, u: UserId)
    requires t1 != t2 && ParsedName(n2).surname == ParsedName(n1).surname
    ensures
      var db0 := Db(map[], map[], map[u := User([])], 0, 0);
      var db1 := SaveBook(db0, VolumeInfo(t1, d, [n1]), u).db;
      var db2 := SaveBook(db1, VolumeInfo(t2, d, [n2]), u).db;
      var db4 := RemoveBook(RemoveBook(db2, 0).db, 1).db;
      && Valid(db4) && db4.books == map[]
      && 0 in db4.authors && db4.authors[0].books == [1]
      && db4.users[u].books == [0, 1]
  {
    SurnameLinkFirstSave(t1, n1, d, u);
    SurnameLinkSecondSave(t1, t2, n1, n2, d, u);
    SurnameLinkFirstRemoval(t1, t2, n1, d, u);
    var db3 := Db(map[1 := Book(t2, d, [], [])], map[0 := AuthorFor(n1, [1])], map[u := User([0, 1])], 2, 1);
    assert db3.books - {1} == map[];
  }

  // ---------------------------------------------------------------------
  // removeBookFromUser

  /**
   * removeBookFromUser checks the book before the user: an unknown book
   * fails with BookDoesntExist whatever the user, a known book with an
   * unknown user fails with UserDoesntExist, and either failure changes
   * nothing.
   */
  lemma RemoveBookFromUserErrors(db: Db, bookId: BookId, userId: UserId)
    ensures var e := RemoveBookFromUser(db, bookId, userId);
      && (e.status == Failed(BookDoesntExist) <==> bookId !in db.books)
      && (e.status == Failed(UserDoesntExist) <==> bookId in db.books && userId !in db.users)
      && (e.status.Failed? ==> e.db == db)
  {
  }

  /**
   * On success the user's list loses one copy of the book's id (if it had
   * one), the book's list no longer names the user, and nothing else
   * changes: in particular no book or author record is deleted.
   */
  lemma RemoveBookFromUserEffect(db: Db, bookId: BookId, userId: UserId)
    requires bookId in db.books && userId in db.users && Distinct(db.books[bookId].users)
    ensures var e := RemoveBookFromUser(db, bookId, userId);
      && e.status == Done
      && e.db.authors == db.authors
      && e.db.books.Keys == db.books.Keys
      && e.db.users.Keys == db.users.Keys
      && e.db.nextBookId == db.nextBookId && e.db.nextAuthorId == db.nextAuthorId
      && e.db.users[userId].books == RemoveFirst(db.users[userId].books, bookId)
      && userId !in e.db.books[bookId].users
      && e.db.books[bookId] == db.books[bookId].(users := RemoveFirst(db.books[bookId].users, userId))
      && (forall id :: id in db.books && id != bookId ==> e.db.books[id] == db.books[id])
      && (forall u :: u in db.users && u != userId ==> e.db.users[u] == db.users[u])
  {
    var e := RemoveBookFromUser(db, bookId, userId);
    var book := db.books[bookId];
    RemoveFirstDistinct(book.users, userId);
    assert e == Effect(db.(users := db.users[userId := User(RemoveFirst(db.users[userId].books, bookId))],
                           books := db.books[bookId := book.(users := RemoveFirst(book.users, userId))]), Done);
  }

  /** removeBookFromUser keeps the store invariant. */
  lemma RemoveBookFromUserPreservesValid(db: Db, bookId: BookId, userId: UserId)
    requires Valid(db)
    ensures Valid(RemoveBookFromUser(db, bookId, userId).db)
  {
    if bookId in db.books && userId in db.users {
      RemoveBookFromUserTables(db, bookId, userId);
      var e := RemoveBookFromUser(db, bookId, userId).db;
      DetachOneUserBacked(db.books, db.users, bookId, userId, e.books, e.users);
    }
  }

  /** Only user lists change, so everything but the book-user link is kept. */
  lemma RemoveBookFromUserTables(db: Db, bookId: BookId, userId: UserId)
    requires Valid(db) && bookId in db.books && userId in db.users
    ensures var w := RemoveBookFromUser(db, bookId, userId).db;
      && IdsBelowCounter(w.books, w.nextBookId) && IdsBelowCounter(w.authors, w.nextAuthorId)
      && TitlesUnique(w.books) && SurnamesUnique(w.authors) && NoOrphanAuthors(w.authors)
      && AuthorsBacked(w.books, w.authors)
  {
    var w := RemoveBookFromUser(db, bookId, userId).db;
    assert w.authors == db.authors && w.books.Keys == db.books.Keys;
    assert forall id :: id in w.books ==> w.books[id].authors == db.books[id].authors && w.books[id].title == db.books[id].title;
  }

  /**
   * Taking the user off the book's list and the book off the user's list
   * keeps the book side of the link backed: stated for any tables that
   * differ from the old ones only in those two lists.
   */
  lemma DetachOneUserBacked(books: map<BookId, Book>, users: map<UserId, User>, bookId: BookId, userId: UserId,
                       eb: map<BookId, Book>, eu: map<UserId, User>)
    requires UsersBacked(books, users) && bookId in books && userId in users
    requires eb.Keys == books.Keys && eu.Keys == users.Keys
    requires forall id :: id in eb ==> eb[id].users == if id == bookId then RemoveFirst(books[bookId].users, userId) else books[id].users
    requires forall u :: u in eu ==> eu[u].books == if u == userId then RemoveFirst(users[userId].books, bookId) else users[u].books
    ensures UsersBacked(eb, eu)
  {
    forall id | id in eb
      ensures Distinct(eb[id].users)
      ensures forall u :: u in eb[id].users ==> u in eu && id in eu[u].books
    {
      if id == bookId {
        RemoveFirstDistinct(books[bookId].users, userId);
      }
      forall u | u in eb[id].users ensures u in eu && id in eu[u].books {
        DetachOneUserLink(books, users, bookId, userId, id, u);
      }
    }
  }

  /** One remaining link of the book-user association is still mirrored on the user's side. */
  lemma DetachOneUserLink(books: map<BookId, Book>, users: map<UserId, User>, bookId: BookId, userId: UserId, id: BookId, u: UserId)
    requires UsersBacked(books, users) && bookId in books && userId in users && id in books
    requires u in (if id == bookId then RemoveFirst(books[bookId].users, userId) else books[id].users)
    ensures u in users
    ensures id in (if u == userId then RemoveFirst(users[userId].books, bookId) else users[u].books)
  {
    if id == bookId {
      RemoveFirstDistinct(books[bookId].users, userId);
      RemoveFirstKeepsOthers(books[bookId].users, userId, u);
    } else if u == userId {
      RemoveFirstKeepsOthers(users[userId].books, bookId, id);
    }
  }
}
