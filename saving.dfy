/**
 * saveBook: deduplicate by title, otherwise create the book and link its
 * authors by surname, and in either case finish by linking the user.
 */
module Saving {
  import opened Entities
  import opened Lists
  import opened NameParser
  import opened Store
  import opened AuthorLinking

  /** The store after an operation, and how the operation ended. */
  datatype Effect = Effect(db: Db, status: Status)

  /**
   * UserService.addBookToUser, whose code is not part of this model, under
   * an assumed contract: an unknown user fails with UserDoesntExist and
   * changes nothing; otherwise the book id is appended to the user's list,
   * with no check for an earlier copy.
   */
  function AddBookToUser(db: Db, userId: UserId, bookId: BookId): Effect {
    if userId !in db.users then Effect(db, Failed(UserDoesntExist))
    else Effect(db.(users := db.users[userId := User(db.users[userId].books + [bookId])]), Done)
  }

  /** The authors table as the author loop leaves it for a new book. */
  function LinkedFor(db: Db, info: VolumeInfo): Linked {
    LinkAuthors(Linked(db.authors, db.nextAuthorId, []), db.nextBookId, info.authorNames)
  }

  /**
   * The writes of saveBook for a title not stored yet: the author loop, then
   * the new book under the next book id, its author list being the authors
   * the loop created and its user list empty.
   */
  function NewTitleWrites(db: Db, info: VolumeInfo): Db {
    var linked := LinkedFor(db, info);
    db.(books := db.books[db.nextBookId := Book(info.title, info.details, linked.created, [])],
        authors := linked.authors,
        nextBookId := db.nextBookId + 1,
        nextAuthorId := linked.nextAuthorId)
  }

  function SaveBook(db: Db, info: VolumeInfo, userId: UserId): Effect {
    match FindByTitle(db, info.title)
    case Some(existing) => AddBookToUser(db, userId, existing)
    case None => AddBookToUser(NewTitleWrites(db, info), userId, db.nextBookId)
  }

  ghost predicate TitleStored(db: Db, title: string) {
    exists id :: id in db.books && db.books[id].title == title
  }

  // ---------------------------------------------------------------------

  /**
   * A title already stored: no book or author record is written; the only
   * effect is that the user (if known) gets the id of the book with that
   * title appended, and an unknown user leaves the store as it was.
   */
  lemma SaveExistingTitle(db: Db, info: VolumeInfo, userId: UserId, b: BookId)
    requires Valid(db)
    requires b in db.books && db.books[b].title == info.title
    ensures var e := SaveBook(db, info, userId);
      && e.db.books == db.books && e.db.authors == db.authors
      && e.db.nextBookId == db.nextBookId && e.db.nextAuthorId == db.nextAuthorId
      && (userId in db.users ==>
            e.status == Done && e.db.users == db.users[userId := User(db.users[userId].books + [b])])
      && (userId !in db.users ==> e == Effect(db, Failed(UserDoesntExist)))
  {
    FindByTitleExact(db, info.title);
  }

  /**
   * A new title: exactly one book record is added, under a fresh id, with
   * the title and payload of the record, no users, and as its authors
   * exactly the authors created by the loop, which are fresh ids, in
   * creation order, whose surnames are the surnames not yet stored, in the
   * order they first occur in the input.
   */
  lemma SaveNewTitleBook(db: Db, info: VolumeInfo, userId: UserId)
    requires Valid(db) && !TitleStored(db, info.title)
    ensures var e := SaveBook(db, info, userId);
      var b := db.nextBookId;
      && b !in db.books
      && e.db.nextBookId == b + 1
      && db.nextAuthorId <= e.db.nextAuthorId
      && e.db.books == db.books[b := Book(info.title, info.details, Range(db.nextAuthorId, e.db.nextAuthorId), [])]
      && (forall id :: id in e.db.books && e.db.books[id].title == info.title <==> id == b)
      && (forall a :: a in e.db.books[b].authors ==> a !in db.authors && a in e.db.authors)
      && SurnamesOf(e.db.authors, e.db.books[b].authors) == NewSurnames(SurnameSet(db.authors), info.authorNames)
  {
    FindByTitleExact(db, info.title);
    assert SaveBook(db, info, userId).db.books == NewTitleWrites(db, info).books;
    assert SaveBook(db, info, userId).db.authors == NewTitleWrites(db, info).authors;
    assert SaveBook(db, info, userId).db.nextAuthorId == NewTitleWrites(db, info).nextAuthorId;
    NewTitleRecord(db, info);
    NewTitleAuthorList(db, info);
  }

  /** The book record a new title writes. */
  lemma NewTitleRecord(db: Db, info: VolumeInfo)
    requires Valid(db) && !TitleStored(db, info.title)
    ensures var w := NewTitleWrites(db, info);
      var b := db.nextBookId;
      && b !in db.books
      && w.nextBookId == b + 1
      && db.nextAuthorId <= w.nextAuthorId
      && w.books == db.books[b := Book(info.title, info.details, Range(db.nextAuthorId, w.nextAuthorId), [])]
      && (forall id :: id in w.books && w.books[id].title == info.title <==> id == b)
  {
    LinkAuthorsCollects(Linked(db.authors, db.nextAuthorId, []), db.nextBookId, info.authorNames);
    var linked := LinkedFor(db, info);
    assert [] + Range(db.nextAuthorId, linked.nextAuthorId) == Range(db.nextAuthorId, linked.nextAuthorId);
  }

  /** The author list of a new title's record: fresh authors, in the order their surnames first occur. */
  lemma NewTitleAuthorList(db: Db, info: VolumeInfo)
    requires Valid(db)
    ensures var w := NewTitleWrites(db, info);
      var b := db.nextBookId;
      && (forall a :: a in w.books[b].authors ==> a !in db.authors && a in w.authors)
      && SurnamesOf(w.authors, w.books[b].authors) == NewSurnames(SurnameSet(db.authors), info.authorNames)
  {
    var acc := Linked(db.authors, db.nextAuthorId, []);
    LinkAuthorsFresh(acc, db.nextBookId, info.authorNames);
    LinkAuthorsOrder(acc, db.nextBookId, info.authorNames);
    var linked := LinkedFor(db, info);
    assert linked.created[0..] == linked.created;
  }

  /**
   * A new title, on the author side: the authors that were stored keep
   * their name and surname and gain one copy of the new book's id per input
   * name with their surname; every other stored author is one the loop
   * created, named with the first name parsed from the first input name with
   * its surname, whose list is one copy of the new id per input name with
   * that surname (at least one). So no surname ends up on two authors.
   */
  lemma SaveNewTitleAuthors(db: Db, info: VolumeInfo, userId: UserId)
    requires Valid(db) && !TitleStored(db, info.title)
    ensures var e := SaveBook(db, info, userId);
      var b := db.nextBookId;
      && SurnamesUnique(e.db.authors)
      && (forall a :: a in db.authors ==>
            a in e.db.authors &&
            e.db.authors[a] == db.authors[a].(books := db.authors[a].books +
                                 Repeat(b, SurnameCount(info.authorNames, db.authors[a].surname))))
      && (forall a :: a in e.db.authors && a !in db.authors ==>
            && SurnameCount(info.authorNames, e.db.authors[a].surname) > 0
            && e.db.authors[a].name == FirstNameFor(info.authorNames, e.db.authors[a].surname)
            && e.db.authors[a].books == Repeat(b, SurnameCount(info.authorNames, e.db.authors[a].surname)))
  {
    FindByTitleExact(db, info.title);
    var acc := Linked(db.authors, db.nextAuthorId, []);
    LinkAuthorsFresh(acc, db.nextBookId, info.authorNames);
    forall a | a in db.authors
      ensures var r := LinkAuthors(acc, db.nextBookId, info.authorNames);
        a in r.authors &&
        r.authors[a] == db.authors[a].(books := db.authors[a].books +
                          Repeat(db.nextBookId, SurnameCount(info.authorNames, db.authors[a].surname)))
    {
      LinkAuthorsExisting(acc, db.nextBookId, info.authorNames, a);
    }
    var r := LinkAuthors(acc, db.nextBookId, info.authorNames);
    forall a | a in r.authors && a !in db.authors
      ensures && SurnameCount(info.authorNames, r.authors[a].surname) > 0
              && r.authors[a].name == FirstNameFor(info.authorNames, r.authors[a].surname)
              && r.authors[a].books == Repeat(db.nextBookId, SurnameCount(info.authorNames, r.authors[a].surname))
    {
      LinkAuthorsCreated(acc, db.nextBookId, info.authorNames, a);
    }
  }

  /**
   * saveBook always ends by linking the user: it fails with
   * UserDoesntExist exactly when the user is unknown, and the book and
   * author writes of a new title stay in the store even then. Only the
   * user's own list changes besides, by one appended id: the book's.
   */
  lemma SaveBookLinksUser(db: Db, info: VolumeInfo, userId: UserId)
    requires Valid(db)
    ensures var e := SaveBook(db, info, userId);
      var written := if TitleStored(db, info.title) then db else NewTitleWrites(db, info);
      var b := FindByTitle(written, info.title);
      && b.Some?
      && (e.status == Failed(UserDoesntExist) <==> userId !in db.users)
      && (e.status == Done <==> userId in db.users)
      && e.db.books == written.books && e.db.authors == written.authors
      && e.db.users == (if userId in db.users
                        then db.users[userId := User(db.users[userId].books + [b.value])]
                        else db.users)
  {
    FindByTitleExact(db, info.title);
    if !TitleStored(db, info.title) {
      var w := NewTitleWrites(db, info);
      assert w.books[db.nextBookId].title == info.title;
      assert TitlesUnique(w.books);
      FindByTitleExact(w, info.title);
    }
  }

  /**
   * saveBook keeps the store invariant: ids below the counters, unique
   * titles, unique surnames, book-side links backed by the other side, and
   * no author without books.
   */
  lemma SaveBookPreservesValid(db: Db, info: VolumeInfo, userId: UserId)
    requires Valid(db)
    ensures Valid(SaveBook(db, info, userId).db)
  {
    if TitleStored(db, info.title) {
      var b :| b in db.books && db.books[b].title == info.title;
      SaveExistingTitle(db, info, userId, b);
      var e := SaveBook(db, info, userId);
      assert UsersBacked(e.db.books, e.db.users);
    } else {
      NewTitleWritesValid(db, info);
      var w := NewTitleWrites(db, info);
      FindByTitleExact(db, info.title);
      assert SaveBook(db, info, userId) == AddBookToUser(w, userId, db.nextBookId);
      assert UsersBacked(w.books, AddBookToUser(w, userId, db.nextBookId).db.users);
    }
  }

  /** The writes for a new title, before the user is linked, keep the invariant. */
  lemma NewTitleWritesValid(db: Db, info: VolumeInfo)
    requires Valid(db) && !TitleStored(db, info.title)
    ensures Valid(NewTitleWrites(db, info))
  {
    NewTitleWritesTables(db, info);
    NewTitleTitlesUnique(db, info);
    NewTitleUsersBacked(db, info);
    NewTitleAuthorsBacked(db, info);
    NewTitleNoOrphans(db, info);
  }

  lemma NewTitleWritesTables(db: Db, info: VolumeInfo)
    requires Valid(db)
    ensures var w := NewTitleWrites(db, info);
      IdsBelowCounter(w.books, w.nextBookId) && IdsBelowCounter(w.authors, w.nextAuthorId) && SurnamesUnique(w.authors)
  {
    LinkAuthorsTable(Linked(db.authors, db.nextAuthorId, []), db.nextBookId, info.authorNames);
  }

  lemma NewTitleTitlesUnique(db: Db, info: VolumeInfo)
    requires Valid(db) && !TitleStored(db, info.title)
    ensures TitlesUnique(NewTitleWrites(db, info).books)
  {
    var w := NewTitleWrites(db, info);
    var b := db.nextBookId;
    forall x, y | x in w.books && y in w.books && w.books[x].title == w.books[y].title ensures x == y {
      if x != b && y != b {
        assert db.books[x].title == db.books[y].title;
      }
    }
  }

  lemma NewTitleUsersBacked(db: Db, info: VolumeInfo)
    requires Valid(db)
    ensures UsersBacked(NewTitleWrites(db, info).books, NewTitleWrites(db, info).users)
  {
    var w := NewTitleWrites(db, info);
    assert db.nextBookId !in db.books;
    forall id | id in w.books && id != db.nextBookId ensures w.books[id] == db.books[id] {
    }
  }

  lemma NewTitleNoOrphans(db: Db, info: VolumeInfo)
    requires Valid(db) && !TitleStored(db, info.title)
    ensures NoOrphanAuthors(NewTitleWrites(db, info).authors)
  {
    var w := NewTitleWrites(db, info);
    FindByTitleExact(db, info.title);
    assert SaveBook(db, info, 0).db.authors == w.authors;
    SaveNewTitleAuthors(db, info, 0);
    forall a | a in w.authors ensures w.authors[a].books != [] {
      if a in db.authors {
        assert |w.authors[a].books| >= |db.authors[a].books|;
      }
    }
  }

  lemma NewTitleAuthorsBacked(db: Db, info: VolumeInfo)
    requires Valid(db) && !TitleStored(db, info.title)
    ensures AuthorsBacked(NewTitleWrites(db, info).books, NewTitleWrites(db, info).authors)
  {
    var w := NewTitleWrites(db, info);
    var b := db.nextBookId;
    FindByTitleExact(db, info.title);
    assert SaveBook(db, info, 0).db.books == w.books && SaveBook(db, info, 0).db.authors == w.authors;
    SaveNewTitleBook(db, info, 0);
    SaveNewTitleAuthors(db, info, 0);
    forall id | id in w.books
      ensures Distinct(w.books[id].authors)
      ensures forall a :: a in w.books[id].authors ==> a in w.authors && id in w.authors[a].books
    {
      if id == b {
        forall a | a in w.books[id].authors ensures a in w.authors && id in w.authors[a].books {
          assert a !in db.authors;
          assert w.authors[a].books[0] == b;
        }
      } else {
        forall a | a in w.books[id].authors ensures a in w.authors && id in w.authors[a].books {
          assert a in db.authors && id in db.authors[a].books;
          assert w.authors[a].books[..|db.authors[a].books|] == db.authors[a].books;
        }
      }
    }
  }

  // ---------------------------------------------------------------------
  // Saving the same record twice

  /**
   * Title deduplication: saving one record for two users stores a single
   * book with that title, which both users then list, and the second save
   * writes no book or author record.
   */
  lemma SaveTwiceForTwoUsers(db: Db, info: VolumeInfo, u1: UserId, u2: UserId)
    requires Valid(db) && u1 in db.users && u2 in db.users && u1 != u2
    ensures var e1 := SaveBook(db, info, u1);
      var e2 := SaveBook(e1.db, info, u2);
      && e2.db.books == e1.db.books && e2.db.authors == e1.db.authors
      && exists b :: b in e2.db.books && e2.db.books[b].title == info.title
           && (forall id :: id in e2.db.books && e2.db.books[id].title == info.title ==> id == b)
           && b in e2.db.users[u1].books && b in e2.db.users[u2].books
  {
    var e1 := SaveBook(db, info, u1);
    SaveBookLinksUser(db, info, u1);
    SaveBookPreservesValid(db, info, u1);
    var written := if TitleStored(db, info.title) then db else NewTitleWrites(db, info);
    var b := FindByTitle(written, info.title).value;
    assert b in e1.db.books && e1.db.books[b].title == info.title;
    SaveExistingTitle(e1.db, info, u2, b);
    var e2 := SaveBook(e1.db, info, u2);
    assert b in e2.db.users[u1].books by {
      assert e1.db.users[u1].books == db.users[u1].books + [b];
    }
  }

  /**
   * The user link does not deduplicate: saving the same record twice for
   * one user lists the book twice more than before.
   */
  lemma SaveTwiceForOneUser(db: Db, info: VolumeInfo, u: UserId)
    requires Valid(db) && u in db.users
    ensures var e1 := SaveBook(db, info, u);
      var e2 := SaveBook(e1.db, info, u);
      exists b :: b in e2.db.books && e2.db.books[b].title == info.title
        && e2.db.users[u].books == db.users[u].books + [b, b]
  {
    var e1 := SaveBook(db, info, u);
    SaveBookLinksUser(db, info, u);
    SaveBookPreservesValid(db, info, u);
    var written := if TitleStored(db, info.title) then db else NewTitleWrites(db, info);
    var b := FindByTitle(written, info.title).value;
    SaveExistingTitle(e1.db, info, u, b);
    var e2 := SaveBook(e1.db, info, u);
    assert e2.db.users[u].books == db.users[u].books + [b] + [b];
  }
}
