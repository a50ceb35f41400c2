/**
 * BookService as an object over the store: the three tables and the id
 * counters are its fields, and each public operation is a method whose
 * effect on those fields is the matching function of the value model.
 */
module Service {
  import opened Entities
  import opened Lists
  import opened NameParser
  import opened Store
  import opened AuthorLinking
  import opened Saving
  import opened Removal
  import opened Queries

  class BookService {
    var books: map<BookId, Book>
    var authors: map<AuthorId, Author>
    var users: map<UserId, User>
    var nextBookId: nat
    var nextAuthorId: nat

    /** The fields as a value of the model. */
    function State(): Db
      reads this
    {
      Db(books, authors, users, nextBookId, nextAuthorId)
    }

    ghost predicate Valid()
      reads this
    {
      Store.Valid(State())
    }

    /** An empty catalogue in front of a set of users who own no books yet. */
    constructor (initialUsers: map<UserId, User>)
      requires forall u :: u in initialUsers ==> initialUsers[u].books == []
      ensures State() == Db(map[], map[], initialUsers, 0, 0)
      ensures Valid()
    {
      books := map[];
      authors := map[];
      users := initialUsers;
      nextBookId := 0;
      nextAuthorId := 0;
    }

    /** UserService.addBookToUser under its assumed contract. */
    method AddBookToUser(userId: UserId, bookId: BookId) returns (status: Status)
      modifies this
      ensures Effect(State(), status) == Saving.AddBookToUser(old(State()), userId, bookId)
      ensures old(Valid()) ==> Valid()
    {
      if userId !in users {
        return Failed(UserDoesntExist);
      }
      users := users[userId := User(users[userId].books + [bookId])];
      return Done;
    }

    /**
     * saveBook: an unknown title is stored as a new book after its authors
     * have been linked by surname; in both cases the book is then added to
     * the user.
     */
    method SaveBook(info: VolumeInfo, userId: UserId) returns (status: Status)
      modifies this
      ensures Effect(State(), status) == Saving.SaveBook(old(State()), info, userId)
      ensures old(Valid()) ==> Valid()
    {
      ghost var db := State();
      if FindByTitle(State(), info.title).None? {
        var bookId := nextBookId;
        var created: seq<AuthorId> := [];
        ghost var start := Linked(authors, nextAuthorId, []);
        var i := 0;
        while i < |info.authorNames|
          invariant 0 <= i <= |info.authorNames|
          invariant LinkAuthors(Linked(authors, nextAuthorId, created), bookId, info.authorNames[i..])
                 == LinkAuthors(start, bookId, info.authorNames)
          invariant books == db.books && users == db.users && nextBookId == db.nextBookId
        {
          ghost var before := Linked(authors, nextAuthorId, created);
          assert info.authorNames[i..][1..] == info.authorNames[i + 1..];
          var name, surname := ParseAuthorName(info.authorNames[i]);
          match SurnameBelow(authors, surname, nextAuthorId) {
            case None =>
              authors := authors[nextAuthorId := Author(name, surname, [bookId])];
              created := created + [nextAuthorId];
              nextAuthorId := nextAuthorId + 1;
            case Some(a) =>
              authors := authors[a := authors[a].(books := authors[a].books + [bookId])];
          }
          assert Linked(authors, nextAuthorId, created) == LinkOne(before, bookId, info.authorNames[i]);
          i := i + 1;
        }
        assert Linked(authors, nextAuthorId, created) == LinkedFor(db, info);
        books := books[bookId := Book(info.title, info.details, created, [])];
        nextBookId := nextBookId + 1;
        assert State() == NewTitleWrites(db, info);
        TitleBelowUpdate(db.books, info.title, bookId, bookId, books[bookId]);
        var bookDB := FindByTitle(State(), info.title);
        assert bookDB == Some(bookId);
        status := AddBookToUser(userId, bookDB.value);
      } else {
        var bookDB := FindByTitle(State(), info.title);
        status := AddBookToUser(userId, bookDB.value);
      }
      if Store.Valid(db) {
        SaveBookPreservesValid(db, info, userId);
      }
    }

    /**
     * removeBook: every user listing the book and every author of the book
     * loses the book, authors left with no book are deleted, then the book.
     */
    method RemoveBook(bookId: BookId) returns (status: Status)
      modifies this
      ensures Effect(State(), status) == Removal.RemoveBook(old(State()), bookId)
      ensures old(Valid()) ==> Valid()
    {
      ghost var db := State();
      if bookId !in books {
        return Failed(BookDoesntExist);
      }
      var book := books[bookId];
      var i := 0;
      while i < |book.users|
        invariant 0 <= i <= |book.users|
        invariant DetachUsers(users, bookId, book.users[i..]) == DetachUsers(db.users, bookId, book.users)
        invariant books == db.books && authors == db.authors
        invariant nextBookId == db.nextBookId && nextAuthorId == db.nextAuthorId
      {
        assert book.users[i..][1..] == book.users[i + 1..];
        var u := book.users[i];
        if u in users {
          users := users[u := User(RemoveFirst(users[u].books, bookId))];
        }
        i := i + 1;
      }
      var j := 0;
      while j < |book.authors|
        invariant 0 <= j <= |book.authors|
        invariant DetachAuthors(authors, bookId, book.authors[j..]) == DetachAuthors(db.authors, bookId, book.authors)
        invariant users == DetachUsers(db.users, bookId, book.users)
        invariant books == db.books
        invariant nextBookId == db.nextBookId && nextAuthorId == db.nextAuthorId
      {
        assert book.authors[j..][1..] == book.authors[j + 1..];
        var a := book.authors[j];
        if a in authors {
          var rest := RemoveFirst(authors[a].books, bookId);
          if rest == [] {
            authors := authors - {a};
          } else {
            authors := authors[a := authors[a].(books := rest)];
          }
        }
        j := j + 1;
      }
      books := books - {bookId};
      status := Done;
      if Store.Valid(db) {
        RemoveBookPreservesValid(db, bookId);
      }
    }

    /** removeBookFromUser: the book leaves the user's list and the user leaves the book's list. */
    method RemoveBookFromUser(bookId: BookId, userId: UserId) returns (status: Status)
      modifies this
      ensures Effect(State(), status) == Removal.RemoveBookFromUser(old(State()), bookId, userId)
      ensures old(Valid()) ==> Valid()
    {
      ghost var db := State();
      if bookId !in books {
        return Failed(BookDoesntExist);
      }
      if userId !in users {
        return Failed(UserDoesntExist);
      }
      var user := users[userId];
      if bookId in user.books {
        users := users[userId := User(RemoveFirst(user.books, bookId))];
      }
      var book := books[bookId];
      books := books[bookId := book.(users := RemoveFirst(book.users, userId))];
      status := Done;
      if Store.Valid(db) {
        RemoveBookFromUserPreservesValid(db, bookId, userId);
      }
    }

    /** getAllBooks: the view of every book findAll returns, in that order. */
    method GetAllBooks() returns (r: seq<BookView>)
      ensures r == AllBooks(State())
    {
      var ids := FindAll(State());
      r := [];
      var i := 0;
      while i < |ids|
        invariant 0 <= i <= |ids|
        invariant r == ViewsOf(books, ids[..i])
      {
        var id := ids[i];
        assert id in ids;
        ViewsOfSnoc(books, ids, i);
        r := r + [ViewOf(id, books[id])];
        i := i + 1;
      }
      assert ids[..|ids|] == ids;
    }

    /** findBooksByAuthor: for every book, one view per entry of its author list equal to the id. */
    method FindBooksByAuthor(authorId: AuthorId) returns (r: seq<BookView>)
      ensures r == BooksByAuthor(State(), authorId)
    {
      var ids := FindAll(State());
      r := [];
      var i := 0;
      while i < |ids|
        invariant 0 <= i <= |ids|
        invariant r == ByAuthor(books, ids[..i], authorId)
      {
        var id := ids[i];
        assert id in books by {
          assert id in ids;
        }
        var book := books[id];
        var matches := AuthorMatchesOf(id, book, authorId);
        ByAuthorSnoc(books, ids, i, authorId);
        r := r + matches;
        i := i + 1;
      }
      assert ids[..|ids|] == ids;
    }

    /** The inner loop of findBooksByAuthor, over one book's author list. */
    static method AuthorMatchesOf(id: BookId, book: Book, authorId: AuthorId) returns (r: seq<BookView>)
      ensures r == AuthorMatches(id, book, authorId)
    {
      var view := ViewOf(id, book);
      r := [];
      var j := 0;
      while j < |book.authors|
        invariant 0 <= j <= |book.authors|
        invariant r == Repeat(view, multiset(book.authors[..j])[authorId])
      {
        RepeatCountSnoc(view, book.authors, j, authorId);
        if book.authors[j] == authorId {
          r := r + [view];
        }
        j := j + 1;
      }
      assert book.authors[..|book.authors|] == book.authors;
    }

    /** findBookById. */
    method FindBookById(bookId: BookId) returns (r: Result<BookView>)
      ensures r == BookById(State(), bookId)
    {
      if bookId !in books {
        return Failure(BookDoesntExist);
      }
      var book := books[bookId];
      return Success(ViewOf(bookId, book));
    }

    /** getBooksOwnedByUser: the views of the user's list, in its order. */
    method GetBooksOwnedByUser(userId: UserId) returns (r: Result<seq<BookView>>)
      ensures r == BooksOwnedByUser(State(), userId)
    {
      if userId !in users {
        return Failure(UserDoesntExist);
      }
      var owned := users[userId].books;
      var views: seq<BookView> := [];
      var i := 0;
      while i < |owned|
        invariant 0 <= i <= |owned|
        invariant views == ViewsOf(books, owned[..i])
      {
        var id := owned[i];
        ViewsOfSnoc(books, owned, i);
        if id in books {
          views := views + [ViewOf(id, books[id])];
        }
        i := i + 1;
      }
      assert owned[..|owned|] == owned;
      return Success(views);
    }
  }
}
