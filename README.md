# BookService relationship engine, in Dafny

This project models the core of a small book catalogue service (the Java
class `BookService` of a Spring application). The service keeps a graph of
books, authors and users in a store.

- `saveBook` deduplicates books by title and authors by surname. It splits
  author names inline, and it links the book to a user.
- `removeBook` detaches a book from its users and authors, deletes authors
  left without books, and deletes the book.
- `removeBookFromUser` detaches one book from one user, in both
  directions.
- Four read-only queries project or filter the stored books into views
  (`BookDto`).

## Layout

The model is in two layers.

- **The value model** gives each operation as a pure function on a store
  value `Store.Db`, with lemmas about those functions.
  - `Db` holds three tables keyed by store-assigned ids, plus the counters
    fresh ids come from.
  - The functions are `Saving.SaveBook`, `Removal.RemoveBook`,
    `Removal.RemoveBookFromUser` and the `Queries` functions.
- **The object** `Service.BookService` holds the tables and counters as
  fields.
  - Each public operation is a method with the loops of the Java code.
  - Each method is proved to leave exactly the state, and return exactly
    the status, that the value function gives for the old state.
  - The state-changing methods also keep the store invariant `Store.Valid`.

Files and modules:

- `entities.dfy`: the records and the error/status types.
- `lists.dfy`: `java.util.List` behaviour that the engine relies on, above
  all `List.remove(Object)` dropping only the first occurrence.
- `name_parser.dfy`: Java's `String.split(" ")` and the name/surname split.
- `store.dfy`: the tables, the repository lookups and the store invariant.
- `author_linking.dfy`: the author loop of `saveBook`, as a fold over the
  author names.
- `saving.dfy`, `removal.dfy`, `queries.dfy`: the operations and their
  properties.
- `book_service.dfy`: the class.

The two sides of each association are stored separately.

- Book–author: the book's author list, and each author's book list.
- Book–user: the book's user list, and each user's book list.

The engine does not keep the two sides in agreement. A new book's author
list holds only the authors that `saveBook` creates; an existing author
gains the book on its own side only. `addBookToUser` updates only the
user's side. So the invariant asks only that the *book side* be backed:
every author or user a book lists is stored and lists the book back. It
also asks that ids stay below the counters, that titles and surnames are
unique, and that no stored author has an empty book list.

Repository lookups are functions on the tables. `existsByTitle`/`findByTitle`
and `existsBySurname`/`findBySurname` scan the ids below the counter and
return the lowest match. `findAll` lists the stored ids in increasing order.
Under the invariant, a matching title or surname is unique, so "the lowest
match" is simply "the match".

## Model

| member | source | states |
|---|---|---|
| Service.BookService.constructor | book_app/src/main/java/com/example/book_app/service/BookService.java:30-37 | An empty catalogue over users who own nothing yet satisfies the store invariant. |
| Service.BookService.AddBookToUser | book_app/src/main/java/com/example/book_app/service/BookService.java:147 | The assumed UserService.addBookToUser contract on the fields: an unknown user fails with UserDoesntExist and changes nothing; otherwise only that user's list changes, by the book id appended. The store invariant is kept. |
| Service.BookService.SaveBook | book_app/src/main/java/com/example/book_app/service/BookService.java:101-153 | The loop over author names, the record write and the user link leave the fields and status exactly as Saving.SaveBook describes, and keep the store invariant. |
| Service.BookService.RemoveBook | book_app/src/main/java/com/example/book_app/service/BookService.java:174-200 | The users loop, the authors loop (delete when empty, else save) and the book deletion leave the fields exactly as Removal.RemoveBook describes, and keep the store invariant. |
| Service.BookService.RemoveBookFromUser | book_app/src/main/java/com/example/book_app/service/BookService.java:202-217 | The two checks and the two list removals leave the fields exactly as Removal.RemoveBookFromUser describes, and keep the store invariant. |
| Service.BookService.GetAllBooks | book_app/src/main/java/com/example/book_app/service/BookService.java:48-57 | The loop over findAll returns Queries.AllBooks of the current state and changes nothing. |
| Service.BookService.FindBooksByAuthor | book_app/src/main/java/com/example/book_app/service/BookService.java:59-74 | The nested scan returns Queries.BooksByAuthor of the current state and changes nothing. |
| Service.BookService.AuthorMatchesOf | book_app/src/main/java/com/example/book_app/service/BookService.java:63-71 | The inner loop over one book's author list yields one view of the book per entry equal to the author id. |
| Service.BookService.FindBookById | book_app/src/main/java/com/example/book_app/service/BookService.java:76-89 | Returns Queries.BookById of the current state: the book's view, or BookDoesntExist. |
| Service.BookService.GetBooksOwnedByUser | book_app/src/main/java/com/example/book_app/service/BookService.java:155-172 | Returns Queries.BooksOwnedByUser of the current state: UserDoesntExist, or the views of the user's list in order. |
| Entities.ViewOf | book_app/src/main/java/com/example/book_app/service/BookService.java:52-54 | Definition of the BookDto copy: the book's id, title and payload. Properties are in Queries.ViewsOfStored and Queries.BookByIdSpec. |
| Lists.RemoveFirst | book_app/src/main/java/com/example/book_app/service/BookService.java:180 | List.remove: an absent element leaves the list as it is; a present one shortens it by exactly one. Which entry goes is stated in RemoveFirstCutsFirst. |
| Lists.FirstIndex | book_app/src/main/java/com/example/book_app/service/BookService.java:211-212 | The lowest index holding the element: it holds the element, and no earlier index does. |
| Lists.RemoveFirstAt | book_app/src/main/java/com/example/book_app/service/BookService.java:212 | List.remove cuts the list at the first occurrence: the entries before it, then the entries after it, both in order. |
| Lists.RemoveFirstCutsFirst | book_app/src/main/java/com/example/book_app/service/BookService.java:180 | List.remove(x) on a list holding x removes the entry at an index with no x before it, and keeps every other entry in its order. |
| Lists.RemoveFirstMultiset | book_app/src/main/java/com/example/book_app/service/BookService.java:187 | List.remove takes out exactly one copy of the element and keeps every other entry. |
| Lists.RemoveFirstKeepsOthers | book_app/src/main/java/com/example/book_app/service/BookService.java:212 | After List.remove(x), any y other than x is in the list exactly when it was before. |
| Lists.RemoveFirstDistinct | book_app/src/main/java/com/example/book_app/service/BookService.java:215 | On a list without repeats, List.remove(x) keeps it without repeats and removes x entirely. |
| NameParser.Pieces | book_app/src/main/java/com/example/book_app/service/BookService.java:118 | Cutting at single spaces gives one more piece than there are spaces, none of them holding a space. |
| NameParser.DropTrailingEmpty | book_app/src/main/java/com/example/book_app/service/BookService.java:118 | split drops only empty tokens at the end: the result is a prefix, everything dropped is empty, and the last token kept is not empty. |
| NameParser.Split | book_app/src/main/java/com/example/book_app/service/BookService.java:118 | No token of split(" ") holds a space. |
| NameParser.FirstWord | book_app/src/main/java/com/example/book_app/service/BookService.java:116-127 | The longest space-free prefix of the string, followed by a space when it stops early. |
| NameParser.RemoveSpaces | book_app/src/main/java/com/example/book_app/service/BookService.java:116-127 | Reference definition: the string with every space deleted. Its link to the token loop is in ConcatPieces and ParsedNameSpec. |
| NameParser.Concat | book_app/src/main/java/com/example/book_app/service/BookService.java:121 | Definition of the surname builder's appends: strings joined with no separator. Properties are in ConcatPieces and ConcatDropTrailing. |
| NameParser.ParsedName | book_app/src/main/java/com/example/book_app/service/BookService.java:116-127 | Definition of the (name, surname) pair for one author string: token 0 of split(" ") as the name, the later tokens glued together as the surname, and two empty strings when there are no tokens. Properties are in ParsedNameSpec, SingleTokenName, TwoWordName and FrankHerbert; ParseAuthorName's loop is proved equal to it. |
| NameParser.ParseAuthorName | book_app/src/main/java/com/example/book_app/service/BookService.java:116-127 | The StringBuilder loop over the tokens yields exactly ParsedName of the author string. |
| NameParser.SingleTokenName | book_app/src/main/java/com/example/book_app/service/BookService.java:116-127 | An author string with no space is all name; the surname is empty. |
| NameParser.ParsedNameSpec | book_app/src/main/java/com/example/book_app/service/BookService.java:116-127 | The name is everything before the first space (empty for a leading space), the surname is the rest with its spaces removed, and name + surname is the input with all spaces removed. |
| NameParser.TwoWordName | book_app/src/main/java/com/example/book_app/service/BookService.java:116-127 | Two space-free words around one space parse to exactly that name and surname. |
| NameParser.FrankHerbert | book_app/src/main/java/com/example/book_app/service/BookService.java:116-127 | "Frank Herbert" parses to name "Frank" and surname "Herbert". |
| NameParser.ConcatPieces | book_app/src/main/java/com/example/book_app/service/BookService.java:121 | Gluing all pieces together gives the string with its spaces removed. |
| NameParser.ConcatDropTrailing | book_app/src/main/java/com/example/book_app/service/BookService.java:121 | Dropping trailing empty tokens does not change what the surname builder appends. |
| Store.TitleBelow | book_app/src/main/java/com/example/book_app/repository/BookRepository.java:10-12 | The title lookup returns a stored id below the counter whose book has that title, or None only when no such book exists. |
| Store.FindByTitle | book_app/src/main/java/com/example/book_app/repository/BookRepository.java:10-12 | existsByTitle/findByTitle on the store value. Properties are in TitleBelow and FindByTitleExact. |
| Store.SurnameBelow | book_app/src/main/java/com/example/book_app/service/BookService.java:128-135 | The surname lookup returns a stored author id with that surname, or None only when no stored author below the counter has it. |
| Store.IdsBelow | book_app/src/main/java/com/example/book_app/service/BookService.java:49 | findAll lists exactly the stored ids below the counter, in strictly increasing order. |
| Store.FindAll | book_app/src/main/java/com/example/book_app/service/BookService.java:49 | findAll on the books table. Properties are in IdsBelow and FindAllSpec. |
| Store.FindByTitleExact | book_app/src/main/java/com/example/book_app/repository/BookRepository.java:10-12 | Under the invariant, existsByTitle is false exactly when no book has the title, and findByTitle returns the one book that has it. |
| Store.SurnameBelowExact | book_app/src/main/java/com/example/book_app/service/BookService.java:128-135 | Under unique surnames, existsBySurname is false exactly when no author has the surname, and findBySurname returns the one author that has it. |
| Store.TitleBelowUpdate | book_app/src/main/java/com/example/book_app/service/BookService.java:143-145 | Writing a record at or above the counter does not change what the title lookup below the counter finds. |
| Store.Valid | book_app/src/main/java/com/example/book_app/service/BookService.java:112-145 | The store invariant that every state-changing method of Service.BookService keeps (the *PreservesValid lemmas for the store value). It has six parts. 1. Ids are below their counters. 2. Titles are unique (the existsByTitle check at 112). 3. Surnames are unique (the existsBySurname check at 128). 4. Each book's author list is repeat-free, and every author it lists is stored and lists the book back. 5. The same holds for each book's user list. 6. No stored author has an empty book list. It does not require an author's list to name only stored books that list the author back. |
| AuthorLinking.Range | book_app/src/main/java/com/example/book_app/service/BookService.java:131-133 | The consecutive fresh ids from lo up to hi, in order. |
| AuthorLinking.LinkOne | book_app/src/main/java/com/example/book_app/service/BookService.java:116-138 | Definition of one iteration of the author loop. Properties are in LinkOneKnown, LinkOneNew, LinkOneOk and LinkOneKeeps. |
| AuthorLinking.LinkAuthors | book_app/src/main/java/com/example/book_app/service/BookService.java:114-139 | Definition of the author loop, as a fold over the names in input order. Properties are in LinkAuthorsFresh, LinkAuthorsExisting, LinkAuthorsCreated, LinkAuthorsOrder and LinkAuthorsCovers. |
| AuthorLinking.SurnameCount | book_app/src/main/java/com/example/book_app/service/BookService.java:128-138 | How many author strings parse to a surname: the number of copies of the book an author with it gains. Definition only. |
| AuthorLinking.FirstNameFor | book_app/src/main/java/com/example/book_app/service/BookService.java:126-131 | The parsed first name of the first author string with a surname: the name an author created for it carries. Definition only. |
| AuthorLinking.LinkOneOk | book_app/src/main/java/com/example/book_app/service/BookService.java:128-138 | One author string keeps ids below the counter and surnames unique. |
| AuthorLinking.LinkOneKnown | book_app/src/main/java/com/example/book_app/service/BookService.java:134-137 | A known surname appends the book to the one author with that surname; nothing is created and no other author changes. |
| AuthorLinking.LinkOneNew | book_app/src/main/java/com/example/book_app/service/BookService.java:128-133 | An unknown surname creates exactly one author, under the next id, with the parsed name and surname and the book as its whole list, and collects it. |
| AuthorLinking.LinkOneKeeps | book_app/src/main/java/com/example/book_app/service/BookService.java:128-138 | Every author stored before keeps its surname, and the set of stored surnames gains just the parsed surname. |
| AuthorLinking.LinkOneShape | book_app/src/main/java/com/example/book_app/service/BookService.java:128-138 | One iteration creates either nothing or the next id, and collects what it creates. |
| AuthorLinking.LinkOneCounter | book_app/src/main/java/com/example/book_app/service/BookService.java:131-132 | One iteration advances the counter by the number of authors it collects. |
| AuthorLinking.LinkOneExisting | book_app/src/main/java/com/example/book_app/service/BookService.java:134-137 | A stored author gains the book from one iteration exactly when the parsed surname is its own. |
| AuthorLinking.LinkAuthorsFresh | book_app/src/main/java/com/example/book_app/service/BookService.java:114-139 | The whole loop keeps the table well formed, adds exactly the ids between the old and new counter, and collects exactly those ids in creation order. |
| AuthorLinking.LinkAuthorsTable | book_app/src/main/java/com/example/book_app/service/BookService.java:114-139 | The loop keeps ids below the counter and surnames unique, and adds exactly the ids between the old and the new counter. |
| AuthorLinking.LinkAuthorsCollects | book_app/src/main/java/com/example/book_app/service/BookService.java:114-132 | The list of collected authors is the old list followed by the freshly created ids, in order. |
| AuthorLinking.LinkAuthorsExisting | book_app/src/main/java/com/example/book_app/service/BookService.java:134-137 | An author stored before the loop keeps its name and surname and gains one copy of the book per input name with its surname. |
| AuthorLinking.LinkAuthorsCreated | book_app/src/main/java/com/example/book_app/service/BookService.java:128-133 | An author the loop creates has at least one input name with its surname; it carries the first name parsed from the first such input name; and its list is one copy of the book per such name. |
| AuthorLinking.LinkAuthorsOrder | book_app/src/main/java/com/example/book_app/service/BookService.java:114-141 | The collected authors' surnames are exactly the surnames not stored yet, in the order of their first occurrence in the input. |
| AuthorLinking.LinkAuthorsCovers | book_app/src/main/java/com/example/book_app/service/BookService.java:128-138 | After the loop, each input surname is found by the surname lookup at an author whose list holds the book. |
| Saving.AddBookToUser | book_app/src/main/java/com/example/book_app/service/BookService.java:147-151 | Definition of the assumed addBookToUser contract: UserDoesntExist for an unknown user, otherwise the id appended to that user's list with no duplicate check. Properties are in SaveBookLinksUser, SaveTwiceForOneUser and Service.BookService.AddBookToUser. |
| Saving.SaveBook | book_app/src/main/java/com/example/book_app/service/BookService.java:101-153 | Definition of saveBook on the store value. Properties are in SaveExistingTitle, SaveNewTitleBook, SaveNewTitleAuthors, SaveBookLinksUser and SaveBookPreservesValid. |
| Saving.NewTitleWrites | book_app/src/main/java/com/example/book_app/service/BookService.java:112-145 | Definition of the writes for a new title. Properties are in NewTitleRecord, NewTitleAuthorList and NewTitleWritesValid. |
| Saving.LinkedFor | book_app/src/main/java/com/example/book_app/service/BookService.java:114-139 | The author loop started from the stored authors, for the next book id. Definition only; properties are in the AuthorLinking lemmas. |
| Saving.SaveExistingTitle | book_app/src/main/java/com/example/book_app/service/BookService.java:149-152 | A title already stored writes no book or author and moves no counter; the only change is that the user, if known, gets the existing book's id appended. |
| Saving.SaveNewTitleBook | book_app/src/main/java/com/example/book_app/service/BookService.java:112-145 | A new title adds exactly one book with that title, under the next id, with no users; its authors are exactly the authors just created, fresh ids, in the order their surnames first occur. |
| Saving.NewTitleRecord | book_app/src/main/java/com/example/book_app/service/BookService.java:141-143 | The new book record: the next id, the title and payload, the freshly created author ids as the author list, an empty user list, and the only book with that title. |
| Saving.NewTitleAuthorList | book_app/src/main/java/com/example/book_app/service/BookService.java:114-141 | The new book's authors are new authors, stored, with the surnames that were unknown, in input order. |
| Saving.SaveNewTitleAuthors | book_app/src/main/java/com/example/book_app/service/BookService.java:128-138 | On a new title, stored authors keep their names and gain one copy of the book per matching input name. Every other author is new: it carries the first name parsed from the first input name with its surname, and lists only that book. Surnames stay unique. |
| Saving.SaveBookLinksUser | book_app/src/main/java/com/example/book_app/service/BookService.java:143-151 | saveBook always ends by linking the user to the book found by title: UserDoesntExist exactly for an unknown user, the book and author writes stay even then, and only that user's list changes. |
| Saving.SaveBookPreservesValid | book_app/src/main/java/com/example/book_app/service/BookService.java:101-153 | saveBook keeps the store invariant. |
| Saving.NewTitleWritesValid | book_app/src/main/java/com/example/book_app/service/BookService.java:112-145 | The writes for a new title keep the store invariant. |
| Saving.NewTitleWritesTables | book_app/src/main/java/com/example/book_app/service/BookService.java:131-143 | The writes for a new title keep ids below the counters and surnames unique. |
| Saving.NewTitleTitlesUnique | book_app/src/main/java/com/example/book_app/service/BookService.java:112-143 | Storing a title only when no book has it keeps titles unique. |
| Saving.NewTitleUsersBacked | book_app/src/main/java/com/example/book_app/service/BookService.java:143 | The new book lists no users, so the book-user link stays backed. |
| Saving.NewTitleNoOrphans | book_app/src/main/java/com/example/book_app/service/BookService.java:129-137 | After a new title's writes, no stored author has an empty book list. |
| Saving.NewTitleAuthorsBacked | book_app/src/main/java/com/example/book_app/service/BookService.java:130-141 | Every author a book lists, the new one included, is stored and lists the book. |
| Saving.SaveTwiceForTwoUsers | book_app/src/main/java/com/example/book_app/service/BookService.java:149-152 | Saving one record for two users stores a single book with that title, which both users list; the second save writes no book or author. |
| Saving.SaveTwiceForOneUser | book_app/src/main/java/com/example/book_app/service/BookService.java:147-151 | Saving one record twice for one user appends the same book id twice. |
| Removal.DetachUsersSpec | book_app/src/main/java/com/example/book_app/service/BookService.java:177-183 | The users loop takes one copy of the book's id out of each listed user's list and touches no other user. |
| Removal.DetachUsers | book_app/src/main/java/com/example/book_app/service/BookService.java:177-183 | Definition of the users loop of removeBook. Its properties are in DetachUsersSpec. |
| Removal.DetachAuthors | book_app/src/main/java/com/example/book_app/service/BookService.java:184-195 | Definition of the authors loop of removeBook. Its properties are in DetachAuthorsSpec. |
| Removal.RemoveBook | book_app/src/main/java/com/example/book_app/service/BookService.java:174-200 | Definition of removeBook on the store value. Properties are in RemoveBookEffect, RemoveBookDropsOrphan and RemoveBookPreservesValid. |
| Removal.RemoveBookFromUser | book_app/src/main/java/com/example/book_app/service/BookService.java:202-217 | Definition of removeBookFromUser on the store value. Properties are in RemoveBookFromUserErrors, RemoveBookFromUserEffect and RemoveBookFromUserPreservesValid. |
| Removal.DetachAuthorsSpec | book_app/src/main/java/com/example/book_app/service/BookService.java:184-195 | The authors loop deletes exactly the listed authors whose list becomes empty, shortens the other listed authors' lists by one copy, and leaves unlisted authors alone. |
| Removal.RemoveBookEffect | book_app/src/main/java/com/example/book_app/service/BookService.java:174-200 | An unknown id fails with BookDoesntExist and changes nothing; otherwise users and authors lose one copy each, emptied authors are deleted, the book is deleted, and nothing else changes. |
| Removal.RemoveBookDropsOrphan | book_app/src/main/java/com/example/book_app/service/BookService.java:188-189 | An author that the removed book lists, and whose list is only that book, is no longer stored. An author linked by surname alone is not covered: see SurnameLinkedAuthorOutlivesBooks. |
| Removal.AuthorFor | book_app/src/main/java/com/example/book_app/service/BookService.java:126-131 | Definition of the author record created for one author string. |
| Removal.SurnameLinkFirstSave | book_app/src/main/java/com/example/book_app/service/BookService.java:112-147 | From an empty catalogue, saving a title by one author string creates author 0, listed by book 0, and gives the book to the user. |
| Removal.SurnameLinkSecondSave | book_app/src/main/java/com/example/book_app/service/BookService.java:134-142 | A second title, by an author string with the same surname, is appended to author 0's list, but its own author list stays empty. |
| Removal.SurnameLinkFirstRemoval | book_app/src/main/java/com/example/book_app/service/BookService.java:184-196 | Removing book 0 shortens author 0's list to book 1 and keeps the author. |
| Removal.SurnameLinkedAuthorOutlivesBooks | book_app/src/main/java/com/example/book_app/service/BookService.java:128-196 | For any two distinct titles whose author strings share a surname: after both saves and both removals, no book is stored. The author made by the first save is still stored and lists the removed book 1, the invariant holds, and the user keeps both removed ids. |
| Removal.RemoveBookPreservesValid | book_app/src/main/java/com/example/book_app/service/BookService.java:174-200 | removeBook keeps the store invariant. |
| Removal.RemoveBookTables | book_app/src/main/java/com/example/book_app/service/BookService.java:186-196 | removeBook keeps ids below the counters and titles and surnames unique, and leaves no stored author with an empty book list. |
| Removal.RemoveBookAuthorsBacked | book_app/src/main/java/com/example/book_app/service/BookService.java:186-196 | After removeBook every author a stored book lists is still stored and lists it. |
| Removal.RemoveBookUsersBacked | book_app/src/main/java/com/example/book_app/service/BookService.java:177-196 | After removeBook every user a stored book lists is still stored and lists it. |
| Removal.RemoveBookFromUserErrors | book_app/src/main/java/com/example/book_app/service/BookService.java:203-210 | The book is checked before the user: BookDoesntExist exactly for an unknown book, UserDoesntExist exactly for a known book and an unknown user, and either failure changes nothing. |
| Removal.RemoveBookFromUserEffect | book_app/src/main/java/com/example/book_app/service/BookService.java:211-216 | On success the user's list loses one copy of the book, the book no longer lists the user, no book or author is deleted, and nothing else changes. |
| Removal.RemoveBookFromUserPreservesValid | book_app/src/main/java/com/example/book_app/service/BookService.java:202-217 | removeBookFromUser keeps the store invariant. |
| Removal.RemoveBookFromUserTables | book_app/src/main/java/com/example/book_app/service/BookService.java:211-216 | Only user lists change, so everything but the book-user link is as it was. |
| Removal.DetachOneUserBacked | book_app/src/main/java/com/example/book_app/service/BookService.java:211-216 | For any tables that differ from the old ones only in the book's user list, with the user removed, and the user's book list, with the book removed: every user a book lists is stored, lists that book back, and appears once. |
| Removal.DetachOneUserLink | book_app/src/main/java/com/example/book_app/service/BookService.java:211-216 | Each remaining link between a book and a user after that double removal still appears on the user's side. |
| Removal.NoBookUsersKept | book_app/src/main/java/com/example/book_app/service/BookService.java:147 | With the assumed addBookToUser, which writes only the user's side, saveBook, removeBook and removeBookFromUser keep every book's user list empty. |
| Removal.RemoveBookKeepsOwnerLists | book_app/src/main/java/com/example/book_app/service/BookService.java:177-183 | Where no book lists a user, removeBook leaves every user's list unchanged, including the removed id. |
| Queries.WithAuthor | book_app/src/main/java/com/example/book_app/service/BookService.java:62-64 | Independent reference: the listed stored ids whose author list names the author, exactly. |
| Queries.ViewsOf | book_app/src/main/java/com/example/book_app/service/BookService.java:51-55 | Definition: the views of the listed ids that name a stored book, in list order. Properties are in ViewsOfStored, ViewsOfIncreasing and ViewsOfStoredOnly. |
| Queries.AllBooks | book_app/src/main/java/com/example/book_app/service/BookService.java:48-57 | Definition of getAllBooks. Properties are in AllBooksSpec. |
| Queries.AuthorMatchesDistinct | book_app/src/main/java/com/example/book_app/service/BookService.java:63-70 | With a duplicate-free author list, a book contributes at most one view to findBooksByAuthor, and exactly one when it lists the author. |
| Queries.AuthorMatches | book_app/src/main/java/com/example/book_app/service/BookService.java:63-71 | Definition of what one book contributes to findBooksByAuthor: one view per author entry equal to the id. |
| Queries.ByAuthor | book_app/src/main/java/com/example/book_app/service/BookService.java:62-72 | Definition of the findBooksByAuthor scan over an id list. Properties are in ByAuthorFilters. |
| Queries.BooksByAuthor | book_app/src/main/java/com/example/book_app/service/BookService.java:59-74 | Definition of findBooksByAuthor. Properties are in BooksByAuthorSpec. |
| Queries.BookById | book_app/src/main/java/com/example/book_app/service/BookService.java:76-89 | Definition of findBookById. Properties are in BookByIdSpec. |
| Queries.BooksOwnedByUser | book_app/src/main/java/com/example/book_app/service/BookService.java:155-172 | Definition of getBooksOwnedByUser. Properties are in BooksOwnedByUserSpec. |
| Queries.StoredOnly | book_app/src/main/java/com/example/book_app/service/BookService.java:163 | An independent reference: the entries of a list that name a stored book, in list order, exactly. |
| Queries.ViewsOfStoredOnly | book_app/src/main/java/com/example/book_app/service/BookService.java:163-169 | The views of a list are the views of its stored entries. |
| Queries.ViewsOfStored | book_app/src/main/java/com/example/book_app/service/BookService.java:163-169 | When every listed id is stored, there is one view per id, each the view of its own book, in order. |
| Queries.FindAllSpec | book_app/src/main/java/com/example/book_app/service/BookService.java:49 | findAll names every stored book exactly once. |
| Queries.AllBooksSpec | book_app/src/main/java/com/example/book_app/service/BookService.java:48-57 | getAllBooks returns one entry per stored book: every entry the view of a stored book, no book twice, every book present. |
| Queries.ViewsOfIncreasing | book_app/src/main/java/com/example/book_app/service/BookService.java:51-55 | Views of increasing stored ids: one per id, each its book's view, no id twice, every id present. |
| Queries.ByAuthorFilters | book_app/src/main/java/com/example/book_app/service/BookService.java:59-74 | When no book lists an author twice, the scan equals the views of the books that list the author, in findAll order. |
| Queries.BooksByAuthorSpec | book_app/src/main/java/com/example/book_app/service/BookService.java:59-74 | findBooksByAuthor returns exactly the stored books whose author list names the id: each entry such a book's view, no book twice, every such book present. |
| Queries.WithAuthorOrdered | book_app/src/main/java/com/example/book_app/service/BookService.java:60-62 | Filtering an increasing id list keeps it increasing. |
| Queries.BookByIdSpec | book_app/src/main/java/com/example/book_app/service/BookService.java:76-89 | findBookById fails with BookDoesntExist exactly for an unknown id, and otherwise returns the view with that id. |
| Queries.BooksOwnedByUserSpec | book_app/src/main/java/com/example/book_app/service/BookService.java:155-172 | getBooksOwnedByUser fails with UserDoesntExist exactly for an unknown user. Otherwise it returns one view per entry of the user's list that names a stored book, in list order. That is empty for an empty list, and one view per entry when every entry is stored. |

## Left out

- `getApiResultsForBook` / `getApiResultsForBookByTitle` (BookService.java:91-99): HTTP calls through `RestTemplate`, which are I/O.
- The response envelope of `saveBook` (`getItems().get(0)`, line 103): the first item is an input record, `VolumeInfo`, with the title, the payload and the author-name strings. An empty item list is not modelled.
- The payload fields are opaque values carried into the views unchanged: published date, page count, average rating, language and description. The entity and DTO classes that fix their Java types are not part of this model. The rating is held as a `real`, and no arithmetic is done on any payload field.
- Spring wiring, configuration, transactions and concurrency: the source has no concurrency of its own.
- JPA cascade and join-table ownership. Owning the join table would decide which side of each association is persisted first. The entity classes are not part of this model, so each side is a separate id list, updated only where the service code updates it.
- Null collections (`users != null`, `authors != null`, `books != null` in the source). Every list is present in the model. Each null branch does what an empty list does, so no behaviour is lost.
- Entity equality: books, authors and users are compared by id.
- `UserService.addBookToUser`: its code is not part of this model. It is modelled under an assumed contract. An unknown user raises UserDoesntExist and changes nothing. Otherwise the book id is appended to that user's list only, with no duplicate check.
- Service.BookService.RemoveBook: the users loop (lines 177-183) never changes anything in a reachable state. With the assumed addBookToUser, which appends only to the user's list, no operation puts a user on a book's user list (Removal.NoBookUsersKept), so every book's user list stays empty. For the same reason, line 215 removes nothing. After removeBook, each user who owned the book keeps its removed id in their list (Removal.RemoveBookKeepsOwnerLists). A shared JPA join table would show the link from both sides after a reload; the model does not capture this, because the entity mappings are not part of this model.
- Removal.RemoveBookDropsOrphan: orphan cleanup (lines 188-189) reaches only the authors the removed book lists. An author found by surname at lines 134-137 gains the new book, but is not put on that book's author list (line 142 sets it to the created authors only). removeBook of that book therefore leaves the author, and the id in its list, as they were. Such an author can stay stored after every book it lists is gone (Removal.SurnameLinkedAuthorOutlivesBooks).
- Ids: the source takes `Long` ids. The model's ids are `nat` because the store assigns them from counters starting at 0. A negative id names no stored record, so the source takes the same path for it as for any unknown id (BookDoesntExist or UserDoesntExist), and the model does not express it. A null id, which the repository's `findById` rejects, is not modelled.
- Queries.BooksOwnedByUserSpec: "one view per list entry" holds only when every entry names a stored book. After removeBook, as above, every user who owned the removed book keeps a dangling id, and getBooksOwnedByUser skips it. In general the result is the views of the stored entries, in list order, and the lemma states exactly that.
- `findAll` order is not fixed by the source. The model takes increasing id order.
- Lookups by a non-unique title or surname cannot happen under the invariant. The model's lookups return the lowest id in that case.
- Store.Valid: does not ask that the two sides of each association agree. The engine itself does not keep them in agreement.
- Service.BookService.FindBooksByAuthor: the inner loop over a book's author list is the separate method `AuthorMatchesOf`. It is the same scan, split out so that each loop is verified on its own.
- Queries.BooksByAuthorSpec: assumes no book lists an author twice, which `saveBook`'s author list guarantees. Without that assumption, `Service.BookService.FindBooksByAuthor` still returns one entry per matching author entry, as the definition `Queries.AuthorMatches` counts.
