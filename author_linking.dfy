/**
 * The per-author-name loop of saveBook for a title that is not stored yet:
 * each name is parsed; an author with that surname gets the new book
 * appended to its list, otherwise a fresh author is created whose list is
 * just the new book. Only the freshly created authors are collected for
 * the new book's own author list.
 */
module AuthorLinking {
  import opened Entities
  import opened Lists
  import opened NameParser
  import opened Store

  /** The authors table, its id counter, and the authors created so far for the book. */
  datatype Linked = Linked(authors: map<AuthorId, Author>, nextAuthorId: nat, created: seq<AuthorId>)

  /** One iteration of the loop, for one author string. */
  function LinkOne(acc: Linked, book: BookId, authorName: string): Linked {
    var p := ParsedName(authorName);
    match SurnameBelow(acc.authors, p.surname, acc.nextAuthorId)
    case None =>
      var a := acc.nextAuthorId;
      Linked(acc.authors[a := Author(p.name, p.surname, [book])], a + 1, acc.created + [a])
    case Some(a) =>
      acc.(authors := acc.authors[a := acc.authors[a].(books := acc.authors[a].books + [book])])
  }

  /** The whole loop, over the author strings in input order. */
  function LinkAuthors(acc: Linked, book: BookId, names: seq<string>): Linked
    decreases |names|
  {
    if names == [] then acc else LinkAuthors(LinkOne(acc, book, names[0]), book, names[1..])
  }

  ghost predicate Ok(acc: Linked) {
    IdsBelowCounter(acc.authors, acc.nextAuthorId) && SurnamesUnique(acc.authors)
  }

  /** How many author strings parse to this surname. */
  function SurnameCount(names: seq<string>, surname: string): nat {
    if names == [] then 0
    else (if ParsedName(names[0]).surname == surname then 1 else 0) + SurnameCount(names[1..], surname)
  }

  /** The parsed first name of the first author string with this surname. */
  function FirstNameFor(names: seq<string>, surname: string): string {
    if names == [] then ""
    else if ParsedName(names[0]).surname == surname then ParsedName(names[0]).name
    else FirstNameFor(names[1..], surname)
  }

  ghost function SurnameSet(authors: map<AuthorId, Author>): set<string> {
    set a | a in authors :: authors[a].surname
  }

  /**
   * Reference definition of the surnames that need a new author, in input
   * order: each surname not yet known, at its first occurrence.
   */
  ghost function NewSurnames(known: set<string>, names: seq<string>): seq<string>
    decreases |names|
  {
    if names == [] then []
    else
      var s := ParsedName(names[0]).surname;
      if s in known then NewSurnames(known, names[1..]) else [s] + NewSurnames(known + {s}, names[1..])
  }

  /** The surnames of the listed authors, in list order. */
  ghost function SurnamesOf(authors: map<AuthorId, Author>, ids: seq<AuthorId>): seq<string> {
    if ids == [] then []
    else (if ids[0] in authors then [authors[ids[0]].surname] else []) + SurnamesOf(authors, ids[1..])
  }

  /** The ids lo, lo + 1, ..., hi - 1. */
  function Range(lo: nat, hi: nat): (r: seq<nat>)
    requires lo <= hi
    ensures |r| == hi - lo
    ensures forall i :: 0 <= i < |r| ==> r[i] == lo + i
    decreases hi - lo
  {
    if lo == hi then [] else [lo] + Range(lo + 1, hi)
  }

  // ---------------------------------------------------------------------
  // One iteration

  /** One iteration keeps ids below the counter and surnames unique. */
  lemma LinkOneOk(acc: Linked, book: BookId, authorName: string)
    requires Ok(acc)
    ensures Ok(LinkOne(acc, book, authorName))
  {
    SurnameBelowExact(acc.authors, ParsedName(authorName).surname, acc.nextAuthorId);
  }

  /**
   * A known surname: the book is appended to the one author with that
   * surname, nothing is created and no other author changes.
   */
  lemma LinkOneKnown(acc: Linked, book: BookId, authorName: string)
    requires Ok(acc) && ParsedName(authorName).surname in SurnameSet(acc.authors)
    ensures var r := LinkOne(acc, book, authorName);
      && r.nextAuthorId == acc.nextAuthorId && r.created == acc.created
      && r.authors.Keys == acc.authors.Keys
      && forall a :: a in acc.authors ==>
           r.authors[a] == acc.authors[a].(books := acc.authors[a].books +
                             (if acc.authors[a].surname == ParsedName(authorName).surname then [book] else []))
  {
    var p := ParsedName(authorName);
    SurnameBelowExact(acc.authors, p.surname, acc.nextAuthorId);
    var x :| x in acc.authors && acc.authors[x].surname == p.surname;
    assert SurnameBelow(acc.authors, p.surname, acc.nextAuthorId) == Some(x);
  }

  /**
   * An unknown surname: exactly one author is created, under the next id,
   * with the parsed name and surname and the book as its whole list.
   */
  lemma LinkOneNew(acc: Linked, book: BookId, authorName: string)
    requires Ok(acc) && ParsedName(authorName).surname !in SurnameSet(acc.authors)
    ensures var r := LinkOne(acc, book, authorName);
      var p := ParsedName(authorName);
      && r.nextAuthorId == acc.nextAuthorId + 1
      && r.created == acc.created + [acc.nextAuthorId]
      && acc.nextAuthorId !in acc.authors
      && r.authors == acc.authors[acc.nextAuthorId := Author(p.name, p.surname, [book])]
  {
    var p := ParsedName(authorName);
    SurnameBelowExact(acc.authors, p.surname, acc.nextAuthorId);
    assert forall x :: x in acc.authors ==> acc.authors[x].surname != p.surname;
  }

  /** Either way, the authors that were there are still there with their surnames. */
  lemma LinkOneKeeps(acc: Linked, book: BookId, authorName: string)
    requires Ok(acc)
    ensures var r := LinkOne(acc, book, authorName);
      && acc.nextAuthorId <= r.nextAuthorId
      && (forall a :: a in acc.authors ==> a in r.authors && r.authors[a].surname == acc.authors[a].surname)
      && SurnameSet(r.authors) == SurnameSet(acc.authors) + {ParsedName(authorName).surname}
  {
    var p := ParsedName(authorName);
    var r := LinkOne(acc, book, authorName);
    if p.surname in SurnameSet(acc.authors) {
      LinkOneKnown(acc, book, authorName);
    } else {
      LinkOneNew(acc, book, authorName);
      var n := acc.nextAuthorId;
      forall x | x in SurnameSet(acc.authors) + {p.surname} ensures x in SurnameSet(r.authors) {
        if x == p.surname {
          assert r.authors[n].surname == x;
        } else {
          var a :| a in acc.authors && acc.authors[a].surname == x;
          assert r.authors[a].surname == x;
        }
      }
    }
  }

  // ---------------------------------------------------------------------
  // The whole loop

  /**
   * The loop keeps the table well formed, creates only fresh ids
   * (consecutive from the old counter) and collects exactly those ids, in
   * creation order, so no pre-existing author is collected.
   */
  lemma LinkAuthorsFresh(acc: Linked, book: BookId, names: seq<string>)
    requires Ok(acc)
    ensures var r := LinkAuthors(acc, book, names);
      && Ok(r)
      && acc.nextAuthorId <= r.nextAuthorId
      && r.created == acc.created + Range(acc.nextAuthorId, r.nextAuthorId)
      && (forall a :: a in r.authors <==> a in acc.authors || acc.nextAuthorId <= a < r.nextAuthorId)
  {
    LinkAuthorsTable(acc, book, names);
    LinkAuthorsCollects(acc, book, names);
  }

  /** The loop keeps the table well formed and adds exactly the ids between the old and the new counter. */
  lemma {:induction false} LinkAuthorsTable(acc: Linked, book: BookId, names: seq<string>)
    requires Ok(acc)
    ensures var r := LinkAuthors(acc, book, names);
      && Ok(r)
      && acc.nextAuthorId <= r.nextAuthorId
      && (forall a :: a in r.authors <==> a in acc.authors || acc.nextAuthorId <= a < r.nextAuthorId)
    decreases |names|
  {
    if names != [] {
      var acc1 := LinkOne(acc, book, names[0]);
      LinkOneOk(acc, book, names[0]);
      LinkOneShape(acc, book, names[0]);
      LinkAuthorsTable(acc1, book, names[1..]);
    }
  }

  /** The loop collects the ids it creates, in creation order. */
  lemma {:induction false} LinkAuthorsCollects(acc: Linked, book: BookId, names: seq<string>)
    ensures var r := LinkAuthors(acc, book, names);
      && acc.nextAuthorId <= r.nextAuthorId
      && r.created == acc.created + Range(acc.nextAuthorId, r.nextAuthorId)
    decreases |names|
  {
    if names != [] {
      var acc1 := LinkOne(acc, book, names[0]);
      LinkOneCounter(acc, book, names[0]);
      LinkAuthorsCollects(acc1, book, names[1..]);
      var r := LinkAuthors(acc1, book, names[1..]);
      assert r == LinkAuthors(acc, book, names);
      RangeSplit(acc.nextAuthorId, acc1.nextAuthorId, r.nextAuthorId);
      assert r.created == acc.created + Range(acc.nextAuthorId, acc1.nextAuthorId) + Range(acc1.nextAuthorId, r.nextAuthorId);
    }
  }

  /** One iteration advances the counter by the number of authors it collects. */
  lemma LinkOneCounter(acc: Linked, book: BookId, authorName: string)
    ensures var r := LinkOne(acc, book, authorName);
      && acc.nextAuthorId <= r.nextAuthorId
      && r.created == acc.created + Range(acc.nextAuthorId, r.nextAuthorId)
  {
    var r := LinkOne(acc, book, authorName);
    if r.nextAuthorId != acc.nextAuthorId {
      assert Range(acc.nextAuthorId, r.nextAuthorId) == [acc.nextAuthorId];
    }
  }

  /** One iteration either creates the next id or creates nothing. */
  lemma LinkOneShape(acc: Linked, book: BookId, authorName: string)
    requires Ok(acc)
    ensures var r := LinkOne(acc, book, authorName);
      && acc.nextAuthorId <= r.nextAuthorId <= acc.nextAuthorId + 1
      && r.created == acc.created + Range(acc.nextAuthorId, r.nextAuthorId)
      && (forall a :: a in r.authors <==> a in acc.authors || acc.nextAuthorId <= a < r.nextAuthorId)
  {
    if ParsedName(authorName).surname in SurnameSet(acc.authors) {
      LinkOneKnown(acc, book, authorName);
    } else {
      LinkOneNew(acc, book, authorName);
    }
  }

  lemma RangeSplit(lo: nat, mid: nat, hi: nat)
    requires lo <= mid <= hi
    ensures Range(lo, mid) + Range(mid, hi) == Range(lo, hi)
  {
  }

  /**
   * A pre-existing author keeps its name and surname and gains one copy of
   * the book per author string with its surname, appended at the end.
   */
  lemma {:induction false} LinkAuthorsExisting(acc: Linked, book: BookId, names: seq<string>, a: AuthorId)
    requires Ok(acc) && a in acc.authors
    ensures var r := LinkAuthors(acc, book, names);
      && a in r.authors
      && r.authors[a] == acc.authors[a].(books := acc.authors[a].books +
                                            Repeat(book, SurnameCount(names, acc.authors[a].surname)))
    decreases |names|
  {
    if names != [] {
      var acc1 := LinkOne(acc, book, names[0]);
      var s := acc.authors[a].surname;
      LinkOneOk(acc, book, names[0]);
      LinkOneExisting(acc, book, names[0], a);
      LinkAuthorsExisting(acc1, book, names[1..], a);
      var k := SurnameCount(names[1..], s);
      if ParsedName(names[0]).surname == s {
        RepeatSucc(book, k);
        assert acc.authors[a].books + [book] + Repeat(book, k) == acc.authors[a].books + Repeat(book, k + 1);
      }
    }
  }

  /** One iteration appends the book to a stored author exactly when the surname is its own. */
  lemma LinkOneExisting(acc: Linked, book: BookId, authorName: string, a: AuthorId)
    requires Ok(acc) && a in acc.authors
    ensures var r := LinkOne(acc, book, authorName);
      && a in r.authors
      && r.authors[a] == acc.authors[a].(books := acc.authors[a].books +
           (if ParsedName(authorName).surname == acc.authors[a].surname then [book] else []))
  {
    if ParsedName(authorName).surname in SurnameSet(acc.authors) {
      LinkOneKnown(acc, book, authorName);
    } else {
      LinkOneNew(acc, book, authorName);
    }
  }

  /**
   * An author the loop creates carries the first name parsed from the first
   * author string with its surname, and has, as its whole book list, one
   * copy of the book per author string with that surname.
   */
  lemma {:induction false} LinkAuthorsCreated(acc: Linked, book: BookId, names: seq<string>, a: AuthorId)
    requires Ok(acc)
    requires var r := LinkAuthors(acc, book, names); a in r.authors && a !in acc.authors
    ensures var r := LinkAuthors(acc, book, names);
      && SurnameCount(names, r.authors[a].surname) > 0
      && r.authors[a].name == FirstNameFor(names, r.authors[a].surname)
      && r.authors[a].books == Repeat(book, SurnameCount(names, r.authors[a].surname))
    decreases |names|
  {
    var r := LinkAuthors(acc, book, names);
    assert names != [];
    var acc1 := LinkOne(acc, book, names[0]);
    assert r == LinkAuthors(acc1, book, names[1..]);
    LinkOneOk(acc, book, names[0]);
    var p := ParsedName(names[0]);
    if a in acc1.authors {
      // created by this iteration
      LinkOneNew(acc, book, names[0]);
      assert acc1.authors[a] == Author(p.name, p.surname, [book]);
      LinkAuthorsExisting(acc1, book, names[1..], a);
      var k := SurnameCount(names[1..], p.surname);
      RepeatSucc(book, k);
      assert r.authors[a].books == [book] + Repeat(book, k);
    } else {
      LinkAuthorsCreated(acc1, book, names[1..], a);
      var s := r.authors[a].surname;
      if p.surname == s {
        // the surname is known after this iteration, so `a` would not be new
        LinkOneKeeps(acc, book, names[0]);
        assert s in SurnameSet(acc1.authors);
        var x :| x in acc1.authors && acc1.authors[x].surname == s;
        LinkAuthorsExisting(acc1, book, names[1..], x);
        LinkAuthorsFresh(acc1, book, names[1..]);
        assert false;
      }
    }
  }

  /**
   * The collected authors' surnames are exactly the surnames that were not
   * known yet, in the order of their first occurrence in the input.
   */
  lemma {:induction false} LinkAuthorsOrder(acc: Linked, book: BookId, names: seq<string>)
    requires Ok(acc)
    ensures var r := LinkAuthors(acc, book, names);
      && |acc.created| <= |r.created|
      && SurnamesOf(r.authors, r.created[|acc.created|..]) == NewSurnames(SurnameSet(acc.authors), names)
    decreases |names|
  {
    var r := LinkAuthors(acc, book, names);
    LinkAuthorsFresh(acc, book, names);
    if names == [] {
      assert r.created[|acc.created|..] == [];
    } else {
      var acc1 := LinkOne(acc, book, names[0]);
      assert r == LinkAuthors(acc1, book, names[1..]);
      LinkOneOk(acc, book, names[0]);
      LinkOneKeeps(acc, book, names[0]);
      LinkAuthorsOrder(acc1, book, names[1..]);
      var p := ParsedName(names[0]);
      var tail := r.created[|acc1.created|..];
      if p.surname in SurnameSet(acc.authors) {
        LinkOneKnown(acc, book, names[0]);
        assert SurnameSet(acc1.authors) == SurnameSet(acc.authors);
        assert r.created[|acc.created|..] == tail;
      } else {
        LinkOneNew(acc, book, names[0]);
        var n := acc.nextAuthorId;
        LinkAuthorsExisting(acc1, book, names[1..], n);
        assert r.authors[n].surname == p.surname;
        assert r.created[|acc.created|..] == [n] + tail;
        assert SurnamesOf(r.authors, [n] + tail) == [p.surname] + SurnamesOf(r.authors, tail) by {
          assert ([n] + tail)[1..] == tail;
        }
      }
    }
  }

  /**
   * After the loop every input surname belongs to a stored author whose
   * list holds the book.
   */
  lemma {:induction false} LinkAuthorsCovers(acc: Linked, book: BookId, names: seq<string>, i: nat)
    requires Ok(acc) && i < |names|
    ensures var r := LinkAuthors(acc, book, names);
      var found := SurnameBelow(r.authors, ParsedName(names[i]).surname, r.nextAuthorId);
      found.Some? && book in r.authors[found.value].books
    decreases |names|
  {
    var r := LinkAuthors(acc, book, names);
    var acc1 := LinkOne(acc, book, names[0]);
    LinkOneOk(acc, book, names[0]);
    if ParsedName(names[0]).surname in SurnameSet(acc.authors) {
      LinkOneKnown(acc, book, names[0]);
    } else {
      LinkOneNew(acc, book, names[0]);
    }
    LinkAuthorsFresh(acc, book, names);
    var s := ParsedName(names[i]).surname;
    if i > 0 {
      LinkAuthorsCovers(acc1, book, names[1..], i - 1);
      assert names[1..][i - 1] == names[i];
    } else {
      var x := if s in SurnameSet(acc.authors) then SurnameBelow(acc.authors, s, acc.nextAuthorId).value else acc.nextAuthorId;
      SurnameBelowExact(acc.authors, s, acc.nextAuthorId);
      assert x in acc1.authors && acc1.authors[x].surname == s && book in acc1.authors[x].books;
      LinkAuthorsExisting(acc1, book, names[1..], x);
      assert book in r.authors[x].books;
      SurnameBelowExact(r.authors, s, r.nextAuthorId);
    }
  }
}
