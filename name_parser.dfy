/**
 * The inline author-name split of saveBook: a name is cut at single spaces
 * with Java's String.split(" "), the first token becomes the first name and
 * all further tokens, glued together with no separator, the surname.
 */
module NameParser {

  /**
   * The pieces of `s` between single spaces, every empty piece included:
   * there is always one more piece than there are spaces.
   */
  function Pieces(s: string): (r: seq<string>)
    ensures |r| == SpaceCount(s) + 1
    ensures forall i :: 0 <= i < |r| ==> ' ' !in r[i]
    decreases |s|
  {
    if s == [] then [""]
    else
      var rest := Pieces(s[1..]);
      if s[0] == ' ' then [""] + rest
      else [[s[0]] + rest[0]] + rest[1..]
  }

  function SpaceCount(s: string): nat {
    if s == [] then 0 else (if s[0] == ' ' then 1 else 0) + SpaceCount(s[1..])
  }

  /** What String.split does with a zero limit: drop empty tokens at the end. */
  function DropTrailingEmpty(ts: seq<string>): (r: seq<string>)
    ensures |r| <= |ts| && r == ts[..|r|]
    ensures forall i :: |r| <= i < |ts| ==> ts[i] == ""
    ensures r != [] ==> r[|r| - 1] != ""
  {
    if ts != [] && ts[|ts| - 1] == "" then DropTrailingEmpty(ts[..|ts| - 1]) else ts
  }

  /**
   * `s.split(" ")` in Java: a string without a space is its own single
   * token (so "" gives [""]); otherwise the pieces between spaces, leading
   * and inner empty pieces kept, trailing empty pieces dropped.
   */
  function Split(s: string): (r: seq<string>)
    ensures forall i :: 0 <= i < |r| ==> ' ' !in r[i]
  {
    if ' ' !in s then [s] else DropTrailingEmpty(Pieces(s))
  }

  /** Strings glued together with no separator (StringBuilder appends). */
  function Concat(ts: seq<string>): string {
    if ts == [] then "" else ts[0] + Concat(ts[1..])
  }

  function RemoveSpaces(s: string): string {
    if s == [] then "" else (if s[0] == ' ' then "" else [s[0]]) + RemoveSpaces(s[1..])
  }

  /** The longest prefix of `s` that holds no space. */
  function FirstWord(s: string): (w: string)
    ensures |w| <= |s| && w == s[..|w|] && ' ' !in w
    ensures |w| < |s| ==> s[|w|] == ' '
  {
    if s == [] || s[0] == ' ' then "" else [s[0]] + FirstWord(s[1..])
  }

  datatype PersonName = PersonName(name: string, surname: string)

  /** The (name, surname) pair saveBook derives from one author string. */
  function ParsedName(s: string): PersonName {
    var tokens := Split(s);
    if tokens == [] then PersonName("", "") else PersonName(tokens[0], Concat(tokens[1..]))
  }

  /**
   * The loop of saveBook over the tokens of one author string, appending
   * token 0 to the name builder and every later token to the surname builder.
   */
  method ParseAuthorName(authorName: string) returns (name: string, surname: string)
    ensures PersonName(name, surname) == ParsedName(authorName)
  {
    var tokens := Split(authorName);
    name, surname := "", "";
    var i := 0;
    while i < |tokens|
      invariant 0 <= i <= |tokens|
      invariant name == if i == 0 then "" else tokens[0]
      invariant surname == if i == 0 then "" else Concat(tokens[1..i])
    {
      if i > 0 {
        ConcatSnoc(tokens[1..i], tokens[i]);
        assert tokens[1..i] + [tokens[i]] == tokens[1..i + 1];
        surname := surname + tokens[i];
      } else {
        name := name + tokens[i];
      }
      i := i + 1;
    }
    if tokens != [] {
      assert tokens[1..|tokens|] == tokens[1..];
    }
  }

  // ---------------------------------------------------------------------
  // Properties of the split

  lemma {:induction false} ConcatSnoc(ts: seq<string>, t: string)
    ensures Concat(ts + [t]) == Concat(ts) + t
  {
    if ts != [] {
      assert (ts + [t])[1..] == ts[1..] + [t];
      ConcatSnoc(ts[1..], t);
    }
  }

  lemma {:induction false} ConcatPieces(s: string)
    ensures Concat(Pieces(s)) == RemoveSpaces(s)
    decreases |s|
  {
    if s != [] {
      ConcatPieces(s[1..]);
      var rest := Pieces(s[1..]);
      if s[0] == ' ' {
        assert ([""] + rest)[1..] == rest;
      } else {
        var r := [[s[0]] + rest[0]] + rest[1..];
        assert r[1..] == rest[1..];
        assert Concat(rest) == rest[0] + Concat(rest[1..]);
      }
    }
  }

  lemma {:induction false} ConcatDropTrailing(ts: seq<string>)
    ensures Concat(DropTrailingEmpty(ts)) == Concat(ts)
    decreases |ts|
  {
    if ts != [] && ts[|ts| - 1] == "" {
      var init := ts[..|ts| - 1];
      ConcatDropTrailing(init);
      assert ts == init + [""];
      ConcatSnoc(init, "");
    }
  }

  lemma {:induction false} FirstPiece(s: string)
    ensures Pieces(s)[0] == FirstWord(s)
    decreases |s|
  {
    if s != [] && s[0] != ' ' {
      FirstPiece(s[1..]);
    }
  }

  lemma {:induction false} NoSpaceUnchanged(s: string)
    requires ' ' !in s
    ensures RemoveSpaces(s) == s && FirstWord(s) == s
  {
    if s != [] {
      assert ' ' !in s[1..];
      NoSpaceUnchanged(s[1..]);
    }
  }

  lemma {:induction false} RemoveSpacesAppend(a: string, b: string)
    ensures RemoveSpaces(a + b) == RemoveSpaces(a) + RemoveSpaces(b)
  {
    if a != [] {
      assert (a + b)[0] == a[0];
      assert (a + b)[1..] == a[1..] + b;
      RemoveSpacesAppend(a[1..], b);
      var h := if a[0] == ' ' then "" else [a[0]];
      assert RemoveSpaces(a + b) == h + RemoveSpaces(a[1..] + b);
      assert RemoveSpaces(a) == h + RemoveSpaces(a[1..]);
    } else {
      assert a + b == b;
    }
  }

  /**
   * An author string with no space is all first name: the surname is empty.
   */
  lemma SingleTokenName(s: string)
    requires ' ' !in s
    ensures ParsedName(s) == PersonName(s, "")
  {
  }

  /**
   * The name is everything up to the first space (so a leading space gives
   * an empty name); the surname is the rest with every space taken out; and
   * name followed by surname is the whole string with its spaces removed.
   */
  lemma {:induction false} ParsedNameSpec(s: string)
    ensures ParsedName(s).name == FirstWord(s)
    ensures ParsedName(s).surname == RemoveSpaces(s[|FirstWord(s)|..])
    ensures ParsedName(s).name + ParsedName(s).surname == RemoveSpaces(s)
  {
    var p := ParsedName(s);
    var tokens := Split(s);
    if ' ' !in s {
      NoSpaceUnchanged(s);
    } else {
      var pieces := Pieces(s);
      ConcatPieces(s);
      ConcatDropTrailing(pieces);
      FirstPiece(s);
      if tokens == [] {
        assert pieces[0] == "";
      } else {
        assert tokens[0] == pieces[0];
        assert Concat(tokens) == tokens[0] + Concat(tokens[1..]);
      }
    }
    var w := FirstWord(s);
    assert s == w + s[|w|..];
    RemoveSpacesAppend(w, s[|w|..]);
    NoSpaceUnchanged(w);
    assert (p.name + p.surname)[|w|..] == p.surname;
  }

  /**
   * "First Last": two space-free words around one space split into exactly
   * that first name and surname.
   */
  lemma {:induction false} TwoWordName(first: string, last: string)
    requires ' ' !in first && ' ' !in last
    ensures ParsedName(first + " " + last) == PersonName(first, last)
  {
    var s := first + " " + last;
    var w := FirstWord(s);
    assert s[|first|] == ' ';
    assert w == first;
    assert s[|w|..] == " " + last;
    ParsedNameSpec(s);
    RemoveSpacesAppend(" ", last);
    NoSpaceUnchanged(last);
  }

  lemma FrankHerbert()
    ensures ParsedName("Frank Herbert") == PersonName("Frank", "Herbert")
  {
    assert "Frank Herbert" == "Frank" + " " + "Herbert";
    TwoWordName("Frank", "Herbert");
  }
}
